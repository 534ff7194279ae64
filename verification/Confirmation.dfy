/**
 The confirmation gate for destructive calls: one-shot tokens that expire. The pending tokens
 are a dictionary; the specification is the sequence of calls made on the gate.
 */
module Confirmation {
  import opened Uris

  type Token = nat

  /** A call on the gate, with its clock reading. */
  datatype Call<D> =
    | Issue(token: Token, data: D, now: real)
    | Check(token: Token, now: real)

  type Pending<D> = map<Token, (real, D)>

  /** Drops every token whose expiry has passed. */
  function Cleaned<D>(p: Pending<D>, now: real): Pending<D> {
    map t | t in p && !(p[t].0 < now) :: p[t]
  }

  function After<D>(p: Pending<D>, lifetime: real, c: Call<D>): Pending<D> {
    match c
    case Issue(t, data, now) => p[t := (now + lifetime, data)]
    case Check(t, now) => Cleaned(p, now) - {t}
  }

  function Answer<D>(p: Pending<D>, token: Token, now: real): Option<D> {
    if token in Cleaned(p, now) then Some(p[token].1) else None
  }

  function Run<D>(lifetime: real, calls: seq<Call<D>>): Pending<D> {
    if calls == [] then map[] else After(Run(lifetime, calls[..|calls| - 1]), lifetime, calls[|calls| - 1])
  }

  /** The clock never goes back, and no token is issued twice. */
  ghost predicate Orderly<D>(calls: seq<Call<D>>) {
    && (forall i, j | 0 <= i < j < |calls| :: calls[i].now <= calls[j].now)
    && (forall i, j | 0 <= i < j < |calls| && calls[i].Issue? && calls[j].Issue? :: calls[i].token != calls[j].token)
  }

  /** Call `i` issued the token with this data and expiry, and it was not presented since. */
  ghost predicate Stands<D>(calls: seq<Call<D>>, lifetime: real, i: int, token: Token, data: D, expiry: real) {
    && 0 <= i < |calls|
    && calls[i].Issue? && calls[i].token == token && calls[i].data == data && expiry == calls[i].now + lifetime
    && forall j | i < j < |calls| && calls[j].Check? :: calls[j].token != token
  }

  /** The token was issued with this data, has not expired, and was not presented since. */
  ghost predicate Redeemable<D>(calls: seq<Call<D>>, lifetime: real, token: Token, data: D, now: real) {
    exists i, expiry :: Stands(calls, lifetime, i, token, data, expiry) && expiry >= now
  }

  lemma OrderlySnoc<D>(calls: seq<Call<D>>, c: Call<D>)
    requires Orderly(calls) && forall k | k in calls :: k.now <= c.now
    requires c.Issue? ==> forall k | k in calls && k.Issue? :: k.token != c.token
    ensures Orderly(calls + [c])
  {
    assert forall i | 0 <= i < |calls| :: calls[i] in calls;
  }

  lemma RunSnoc<D>(lifetime: real, calls: seq<Call<D>>, c: Call<D>)
    ensures Run(lifetime, calls + [c]) == After(Run(lifetime, calls), lifetime, c)
  {
    assert (calls + [c])[..|calls|] == calls;
  }

  lemma StandsBefore<D>(calls: seq<Call<D>>, lifetime: real, i: int, token: Token, data: D, expiry: real)
    requires calls != [] && Stands(calls, lifetime, i, token, data, expiry) && i < |calls| - 1
    ensures Stands(calls[..|calls| - 1], lifetime, i, token, data, expiry)
  {}

  lemma {:induction false} PendingStands<D>(lifetime: real, calls: seq<Call<D>>, token: Token) returns (i: int)
    requires token in Run(lifetime, calls)
    ensures Stands(calls, lifetime, i, token, Run(lifetime, calls)[token].1, Run(lifetime, calls)[token].0)
  {
    var last := calls[|calls| - 1];
    if last.Issue? && last.token == token {
      i := |calls| - 1;
    } else {
      i := PendingStands(lifetime, calls[..|calls| - 1], token);
    }
  }

  lemma {:induction false} StandingIsPending<D>(lifetime: real, calls: seq<Call<D>>, i: int, token: Token, data: D, expiry: real)
    requires Orderly(calls) && Stands(calls, lifetime, i, token, data, expiry)
    requires expiry >= calls[|calls| - 1].now
    ensures token in Run(lifetime, calls) && Run(lifetime, calls)[token] == (expiry, data)
  {
    if i < |calls| - 1 {
      var front := calls[..|calls| - 1];
      StandsBefore(calls, lifetime, i, token, data, expiry);
      assert front[|front| - 1].now <= calls[|calls| - 1].now;
      StandingIsPending(lifetime, front, i, token, data, expiry);
    }
  }

  /** Over every run with fresh tokens and a clock that never goes back, presenting a token gives
      data if and only if an earlier call issued the token with that data, its expiry has not
      passed, and the token was not presented since. Cleaning up for other tokens plays no part. */
  lemma GateExact<D>(lifetime: real, calls: seq<Call<D>>, token: Token, data: D, now: real)
    requires Orderly(calls + [Check(token, now)])
    ensures Answer(Run(lifetime, calls), token, now) == Some(data) <==>
            Redeemable(calls, lifetime, token, data, now)
  {
    var all := calls + [Check(token, now)];
    assert Orderly(calls) by {
      assert forall i | 0 <= i < |calls| :: calls[i] == all[i];
    }
    var p := Run(lifetime, calls);
    if token in p {
      var i := PendingStands(lifetime, calls, token);
      if p[token].0 >= now && p[token].1 == data {
        assert Stands(calls, lifetime, i, token, data, p[token].0);
      }
    }
    if i, expiry :| Stands(calls, lifetime, i, token, data, expiry) && expiry >= now {
      assert all[|calls| - 1].now <= all[|calls|].now;
      StandingIsPending(lifetime, calls, i, token, data, expiry);
    }
  }

  /** After a validation no pending token is past its expiry, and the token presented is not pending. */
  lemma NoneStale<D>(lifetime: real, calls: seq<Call<D>>, token: Token, now: real)
    ensures var p := Run(lifetime, calls + [Check(token, now)]);
            token !in p && forall t | t in p :: p[t].0 >= now
  {
    RunSnoc(lifetime, calls, Check(token, now));
  }

  lemma GateAnswers<D>(lifetime: real, calls: seq<Call<D>>, token: Token, now: real)
    requires Orderly(calls + [Check(token, now)])
    ensures forall data :: Answer(Run(lifetime, calls), token, now) == Some(data) <==> Redeemable(calls, lifetime, token, data, now)
  {
    forall data ensures Answer(Run(lifetime, calls), token, now) == Some(data) <==> Redeemable(calls, lifetime, token, data, now) {
      GateExact(lifetime, calls, token, data, now);
    }
  }

  class ConfirmationGate<D(==)> {
    const lifetime: real
    var pending: Pending<D>
    var nextToken: Token
    ghost var calls: seq<Call<D>>

    ghost predicate Valid()
      reads this
    {
      && Orderly(calls) && pending == Run(lifetime, calls)
      && forall c | c in calls :: c.Issue? ==> c.token < nextToken
    }

    constructor (lifetime: real)
      ensures Valid() && calls == [] && this.lifetime == lifetime
    {
      this.lifetime := lifetime;
      pending, nextToken, calls := map[], 0, [];
    }

    method GenerateToken(data: D, now: real) returns (token: Token)
      requires Valid() && forall c | c in calls :: c.now <= now
      modifies this
      ensures Valid() && calls == old(calls) + [Issue(token, data, now)]
    {
      hide Orderly, Run;
      token := nextToken;
      nextToken := nextToken + 1;
      OrderlySnoc(calls, Issue(token, data, now));
      RunSnoc(lifetime, calls, Issue(token, data, now));
      pending := pending[token := (now + lifetime, data)];
      calls := calls + [Issue(token, data, now)];
    }

    method ValidateAndInvalidate(token: Token, now: real) returns (result: Option<D>)
      requires Valid() && forall c | c in calls :: c.now <= now
      modifies this
      ensures Valid() && calls == old(calls) + [Check(token, now)]
      ensures forall data :: result == Some(data) <==>
                Redeemable(old(calls), lifetime, token, data, now)
    {
      hide Orderly, Run;
      ghost var before := pending;
      OrderlySnoc(calls, Check(token, now));
      RunSnoc(lifetime, calls, Check(token, now));
      calls := calls + [Check(token, now)];
      GateAnswers(lifetime, old(calls), token, now);
      pending := Cleaned(pending, now);
      if token !in pending {
        assert pending - {token} == pending;
        return None;
      }
      var (expiry, data) := pending[token];
      pending := pending - {token};
      if expiry < now {
        return None;
      }
      result := Some(data);
    }
  }
}

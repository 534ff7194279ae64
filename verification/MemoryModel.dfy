/**
 Memories: the vector item and the metadata record of each, the keyed replies, and the upserts
 and deletes that write them.
 */
module MemoryModel {
  import opened Uris
  import Graph

  /** One item of an upsert call; `details` stands for the fields only the validator reads. */
  datatype Item = Item(text: string, details: string, refs: seq<Uri>)

  datatype MemoryItem = MemoryItem(text: string, workspace: string, acl: seq<string>)
  datatype MemoryRecord = MemoryRecord(text: string, workspace: string, subject: string)

  /** What an upsert answers: the stored ids, and the reasons for each rejected item. */
  datatype Answer = Answer(ids: seq<nat>, reports: map<string, seq<string>>)

  /** `nextId` stands for the generator of fresh ids. */
  datatype Memories = Memories(
    items: map<nat, MemoryItem>,
    records: map<nat, MemoryRecord>,
    replies: map<string, Answer>,
    graph: Graph.State,
    nextId: nat)

  /** The validator (an item is accepted when it gives no reason) and the payload serialiser. */
  datatype Rules = Rules(validate: Item -> seq<string>, serialise: seq<Item> -> string)

  function Label(text: string): string {
    if |text| <= 40 then text else text[..40]
  }

  /** The string whose digest keys a reply. */
  function ReplyKey(rules: Rules, ws: string, subject: string, key: string, items: seq<Item>): string {
    ws + ":" + subject + ":" + key + ":" + rules.serialise(items)
  }

  function StoreOne(s: Memories, ws: string, subject: string, item: Item): Memories {
    var id := s.nextId;
    s.(items := s.items[id := MemoryItem(item.text, ws, [subject])],
       records := s.records[id := MemoryRecord(item.text, ws, subject)],
       graph := Graph.UpsertMemoryLinks(s.graph, Memory(id), item.refs, ws),
       nextId := id + 1)
  }

  function StoreAll(rules: Rules, s: Memories, ws: string, subject: string, items: seq<Item>): (Memories, Answer) {
    if items == [] then (s, Answer([], map[]))
    else
      var (t, a) := StoreAll(rules, s, ws, subject, items[..|items| - 1]);
      var item := items[|items| - 1];
      if rules.validate(item) != [] then (t, a.(reports := a.reports[Label(item.text) := rules.validate(item)]))
      else (StoreOne(t, ws, subject, item), a.(ids := a.ids + [t.nextId]))
  }

  function Upsert(rules: Rules, s: Memories, ws: string, subject: string, items: seq<Item>, key: string): (Memories, Answer) {
    var rk := ReplyKey(rules, ws, subject, key, items);
    if key != "" && rk in s.replies then (s, s.replies[rk])
    else
      var (t, a) := StoreAll(rules, s, ws, subject, items);
      (if key != "" then t.(replies := t.replies[rk := a]) else t, a)
  }

  /** The vector filter of a delete: workspace and subject, each ignored when empty. */
  predicate Matches(item: MemoryItem, ws: string, subject: string) {
    (ws == "" || item.workspace == ws) && (subject == "" || subject in item.acl)
  }

  function Matching(items: map<nat, MemoryItem>, ws: string, subject: string, ids: seq<nat>): set<nat> {
    set id | id in ids && id in items && Matches(items[id], ws, subject)
  }

  function Recorded(records: map<nat, MemoryRecord>, ids: seq<nat>): set<nat> {
    set id | id in ids && id in records
  }

  function MemoryUris(ids: seq<nat>): seq<Uri> {
    seq(|ids|, i requires 0 <= i < |ids| => Memory(ids[i]))
  }

  function DeleteIds(s: Memories, ws: string, subject: string, ids: seq<nat>): Memories {
    s.(items := s.items - Matching(s.items, ws, subject, ids),
       records := s.records - Recorded(s.records, ids),
       graph := Graph.DeleteNodes(s.graph, MemoryUris(ids), ws))
  }

  function DeletedCount(s: Memories, ws: string, subject: string, ids: seq<nat>): nat {
    var v, m := |Matching(s.items, ws, subject, ids)|, |Recorded(s.records, ids)|;
    if m == 0 then v else if v < m then v else m
  }

  /** What metadata lists for an owner. */
  function Owned(s: Memories, ws: string, subject: string): set<nat> {
    set id | id in s.records && s.records[id].workspace == ws && s.records[id].subject == subject
  }

  // ---------------------------------------------------------------- agreement

  /** Vector store and metadata hold the same ids, with the same texts and owners. */
  ghost predicate Agreement(s: Memories) {
    && s.items.Keys == s.records.Keys
    && (forall id | id in s.records :: id < s.nextId)
    && (forall id | id in s.records ::
          s.items[id] == MemoryItem(s.records[id].text, s.records[id].workspace, [s.records[id].subject]))
  }

  lemma {:induction false} StoreAllAgrees(rules: Rules, s: Memories, ws: string, subject: string, items: seq<Item>)
    requires Agreement(s)
    ensures Agreement(StoreAll(rules, s, ws, subject, items).0)
    ensures StoreAll(rules, s, ws, subject, items).0.replies == s.replies
  {
    if items != [] { StoreAllAgrees(rules, s, ws, subject, items[..|items| - 1]); }
  }

  lemma {:induction false} StoreAllKeepsReplies(rules: Rules, s: Memories, ws: string, subject: string, items: seq<Item>)
    ensures StoreAll(rules, s, ws, subject, items).0.replies == s.replies
  {
    if items != [] { StoreAllKeepsReplies(rules, s, ws, subject, items[..|items| - 1]); }
  }

  /** What an unkeyed or first keyed upsert adds: one fresh record per accepted item, in order,
      under the caller; everything stored before stays. */
  lemma {:induction false} StoreAllStores(rules: Rules, s: Memories, ws: string, subject: string, items: seq<Item>)
    requires Agreement(s)
    ensures var (t, a) := StoreAll(rules, s, ws, subject, items);
            && (forall id | id in s.records :: id in t.records && t.records[id] == s.records[id])
            && t.records.Keys == s.records.Keys + (set id | id in a.ids)
            && t.nextId == s.nextId + |a.ids|
            && |a.ids| == |Accepted(rules, items)|
            && (forall i | 0 <= i < |a.ids| :: a.ids[i] == s.nextId + i)
            && (forall i | 0 <= i < |a.ids| :: t.records[a.ids[i]] == MemoryRecord(Accepted(rules, items)[i].text, ws, subject))
  {
    if items != [] {
      StoreAllStores(rules, s, ws, subject, items[..|items| - 1]);
    }
  }

  function Accepted(rules: Rules, items: seq<Item>): seq<Item> {
    if items == [] then []
    else
      Accepted(rules, items[..|items| - 1])
        + (if rules.validate(items[|items| - 1]) == [] then [items[|items| - 1]] else [])
  }

  lemma UpsertAgrees(rules: Rules, s: Memories, ws: string, subject: string, items: seq<Item>, key: string)
    requires Agreement(s)
    ensures Agreement(Upsert(rules, s, ws, subject, items, key).0)
  {
    StoreAllAgrees(rules, s, ws, subject, items);
  }

  /** A delete keeps the stores in agreement exactly when every listed id that is stored passes
      the caller's filter: the vector store checks the owner, metadata does not. */
  lemma DeleteAgreesIff(s: Memories, ws: string, subject: string, ids: seq<nat>)
    requires Agreement(s)
    ensures Agreement(DeleteIds(s, ws, subject, ids)) <==>
            forall id | id in ids && id in s.records :: Matches(s.items[id], ws, subject)
  {
    var t := DeleteIds(s, ws, subject, ids);
    if Agreement(t) {
      forall id | id in ids && id in s.records ensures Matches(s.items[id], ws, subject) {
        assert id in Recorded(s.records, ids);
        assert id !in t.records.Keys;
        assert id !in t.items.Keys;
      }
    }
    if forall id | id in ids && id in s.records :: Matches(s.items[id], ws, subject) {
      assert Matching(s.items, ws, subject, ids) == Recorded(s.records, ids);
    }
  }

  /** Deleting everything of a subject removes exactly that owner's memories from both stores and
      returns how many there were. */
  lemma DeleteAllExact(s: Memories, ws: string, subject: string, ids: seq<nat>)
    requires Agreement(s)
    requires forall id :: id in ids <==> id in Owned(s, ws, subject)
    ensures var t := DeleteIds(s, ws, subject, ids);
            && Agreement(t)
            && t.records == s.records - Owned(s, ws, subject)
            && t.items == s.items - Owned(s, ws, subject)
            && DeletedCount(s, ws, subject, ids) == |Owned(s, ws, subject)|
  {
    assert Matching(s.items, ws, subject, ids) == Owned(s, ws, subject);
    assert Recorded(s.records, ids) == Owned(s, ws, subject);
    DeleteAgreesIff(s, ws, subject, ids);
  }

  // ---------------------------------------------------------------- runs

  datatype Op =
    | UpsertOp(ws: string, subject: string, items: seq<Item>, key: string)
    | DeleteOp(ws: string, subject: string, ids: seq<nat>)

  function Apply(rules: Rules, s: Memories, op: Op): Memories {
    match op
    case UpsertOp(ws, subject, items, key) => Upsert(rules, s, ws, subject, items, key).0
    case DeleteOp(ws, subject, ids) => DeleteIds(s, ws, subject, ids)
  }

  function Run(rules: Rules, s: Memories, ops: seq<Op>): Memories {
    if ops == [] then s else Apply(rules, Run(rules, s, ops[..|ops| - 1]), ops[|ops| - 1])
  }

  /** Each delete of the run lists only ids that pass its caller's filter when it happens. */
  ghost predicate OwnDeletes(rules: Rules, s: Memories, ops: seq<Op>) {
    ops != [] ==>
      var t, op := Run(rules, s, ops[..|ops| - 1]), ops[|ops| - 1];
      && OwnDeletes(rules, s, ops[..|ops| - 1])
      && (op.DeleteOp? ==> forall id | id in op.ids && id in t.items :: Matches(t.items[id], op.ws, op.subject))
  }

  lemma {:induction false} RunAgrees(rules: Rules, s: Memories, ops: seq<Op>)
    requires Agreement(s) && OwnDeletes(rules, s, ops)
    ensures Agreement(Run(rules, s, ops))
  {
    if ops != [] {
      var t, op := Run(rules, s, ops[..|ops| - 1]), ops[|ops| - 1];
      RunAgrees(rules, s, ops[..|ops| - 1]);
      match op
      case UpsertOp(ws, subject, items, key) => UpsertAgrees(rules, t, ws, subject, items, key);
      case DeleteOp(ws, subject, ids) => DeleteAgreesIff(t, ws, subject, ids);
    }
  }

  /** From agreement, the deletes of a run are all of own ids if and only if the stores agree after
      every step of it. */
  lemma {:induction false} RunAgreesIff(rules: Rules, s: Memories, ops: seq<Op>)
    requires Agreement(s)
    ensures OwnDeletes(rules, s, ops) <==> forall n | 0 <= n <= |ops| :: Agreement(Run(rules, s, ops[..n]))
  {
    hide Agreement, Apply;
    if ops == [] {
      RunNothing(rules, s);
    } else {
      var front, op := ops[..|ops| - 1], ops[|ops| - 1];
      var t := Run(rules, s, front);
      RunAgreesIff(rules, s, front);
      assert forall n | 0 <= n <= |front| :: ops[..n] == front[..n];
      assert ops[..|ops|] == ops && front[..|front|] == front;
      if Agreement(t) { DeleteStepAgreesIff(rules, t, op); }
      if OwnDeletes(rules, s, ops) { RunAgrees(rules, s, front); }
    }
  }

  lemma RunNothing(rules: Rules, s: Memories)
    ensures Run(rules, s, []) == s
  {}

  /** One step from agreement ends in agreement unless it is a delete of another owner's id. */
  lemma DeleteStepAgreesIff(rules: Rules, t: Memories, op: Op)
    requires Agreement(t)
    ensures Agreement(Apply(rules, t, op)) <==>
            (op.DeleteOp? ==> forall id | id in op.ids && id in t.items :: Matches(t.items[id], op.ws, op.subject))
  {
    match op
    case UpsertOp(ws, subject, items, key) => UpsertAgrees(rules, t, ws, subject, items, key);
    case DeleteOp(ws, subject, ids) => DeleteAgreesIff(t, ws, subject, ids);
  }

  lemma {:induction false} RunKeepsReplies(rules: Rules, s: Memories, ops: seq<Op>, rk: string)
    requires rk in s.replies
    ensures rk in Run(rules, s, ops).replies && Run(rules, s, ops).replies[rk] == s.replies[rk]
  {
    if ops != [] {
      RunKeepsReplies(rules, s, ops[..|ops| - 1], rk);
      var t, op := Run(rules, s, ops[..|ops| - 1]), ops[|ops| - 1];
      if op.UpsertOp? { StoreAllKeepsReplies(rules, t, op.ws, op.subject, op.items); }
    }
  }

  /** Replaying a keyed upsert, whatever ran in between, gives the first answer and changes nothing. */
  lemma ReplayIsIdempotent(rules: Rules, s: Memories, ws: string, subject: string, items: seq<Item>, key: string, between: seq<Op>)
    requires key != ""
    ensures var (t, first) := Upsert(rules, s, ws, subject, items, key);
            var u := Run(rules, t, between);
            Upsert(rules, u, ws, subject, items, key) == (u, first)
  {
    RunKeepsReplies(rules, Upsert(rules, s, ws, subject, items, key).0, between, ReplyKey(rules, ws, subject, key, items));
  }

  // ---------------------------------------------------------------- whose reply

  /** Who asks, and under which key. */
  datatype Asker = Asker(ws: string, subject: string, key: string)

  /** The part of a reply key before the payload. */
  function Lead(a: Asker): string {
    a.ws + ":" + a.subject + ":" + a.key + ":"
  }

  /** The payload of `a` is that of `b` with the rest of `b`'s lead before it. */
  predicate RunsOn(a: Asker, b: Asker, payload: string, other: string) {
    Lead(a) <= Lead(b) && payload == Lead(b)[|Lead(a)|..] + other
  }

  lemma LeadFirst(rules: Rules, a: Asker, items: seq<Item>)
    ensures ReplyKey(rules, a.ws, a.subject, a.key, items) == Lead(a) + rules.serialise(items)
  {}

  /** Two reply keys are equal if and only if one lead goes on as the other and the payloads make up
      the difference. */
  lemma ReplyKeysEqualIff(rules: Rules, a: Asker, items: seq<Item>, b: Asker, others: seq<Item>)
    ensures ReplyKey(rules, a.ws, a.subject, a.key, items) == ReplyKey(rules, b.ws, b.subject, b.key, others)
            <==> (RunsOn(a, b, rules.serialise(items), rules.serialise(others))
                  || RunsOn(b, a, rules.serialise(others), rules.serialise(items)))
  {
    hide ReplyKey, Lead;
    LeadFirst(rules, a, items);
    LeadFirst(rules, b, others);
    SplitsOneWay(Lead(a), rules.serialise(items), Lead(b), rules.serialise(others));
  }

  lemma SplitsOneWay(a: string, p: string, b: string, q: string)
    ensures a + p == b + q <==> (a <= b && p == b[|a|..] + q) || (b <= a && q == a[|b|..] + p)
  {
    if a + p == b + q {
      if |a| <= |b| {
        assert a == (a + p)[..|a|] == (b + q)[..|a|] == b[..|a|];
        assert p == (a + p)[|a|..] == (b + q)[|a|..] == b[|a|..] + q;
      } else {
        assert b == (b + q)[..|b|] == (a + p)[..|b|] == a[..|b|];
        assert q == (b + q)[|b|..] == (a + p)[|b|..] == a[|b|..] + p;
      }
    }
    if a <= b && p == b[|a|..] + q { assert a + p == b + q; }
    if b <= a && q == a[|b|..] + p { assert a + p == b + q; }
  }

  /** No payload is a proper ending of another one, as none is of the JSON text of a list: an ending
      that starts inside a string leaves one open, any other leaves its brackets unbalanced. */
  ghost predicate NoPayloadInside(rules: Rules) {
    forall items, others, rest :: rules.serialise(items) == rest + rules.serialise(others) ==> rest == ""
  }

  /** Then equal reply keys mean the same lead and the same payload: only where the three names are
      divided may differ. */
  lemma ListRepliesApart(rules: Rules, a: Asker, items: seq<Item>, b: Asker, others: seq<Item>)
    requires NoPayloadInside(rules)
    ensures ReplyKey(rules, a.ws, a.subject, a.key, items) == ReplyKey(rules, b.ws, b.subject, b.key, others)
            <==> Lead(a) == Lead(b) && rules.serialise(items) == rules.serialise(others)
  {
    hide ReplyKey, Lead;
    LeadFirst(rules, a, items);
    LeadFirst(rules, b, others);
    ReplyKeysEqualIff(rules, a, items, b, others);
    if RunsOn(a, b, rules.serialise(items), rules.serialise(others)) {
      assert Lead(b)[|Lead(a)|..] == "";
    }
    if RunsOn(b, a, rules.serialise(others), rules.serialise(items)) {
      assert Lead(a)[|Lead(b)|..] == "";
    }
  }

  predicate ColonFree(a: Asker) {
    ':' !in a.ws && ':' !in a.subject && ':' !in a.key
  }

  /** Without colons in the names, equal reply keys mean the same asker and the same payload. */
  lemma ColonFreeRepliesApart(rules: Rules, a: Asker, items: seq<Item>, b: Asker, others: seq<Item>)
    requires ColonFree(a) && ColonFree(b)
    ensures ReplyKey(rules, a.ws, a.subject, a.key, items) == ReplyKey(rules, b.ws, b.subject, b.key, others)
            <==> a == b && rules.serialise(items) == rules.serialise(others)
  {
    if ReplyKey(rules, a.ws, a.subject, a.key, items) == ReplyKey(rules, b.ws, b.subject, b.key, others) {
      var p, q := rules.serialise(items), rules.serialise(others);
      Regrouped(a.ws, a.subject, a.key, p);
      Regrouped(b.ws, b.subject, b.key, q);
      FirstColon(a.ws, a.subject + ":" + (a.key + ":" + p), b.ws, b.subject + ":" + (b.key + ":" + q));
      FirstColon(a.subject, a.key + ":" + p, b.subject, b.key + ":" + q);
      FirstColon(a.key, p, b.key, q);
    }
  }

  lemma Regrouped(x: string, y: string, z: string, rest: string)
    ensures x + ":" + y + ":" + z + ":" + rest == x + ":" + (y + ":" + (z + ":" + rest))
  {}

  lemma FirstColon(x: string, rest: string, y: string, other: string)
    requires ':' !in x && ':' !in y && x + ":" + rest == y + ":" + other
    ensures x == y && rest == other
  {
    var s := x + ":" + rest;
    assert s[|x|] == ':' && s[|y|] == ':';
    assert forall i | 0 <= i < |x| :: s[i] == x[i];
    assert forall i | 0 <= i < |y| :: s[i] == y[i];
    assert x == s[..|x|] && y == s[..|y|];
    assert rest == s[|x| + 1..] && other == s[|y| + 1..];
  }

  /** A keyed upsert made after another one, under a reply key not used before, is answered with that
      one's reply and stores nothing if and only if the two reply keys are equal. */
  lemma AnsweredByAnotherIff(rules: Rules, s: Memories, a: Asker, items: seq<Item>, b: Asker, others: seq<Item>)
    requires a.key != "" && b.key != ""
    requires ReplyKey(rules, b.ws, b.subject, b.key, others) !in s.replies
    ensures var (t, first) := Upsert(rules, s, a.ws, a.subject, items, a.key);
            Upsert(rules, t, b.ws, b.subject, others, b.key) == (t, first)
            <==> ReplyKey(rules, a.ws, a.subject, a.key, items) == ReplyKey(rules, b.ws, b.subject, b.key, others)
  {
    hide ReplyKey;
    StoreAllKeepsReplies(rules, s, a.ws, a.subject, items);
  }
}

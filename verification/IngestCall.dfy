/**
 A whole ingestion call: a list of documents, taken one after the other, each skipped, counted
 (dry run) or ingested. What the call leaves behind and what its counters mean.
 */
module IngestCall {
  import opened Uris
  import opened IngestState
  import opened IngestPlan
  import opened IngestRecovery
  import opened IngestSystem
  import opened IngestRuns

  datatype Document = Document(path: string, text: string)

  datatype Counts = Counts(created: nat, updated: nat, skipped: nat)

  datatype Verdict = Created | Updated | Skipped

  function Judge(s: Stores, k: Key, text: string): Verdict {
    if k.path == "" || text == "" || Skips(s, k, text) then Skipped
    else if k in s.checksums then Updated
    else Created
  }

  function Tally(c: Counts, v: Verdict): Counts {
    match v
    case Created => c.(created := c.created + 1)
    case Updated => c.(updated := c.updated + 1)
    case Skipped => c.(skipped := c.skipped + 1)
  }

  /** What a call writes for one document, given the stores it finds. */
  function WritesOf(cfg: Config, now: Stores, ws: string, acl: seq<string>, doc: Document, dryRun: bool): seq<Write> {
    var k := Key(ws, doc.path);
    if dryRun || Judge(now, k, doc.text).Skipped? then [] else Plan(cfg, now, k, doc.text, acl)
  }

  /** The writes of a call in order. */
  function CallWrites(cfg: Config, s: Stores, ws: string, acl: seq<string>, docs: seq<Document>, dryRun: bool): seq<Write> {
    if docs == [] then []
    else
      var front := CallWrites(cfg, s, ws, acl, docs[..|docs| - 1], dryRun);
      front + WritesOf(cfg, Run(s, front), ws, acl, docs[|docs| - 1], dryRun)
  }

  function CallCounts(cfg: Config, s: Stores, ws: string, acl: seq<string>, docs: seq<Document>, dryRun: bool): Counts {
    if docs == [] then Counts(0, 0, 0)
    else
      var front := docs[..|docs| - 1];
      var doc := docs[|docs| - 1];
      var now := Run(s, CallWrites(cfg, s, ws, acl, front, dryRun));
      Tally(CallCounts(cfg, s, ws, acl, front, dryRun), Judge(now, Key(ws, doc.path), doc.text))
  }

  /** The text of the last document of the list with this path and some text in it. */
  function LastText(docs: seq<Document>, path: string): Option<string> {
    if docs == [] then None
    else
      var doc := docs[|docs| - 1];
      if doc.path == path && doc.text != "" then Some(doc.text) else LastText(docs[..|docs| - 1], path)
  }

  ghost predicate AllSettled(cfg: Config, docs: map<DocId, DocRecord>, keys: iset<Key>, s: Stores) {
    && WellKeyed(s) && SameLegacy(docs, s.docs)
    && forall k | k in keys :: Settled(cfg, docs, s, k)
  }

  /** Every document of the list that a call would look at is under one of the keys. */
  ghost predicate Covers(keys: iset<Key>, ws: string, list: seq<Document>) {
    forall doc | doc in list && doc.path != "" && doc.text != "" :: Key(ws, doc.path) in keys
  }

  /** One undisturbed ingestion settles its key and unsettles none. */
  lemma PlanSettles(cfg: Config, docs: map<DocId, DocRecord>, keys: iset<Key>, s: Stores, k: Key, text: string, acl: seq<string>)
    requires ValidConfig(cfg) && Apart(keys) && k in keys
    requires AllSettled(cfg, docs, keys, s)
    ensures var t := Run(s, Plan(cfg, s, k, text, acl));
            AllSettled(cfg, docs, keys, t) && t.checksums == s.checksums[k := Sha256(text)]
  {
    hide Run, Plan, CellOf, Target, Listed, Identity, WellKeyed;
    var plan := Plan(cfg, s, k, text, acl);
    var t := Run(s, plan);
    assert plan[..|plan|] == plan;
    IdentityFollows(docs, s.docs, k);
    CutKeepsIdentity(cfg, s, k, text, acl, |plan|, k);
    CutOnChecksums(cfg, s, k, text, acl, |plan|);
    RunKeepsWellKeyed(s, plan);
    forall j | j in keys ensures Settled(cfg, docs, t, j) {
      assert Settled(cfg, docs, s, j);
      if j == k {
        AgreesIsRecoverable(cfg, s, Identity(docs, k), k, if k in s.checksums then s.checksums[k].text else "", |cfg.chunker(k.path, text)|);
        PlanAgreesIff(cfg, s, k, text, acl);
      } else {
        if Identity(docs, j) == Identity(docs, k) { IdentityInjective(docs, keys, j, k); }
        forall id: ChunkId | id.doc == Identity(docs, j) ensures CellOf(t, id) == CellOf(s, id) {
          CutSparesOthers(cfg, s, k, text, acl, |plan|, id);
        }
      }
    }
  }

  /** What a call makes of a key's checksum: that of the last non-empty text listed for it. */
  lemma {:induction false} CallChecksums(cfg: Config, s: Stores, ws: string, acl: seq<string>, list: seq<Document>, k: Key)
    requires k.path != ""
    ensures var t, last := Run(s, CallWrites(cfg, s, ws, acl, list, false)), LastText(list, k.path);
            if k.workspace == ws && last.Some? then k in t.checksums && t.checksums[k] == Sha256(last.value)
            else (k in t.checksums <==> k in s.checksums) && (k in s.checksums ==> t.checksums[k] == s.checksums[k])
  {
    hide Run, Plan;
    if list == [] {
      RunEmpty(s);
    } else {
      var front, doc := list[..|list| - 1], list[|list| - 1];
      CallChecksums(cfg, s, ws, acl, front, k);
      var writes := CallWrites(cfg, s, ws, acl, front, false);
      var now := Run(s, writes);
      var plan := Plan(cfg, now, Key(ws, doc.path), doc.text, acl);
      if !Judge(now, Key(ws, doc.path), doc.text).Skipped? {
        RunConcat(s, writes, plan);
        assert plan[..|plan|] == plan;
        CutOnChecksums(cfg, now, Key(ws, doc.path), doc.text, acl, |plan|);
      } else {
        assert writes + [] == writes;
      }
    }
  }

  /** A call on settled stores leaves every key settled, and each listed key in agreement with
      the last non-empty text the list has for it; the other checksums stay. */
  lemma {:induction false} CallSettles(cfg: Config, docs: map<DocId, DocRecord>, keys: iset<Key>, s: Stores,
                                       ws: string, acl: seq<string>, list: seq<Document>)
    requires ValidConfig(cfg) && Apart(keys) && Covers(keys, ws, list)
    requires AllSettled(cfg, docs, keys, s)
    ensures var t := Run(s, CallWrites(cfg, s, ws, acl, list, false));
            && AllSettled(cfg, docs, keys, t)
            && forall k: Key | k.path != "" ::
                 if k.workspace == ws && LastText(list, k.path).Some?
                 then k in t.checksums && t.checksums[k] == Sha256(LastText(list, k.path).value)
                 else (k in t.checksums <==> k in s.checksums)
                      && (k in s.checksums ==> t.checksums[k] == s.checksums[k])
  {
    hide Run, Plan, AllSettled;
    forall k: Key | k.path != "" { CallChecksums(cfg, s, ws, acl, list, k); }
    if list == [] {
      RunEmpty(s);
    } else {
      var front, doc := list[..|list| - 1], list[|list| - 1];
      assert doc in list && forall d | d in front :: d in list;
      CallSettles(cfg, docs, keys, s, ws, acl, front);
      var writes := CallWrites(cfg, s, ws, acl, front, false);
      var now := Run(s, writes);
      var k := Key(ws, doc.path);
      if !Judge(now, k, doc.text).Skipped? {
        RunConcat(s, writes, Plan(cfg, now, k, doc.text, acl));
        PlanSettles(cfg, docs, keys, now, k, doc.text, acl);
      } else {
        assert writes + [] == writes;
      }
    }
  }

  /** Settled and recorded means in agreement: the stores hold exactly the recorded text. */
  lemma CallAgrees(cfg: Config, keys: iset<Key>, s: Stores, ws: string, acl: seq<string>, list: seq<Document>, path: string)
    requires ValidConfig(cfg) && Apart(keys) && Covers(keys, ws, list)
    requires AllSettled(cfg, s.docs, keys, s)
    requires path != "" && LastText(list, path).Some?
    ensures var t := Run(s, CallWrites(cfg, s, ws, acl, list, false));
            && Identity(t.docs, Key(ws, path)) == Identity(s.docs, Key(ws, path))
            && Agrees(cfg, t, Identity(t.docs, Key(ws, path)), Key(ws, path), LastText(list, path).value)
  {
    hide Run, CallWrites, LastText, Agrees, Vacant, Identity, WellKeyed, SameLegacy;
    CallSettles(cfg, s.docs, keys, s, ws, acl, list);
    var t := Run(s, CallWrites(cfg, s, ws, acl, list, false));
    IdentityFollows(s.docs, t.docs, Key(ws, path));
    LastTextIsListed(list, path);
    assert Settled(cfg, s.docs, t, Key(ws, path));
  }

  lemma {:induction false} LastTextIsListed(list: seq<Document>, path: string)
    requires LastText(list, path).Some?
    ensures Document(path, LastText(list, path).value) in list && LastText(list, path).value != ""
  {
    var doc := list[|list| - 1];
    if !(doc.path == path && doc.text != "") {
      LastTextIsListed(list[..|list| - 1], path);
    }
  }

  // ---------------------------------------------------------------- counters

  lemma {:induction false} CountsAddUp(cfg: Config, s: Stores, ws: string, acl: seq<string>, list: seq<Document>, dryRun: bool)
    ensures var c := CallCounts(cfg, s, ws, acl, list, dryRun);
            c.created + c.updated + c.skipped == |list|
  {
    if list != [] { CountsAddUp(cfg, s, ws, acl, list[..|list| - 1], dryRun); }
  }

  ghost predicate DistinctPaths(list: seq<Document>) {
    forall i, j | 0 <= i < j < |list| :: list[i].path != list[j].path
  }

  /** How one document of a call is judged, given what came before it. */
  function VerdictAt(cfg: Config, s: Stores, ws: string, acl: seq<string>, list: seq<Document>, i: nat, dryRun: bool): Verdict
    requires i < |list|
  {
    Judge(Run(s, CallWrites(cfg, s, ws, acl, list[..i], dryRun)), Key(ws, list[i].path), list[i].text)
  }

  /** The last non-empty text listed for a path is what its name says. */
  lemma {:induction false} LastTextExact(list: seq<Document>, path: string)
    ensures LastText(list, path) == None <==> forall i | 0 <= i < |list| :: list[i].path != path || list[i].text == ""
    ensures LastText(list, path).Some? ==>
              exists i :: 0 <= i < |list| && list[i] == Document(path, LastText(list, path).value) && list[i].text != ""
                && forall j | i < j < |list| :: list[j].path != path || list[j].text == ""
  {
    if list != [] {
      var n := |list| - 1;
      LastTextExact(list[..n], path);
      assert forall i | 0 <= i < n :: list[..n][i] == list[i];
      if !(list[n].path == path && list[n].text != "") && LastText(list, path).Some? {
        var i :| 0 <= i < n && list[..n][i] == Document(path, LastText(list, path).value) && list[..n][i].text != ""
                 && forall j | i < j < n :: list[..n][j].path != path || list[..n][j].text == "";
        assert list[i] == list[..n][i];
      }
    }
  }

  /** How a real call judges a document: skipped without a path or text, or if its text is the one last
      listed for the path or, with none listed, the one recorded; created if the path is neither
      listed before nor recorded; updated otherwise. */
  lemma VerdictExact(cfg: Config, s: Stores, ws: string, acl: seq<string>, list: seq<Document>, i: nat)
    requires i < |list|
    ensures var k, text, last := Key(ws, list[i].path), list[i].text, LastText(list[..i], list[i].path);
            var v := VerdictAt(cfg, s, ws, acl, list, i, false);
            && (v == Skipped <==>
                  || k.path == "" || text == "" || last == Some(text)
                  || (last == None && k in s.checksums && s.checksums[k] == Sha256(text)))
            && (v == Created <==> k.path != "" && text != "" && last == None && k !in s.checksums)
  {
    hide Run, CallWrites, LastText;
    if list[i].path != "" { CallChecksums(cfg, s, ws, acl, list[..i], Key(ws, list[i].path)); }
  }

  /** Each counter is the number of documents with its verdict. */
  lemma {:induction false} CountsAreTallies(cfg: Config, s: Stores, ws: string, acl: seq<string>, list: seq<Document>, dryRun: bool)
    ensures var c := CallCounts(cfg, s, ws, acl, list, dryRun);
            && c.created == |set i: nat | i < |list| && VerdictAt(cfg, s, ws, acl, list, i, dryRun) == Created|
            && c.updated == |set i: nat | i < |list| && VerdictAt(cfg, s, ws, acl, list, i, dryRun) == Updated|
            && c.skipped == |set i: nat | i < |list| && VerdictAt(cfg, s, ws, acl, list, i, dryRun) == Skipped|
  {
    hide Run, CallWrites, Judge, VerdictAt;
    if list == [] {
      NothingCounted(cfg, s, ws, acl, dryRun);
    } else {
      CountsAreTallies(cfg, s, ws, acl, list[..|list| - 1], dryRun);
      CountsSnoc(cfg, s, ws, acl, list, dryRun);
      TallySnoc(cfg, s, ws, acl, list, dryRun, Created);
      TallySnoc(cfg, s, ws, acl, list, dryRun, Updated);
      TallySnoc(cfg, s, ws, acl, list, dryRun, Skipped);
    }
  }

  lemma NothingCounted(cfg: Config, s: Stores, ws: string, acl: seq<string>, dryRun: bool)
    ensures CallCounts(cfg, s, ws, acl, [], dryRun) == Counts(0, 0, 0)
  {}

  lemma CountsSnoc(cfg: Config, s: Stores, ws: string, acl: seq<string>, list: seq<Document>, dryRun: bool)
    requires list != []
    ensures var n := |list| - 1;
            CallCounts(cfg, s, ws, acl, list, dryRun)
            == Tally(CallCounts(cfg, s, ws, acl, list[..n], dryRun), VerdictAt(cfg, s, ws, acl, list, n, dryRun))
  {}

  lemma TallySnoc(cfg: Config, s: Stores, ws: string, acl: seq<string>, list: seq<Document>, dryRun: bool, v: Verdict)
    requires list != []
    ensures var n, front := |list| - 1, list[..|list| - 1];
            |set i: nat | i < |list| && VerdictAt(cfg, s, ws, acl, list, i, dryRun) == v|
            == |set i: nat | i < n && VerdictAt(cfg, s, ws, acl, front, i, dryRun) == v|
               + (if VerdictAt(cfg, s, ws, acl, list, n, dryRun) == v then 1 else 0)
  {
    hide VerdictAt;
    var n, front := |list| - 1, list[..|list| - 1];
    var a := set i: nat | i < |list| && VerdictAt(cfg, s, ws, acl, list, i, dryRun) == v;
    var b := set i: nat | i < n && VerdictAt(cfg, s, ws, acl, front, i, dryRun) == v;
    forall i: nat | i < n ensures VerdictAt(cfg, s, ws, acl, list, i, dryRun) == VerdictAt(cfg, s, ws, acl, front, i, dryRun) {
      VerdictsOfFront(cfg, s, ws, acl, list, i, dryRun);
    }
    assert a == b + if VerdictAt(cfg, s, ws, acl, list, n, dryRun) == v then {n} else {};
  }

  /** A dry run foresees a document if and only if it would be skipped for lack of a path or text, or
      its path has not come up before, or its path is recorded and the text that came up last
      equals this one exactly when the recorded one does. */
  predicate Foreseen(s: Stores, ws: string, list: seq<Document>, i: nat)
    requires i < |list|
  {
    var k, text, last := Key(ws, list[i].path), list[i].text, LastText(list[..i], list[i].path);
    || k.path == "" || text == "" || last == None
    || (k in s.checksums && (last.value == text <==> s.checksums[k] == Sha256(text)))
  }

  /** That is exactly when the dry run and the real run judge it alike. */
  lemma DryRunVerdictIff(cfg: Config, s: Stores, ws: string, acl: seq<string>, list: seq<Document>, i: nat)
    requires i < |list|
    ensures VerdictAt(cfg, s, ws, acl, list, i, true) == VerdictAt(cfg, s, ws, acl, list, i, false)
            <==> Foreseen(s, ws, list, i)
  {
    hide Run, CallWrites, LastText;
    var k := Key(ws, list[i].path);
    DryRunWritesNothing(cfg, s, ws, acl, list[..i]);
    RunEmpty(s);
    if k.path != "" {
      CallChecksums(cfg, s, ws, acl, list[..i], k);
    }
  }

  lemma VerdictsOfFront(cfg: Config, s: Stores, ws: string, acl: seq<string>, list: seq<Document>, i: nat, dryRun: bool)
    requires i < |list| - 1
    ensures VerdictAt(cfg, s, ws, acl, list[..|list| - 1], i, dryRun) == VerdictAt(cfg, s, ws, acl, list, i, dryRun)
  {
    assert list[..|list| - 1][..i] == list[..i];
  }

  /** The counters are a tally of the verdicts, so equal verdicts make equal counters. */
  lemma {:induction false} EqualVerdictsCount(cfg: Config, s: Stores, ws: string, acl: seq<string>, list: seq<Document>)
    requires forall i | 0 <= i < |list| ::
               VerdictAt(cfg, s, ws, acl, list, i, true) == VerdictAt(cfg, s, ws, acl, list, i, false)
    ensures CallCounts(cfg, s, ws, acl, list, true) == CallCounts(cfg, s, ws, acl, list, false)
  {
    if list != [] {
      hide Run, CallWrites, Judge;
      var front := list[..|list| - 1];
      forall i | 0 <= i < |front|
        ensures VerdictAt(cfg, s, ws, acl, front, i, true) == VerdictAt(cfg, s, ws, acl, front, i, false)
      {
        VerdictsOfFront(cfg, s, ws, acl, list, i, true);
        VerdictsOfFront(cfg, s, ws, acl, list, i, false);
      }
      EqualVerdictsCount(cfg, s, ws, acl, front);
      assert VerdictAt(cfg, s, ws, acl, list, |front|, true) == VerdictAt(cfg, s, ws, acl, list, |front|, false);
    }
  }

  /** A dry run writes nothing and, when no path is listed twice, counts what the real run would. */
  lemma DryRunPredicts(cfg: Config, s: Stores, ws: string, acl: seq<string>, list: seq<Document>)
    requires DistinctPaths(list)
    ensures CallWrites(cfg, s, ws, acl, list, true) == []
    ensures CallCounts(cfg, s, ws, acl, list, true) == CallCounts(cfg, s, ws, acl, list, false)
  {
    hide Run, VerdictAt;
    DryRunWritesNothing(cfg, s, ws, acl, list);
    forall i | 0 <= i < |list|
      ensures VerdictAt(cfg, s, ws, acl, list, i, true) == VerdictAt(cfg, s, ws, acl, list, i, false)
    {
      DryRunVerdictIff(cfg, s, ws, acl, list, i);
      if LastText(list[..i], list[i].path).Some? {
        LastTextIsListed(list[..i], list[i].path);
      }
    }
    EqualVerdictsCount(cfg, s, ws, acl, list);
  }

  lemma {:induction false} DryRunWritesNothing(cfg: Config, s: Stores, ws: string, acl: seq<string>, list: seq<Document>)
    ensures CallWrites(cfg, s, ws, acl, list, true) == []
  {
    if list != [] { DryRunWritesNothing(cfg, s, ws, acl, list[..|list| - 1]); }
  }
}

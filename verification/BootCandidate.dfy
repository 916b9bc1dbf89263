/**
 The lineage walk that picks the recovery point behind the last successful boot
 (anduinos-recovery-env/src/deploy.py, boot_candidate).
 */
module BootCandidate {
  import opened Sequences

  type Id = string

  /** A node of the lineage document; the parent is a raw field, which may be missing or empty. */
  datatype LineageNode = LineageNode(available: bool, created: int, exact: bool, parent: Option<string>)

  datatype Record = Record(schema: int, id: Id, ready: bool, failed: bool, created: int, uuid: string)

  /** The documents of the snapshot store. A metadata record that is missing cannot be read. */
  datatype Store = Store(nodes: map<Id, LineageNode>, records: map<Id, Record>,
                         uuid: string -> Option<Id>, started: int)

  datatype Outcome = Found(record: Record) | Nothing | Cycle | Broken

  /** How the walk judges one node. */
  datatype Verdict = Eligible | Passed | Unreadable

  /** Lines 330-336 */
  function Judge(s: Store, id: Id): Verdict
    requires id in s.nodes
  {
    var node := s.nodes[id];
    if !(node.available && node.created <= s.started) then Passed
    else if id !in s.records then Unreadable
    else
      var r := s.records[id];
      if !(r.schema == 1 && r.id == id && r.ready && !r.failed && r.created <= s.started) then Passed
      else if s.uuid(r.uuid).Some? then Eligible else Unreadable
  }

  /** The raw identifier the walk goes to next; an empty one ends it like a missing one. */
  function Onward(s: Store, id: Id): Option<string>
    requires id in s.nodes
  {
    if s.nodes[id].exact then Given(s.nodes[id].parent) else None
  }

  function Given(raw: Option<string>): Option<string> {
    if raw == Some("") then None else raw
  }

  // ---------------------------------------------------------------- what the documents say

  /** The raw field is given and reads as `id`. */
  ghost predicate ReadsAs(s: Store, raw: Option<string>, id: Id) {
    raw.Some? && raw.value != "" && s.uuid(raw.value) == Some(id)
  }

  /** Node `a` names `b` as its parent, and its relation to it is exact. */
  ghost predicate LeadsTo(s: Store, a: Id, b: Id) {
    a in s.nodes && s.nodes[a].exact && ReadsAs(s, s.nodes[a].parent, b)
  }

  /** A chain of exact-parent links that starts at the current head. */
  ghost predicate IsChain(s: Store, head: Option<string>, c: seq<Id>) {
    && (forall i :: 0 <= i < |c| ==> c[i] in s.nodes)
    && (|c| > 0 ==> ReadsAs(s, head, c[0]))
    && (forall i :: 0 <= i < |c| - 1 ==> LeadsTo(s, c[i], c[i + 1]))
  }

  /** The snapshot was there when the session started. */
  ghost predicate InTime(s: Store, id: Id) {
    id in s.nodes && s.nodes[id].available && s.nodes[id].created <= s.started
  }

  /** Its metadata record is its own, in time, and says that it is ready and has not failed. */
  ghost predicate Recorded(s: Store, id: Id) {
    && id in s.records && s.records[id].schema == 1 && s.records[id].id == id
    && s.records[id].ready && !s.records[id].failed && s.records[id].created <= s.started
  }

  /** A snapshot that may be offered. */
  ghost predicate Bootable(s: Store, id: Id) {
    InTime(s, id) && Recorded(s, id) && s.uuid(s.records[id].uuid).Some?
  }

  /** A snapshot the walk goes past: out of time, or with a record that can be read but does not qualify. */
  ghost predicate GoesPast(s: Store, id: Id) {
    id in s.nodes && (!InTime(s, id) || (id in s.records && !Recorded(s, id)))
  }

  lemma JudgeMeans(s: Store, id: Id)
    requires id in s.nodes
    ensures Judge(s, id) == Eligible <==> Bootable(s, id)
    ensures Judge(s, id) == Passed <==> GoesPast(s, id)
  {
  }

  /** Where the walk stands after chain `c`. */
  ghost function After(s: Store, head: Option<string>, c: seq<Id>): Option<string>
    requires IsChain(s, head, c)
  {
    if c == [] then Given(head) else Onward(s, c[|c| - 1])
  }

  ghost predicate AllPassed(s: Store, c: seq<Id>) {
    forall i :: 0 <= i < |c| ==> GoesPast(s, c[i])
  }

  /** `c` is the repetition-free chain of passed nodes that explains the outcome. */
  ghost predicate Explains(s: Store, head: Option<string>, c: seq<Id>, r: Outcome) {
    && IsChain(s, head, c) && Distinct(c) && AllPassed(s, c)
    && var raw := After(s, head, c);
    match r
    case Nothing => raw == None
    case Cycle => raw.Some? && s.uuid(raw.value).Some? && s.uuid(raw.value).value in c
    case Found(record) =>
      && raw.Some? && s.uuid(raw.value).Some?
      && var id := s.uuid(raw.value).value;
      id !in c && Bootable(s, id) && record == s.records[id]
    case Broken =>
      && raw.Some?
      && (s.uuid(raw.value).None? ||
          var id := s.uuid(raw.value).value;
          id !in c && !Bootable(s, id) && !GoesPast(s, id))
  }

  lemma ChainSnoc(s: Store, head: Option<string>, c: seq<Id>, id: Id)
    requires IsChain(s, head, c) && After(s, head, c).Some? && s.uuid(After(s, head, c).value) == Some(id)
    requires id in s.nodes
    ensures IsChain(s, head, c + [id])
  {
  }

  lemma ChainFits(s: Store, head: Option<string>, c: seq<Id>)
    requires IsChain(s, head, c) && Distinct(c)
    ensures |c| <= |s.nodes|
  {
    DistinctFits(c, s.nodes.Keys);
  }

  /** The chain `c` ends at the first snapshot that may be offered, and `record` is that snapshot's. */
  ghost predicate Offers(s: Store, head: Option<string>, c: seq<Id>, record: Record) {
    && c != [] && IsChain(s, head, c) && Bootable(s, c[|c| - 1]) && record == s.records[c[|c| - 1]]
    && forall i :: 0 <= i < |c| - 1 ==> GoesPast(s, c[i])
  }

  /**
   The loop of boot_candidate. It ends on every finite lineage, because it never visits a node twice;
   a record is found exactly if a chain of exact parents ends at it and goes past everything before.
   */
  method Choose(s: Store, current: Option<string>) returns (r: Outcome)
    ensures exists c :: Explains(s, current, c, r)
    ensures forall record :: r == Found(record) <==> exists c :: Offers(s, current, c, record)
  {
    r := Walk(s, current);
    ghost var c :| Explains(s, current, c, r);
    OfferedIsFound(s, current, c, r);
  }

  method Walk(s: Store, current: Option<string>) returns (r: Outcome)
    ensures exists c :: Explains(s, current, c, r)
  {
    var head := current;
    var seen: set<Id> := {};
    ghost var c: seq<Id> := [];
    while head.Some? && head.value != ""
      invariant IsChain(s, current, c) && Distinct(c) && AllPassed(s, c)
      invariant Given(head) == After(s, current, c)
      invariant seen == ToSet(c)
      invariant |c| <= |s.nodes|
      decreases |s.nodes| - |c|
    {
      var uuid := s.uuid(head.value);
      if uuid.None? {
        assert Explains(s, current, c, Broken);
        return Broken;
      }
      var id := uuid.value;
      if id in s.nodes {
        JudgeMeans(s, id);
      }
      if id in seen {
        assert Explains(s, current, c, Cycle);
        return Cycle;
      }
      if id !in s.nodes || Judge(s, id) == Unreadable {
        assert Explains(s, current, c, Broken);
        return Broken;
      }
      if Judge(s, id) == Eligible {
        assert Explains(s, current, c, Found(s.records[id]));
        return Found(s.records[id]);
      }
      seen := seen + {id};
      ChainSnoc(s, current, c, id);
      DistinctSnoc(c, id);
      c := c + [id];
      ChainFits(s, current, c);
      head := if s.nodes[id].exact then s.nodes[id].parent else None;
    }
    assert Explains(s, current, c, Nothing);
    return Nothing;
  }

  // ---------------------------------------------------------------- what the outcome means

  /** Two chains from the same head agree as far as both go. */
  lemma {:induction false} ChainsAgree(s: Store, head: Option<string>, c: seq<Id>, d: seq<Id>, k: nat)
    requires IsChain(s, head, c) && IsChain(s, head, d)
    requires k < |c| && k < |d|
    ensures c[k] == d[k]
  {
    if k > 0 {
      ChainsAgree(s, head, c, d, k - 1);
      assert LeadsTo(s, c[k - 1], c[k - 1 + 1]) && LeadsTo(s, d[k - 1], d[k - 1 + 1]);
    }
  }

  lemma PrefixOfChain(s: Store, head: Option<string>, c: seq<Id>, d: seq<Id>)
    requires IsChain(s, head, c) && IsChain(s, head, d) && |c| <= |d|
    ensures c <= d
    ensures |c| < |d| ==> After(s, head, c).Some? && s.uuid(After(s, head, c).value) == Some(d[|c|])
  {
    forall k | 0 <= k < |c|
      ensures c[k] == d[k]
    {
      ChainsAgree(s, head, c, d, k);
    }
    if 0 < |c| < |d| {
      assert LeadsTo(s, d[|c| - 1], d[|c| - 1 + 1]);
    }
  }

  /** The documents determine the outcome: each is returned exactly when its explanation exists. */
  lemma OutcomeUnique(s: Store, head: Option<string>, c: seq<Id>, r: Outcome, d: seq<Id>, q: Outcome)
    requires Explains(s, head, c, r) && Explains(s, head, d, q)
    ensures c == d && r == q
  {
    var a, b := if |c| <= |d| then c else d, if |c| <= |d| then d else c;
    PrefixOfChain(s, head, a, b);
  }

  /** A found record is the nearest eligible one: every chain that reaches an eligible node passes through it. */
  lemma FoundIsNearest(s: Store, head: Option<string>, c: seq<Id>, record: Record, d: seq<Id>)
    requires Explains(s, head, c, Found(record))
    requires IsChain(s, head, d) && d != [] && Bootable(s, d[|d| - 1])
    ensures |c| < |d| && c + [record.id] <= d
  {
    var id := s.uuid(After(s, head, c).value).value;
    if |d| <= |c| {
      PrefixOfChain(s, head, d, c);
    } else {
      ChainSnoc(s, head, c, id);
      PrefixOfChain(s, head, c + [id], d);
    }
  }

  /** When the walk returns nothing, no node on the chain of exact parents is eligible. */
  lemma NothingMeansNone(s: Store, head: Option<string>, c: seq<Id>, d: seq<Id>)
    requires Explains(s, head, c, Nothing) && IsChain(s, head, d) && d != []
    ensures d <= c && GoesPast(s, d[|d| - 1])
  {
    if |d| <= |c| {
      PrefixOfChain(s, head, d, c);
      assert d[|d| - 1] == c[|d| - 1];
    } else {
      PrefixOfChain(s, head, c, d);
    }
  }

  /** A reported cycle is one: the chain comes back to a node it passed, and no node on it is eligible. */
  lemma {:induction false} CycleMeansCycle(s: Store, head: Option<string>, c: seq<Id>, d: seq<Id>)
    requires Explains(s, head, c, Cycle) && IsChain(s, head, d)
    ensures exists e :: IsChain(s, head, e) && |e| == |c| + 1 && c <= e && e[|c|] in c
    ensures forall i :: 0 <= i < |d| ==> d[i] in c && GoesPast(s, d[i])
    decreases |d|
  {
    var id := s.uuid(After(s, head, c).value).value;
    ChainSnoc(s, head, c, id);
    assert IsChain(s, head, c + [id]);
    if |d| > 0 {
      var front := d[..|d| - 1];
      CycleMeansCycle(s, head, c, front);
      var last := d[|d| - 1];
      if |d| <= |c| {
        PrefixOfChain(s, head, d, c);
        assert last == c[|d| - 1];
      } else {
        var before := d[|d| - 2];
        assert front[|d| - 2] == before;
        assert LeadsTo(s, d[|d| - 2], d[|d| - 2 + 1]);
        var i :| 0 <= i < |c| && c[i] == before;
        if i < |c| - 1 {
          assert LeadsTo(s, c[i], c[i + 1]);
          assert last == c[i + 1];
        } else {
          assert last == id;
        }
      }
      assert forall i :: 0 <= i < |front| ==> front[i] == d[i];
    }
  }

  /** Going past a snapshot and offering it exclude each other. */
  lemma OfferedIsFound(s: Store, head: Option<string>, c: seq<Id>, r: Outcome)
    requires Explains(s, head, c, r)
    ensures forall record :: r == Found(record) <==> exists d :: Offers(s, head, d, record)
  {
    if r.Found? {
      var id := s.uuid(After(s, head, c).value).value;
      ChainSnoc(s, head, c, id);
      assert Offers(s, head, c + [id], r.record);
    }
    forall d, record | Offers(s, head, d, record)
      ensures r == Found(record)
    {
      OfferExplains(s, head, d, record);
      OutcomeUnique(s, head, c, r, d[..|d| - 1], Found(record));
    }
  }

  lemma OfferExplains(s: Store, head: Option<string>, d: seq<Id>, record: Record)
    requires Offers(s, head, d, record)
    ensures Explains(s, head, d[..|d| - 1], Found(record))
  {
    var front, last := d[..|d| - 1], |d| - 1;
    forall i, j | 0 <= i < j < |d|
      ensures d[i] != d[j]
    {
      NoReturn(s, head, d, i, j);
    }
    if front != [] {
      assert LeadsTo(s, d[last - 1], d[last - 1 + 1]);
    }
  }

  /** A chain whose last node differs from all before it meets no node twice. */
  lemma {:induction false} NoReturn(s: Store, head: Option<string>, d: seq<Id>, i: nat, j: nat)
    requires IsChain(s, head, d) && i < j < |d| && forall k :: 0 <= k < |d| - 1 ==> d[k] != d[|d| - 1]
    ensures d[i] != d[j]
    decreases |d| - j
  {
    if j < |d| - 1 {
      NoReturn(s, head, d, i + 1, j + 1);
      assert LeadsTo(s, d[i], d[i + 1]) && LeadsTo(s, d[j], d[j + 1]);
    }
  }

  /** A chain of passed nodes that comes to one whose relation is not exact ends there, with nothing. */
  lemma LegacyEnds(s: Store, head: Option<string>, c: seq<Id>, r: Outcome, d: seq<Id>)
    requires Explains(s, head, c, r) && IsChain(s, head, d) && AllPassed(s, d)
    requires d != [] && !s.nodes[d[|d| - 1]].exact
    ensures r == Nothing && c == d
  {
    forall k | 0 <= k < |d| - 1
      ensures d[k] != d[|d| - 1]
    {
      assert LeadsTo(s, d[k], d[k + 1]);
    }
    forall i, j | 0 <= i < j < |d|
      ensures d[i] != d[j]
    {
      NoReturn(s, head, d, i, j);
    }
    OutcomeUnique(s, head, c, r, d, Nothing);
  }
}

/** Benchmark submissions: the dictionary form, the canonical form that is hashed, and signing. */
module Submissions {
  import opened Wrappers
  import opened StableSort
  import opened TextOrder
  import opened Sequences

  datatype Evidence = Evidence(
    graderId: string, status: string, score: real, skipReason: string, toolVersion: string,
    runtimeMs: real, outputHash: string, details: map<string, int>)

  datatype Submission = Submission(
    taskId: string, toolName: string, toolVersion: string, submittedAt: string, evidence: seq<Evidence>,
    canonicalHash: string, runId: string, sandboxLimits: map<string, int>)

  // ---- Dictionary form ----

  /** The keys a dictionary holds; a missing key is `None`. */
  datatype EvidenceDict = EvidenceDict(
    graderId: Option<string>, status: Option<string>, score: Option<real>, skipReason: Option<string>,
    toolVersion: Option<string>, runtimeMs: Option<real>, outputHash: Option<string>, details: Option<map<string, int>>)

  datatype SubmissionDict = SubmissionDict(
    taskId: Option<string>, toolName: Option<string>, toolVersion: Option<string>, submittedAt: Option<string>,
    evidence: Option<seq<EvidenceDict>>, canonicalHash: Option<string>, runId: Option<string>,
    sandboxLimits: Option<map<string, int>>)

  datatype DictError = MissingGraderId

  function GetOr<T>(value: Option<T>, default: T): T {
    if value.Some? then value.value else default
  }

  function EvidenceToDict(e: Evidence): EvidenceDict {
    EvidenceDict(Some(e.graderId), Some(e.status), Some(e.score), Some(e.skipReason), Some(e.toolVersion),
                 Some(e.runtimeMs), Some(e.outputHash), Some(e.details))
  }

  function EvidenceFromDict(d: EvidenceDict): Result<Evidence, DictError> {
    if d.graderId.None? then Err(MissingGraderId)
    else Ok(Evidence(d.graderId.value, GetOr(d.status, "skipped"), GetOr(d.score, 0.0), GetOr(d.skipReason, ""),
                     GetOr(d.toolVersion, ""), GetOr(d.runtimeMs, 0.0), GetOr(d.outputHash, ""),
                     GetOr(d.details, map[])))
  }

  function ToDict(s: Submission): SubmissionDict {
    SubmissionDict(Some(s.taskId), Some(s.toolName), Some(s.toolVersion), Some(s.submittedAt),
                   Some(seq(|s.evidence|, i requires 0 <= i < |s.evidence| => EvidenceToDict(s.evidence[i]))),
                   Some(s.canonicalHash), Some(s.runId), Some(s.sandboxLimits))
  }

  function AllFromDict(ds: seq<EvidenceDict>): Result<seq<Evidence>, DictError> {
    if ds == [] then Ok([])
    else
      var e :- EvidenceFromDict(ds[0]);
      var rest :- AllFromDict(ds[1..]);
      Ok([e] + rest)
  }

  function FromDict(d: SubmissionDict): Result<Submission, DictError> {
    var evidence :- AllFromDict(GetOr(d.evidence, []));
    Ok(Submission(GetOr(d.taskId, ""), GetOr(d.toolName, ""), GetOr(d.toolVersion, ""), GetOr(d.submittedAt, ""),
                  evidence, GetOr(d.canonicalHash, ""), GetOr(d.runId, ""), GetOr(d.sandboxLimits, map[])))
  }

  lemma {:induction false} AllFromDictInverts(evidence: seq<Evidence>, ds: seq<EvidenceDict>)
    requires |ds| == |evidence| && forall i | 0 <= i < |ds| :: ds[i] == EvidenceToDict(evidence[i])
    ensures AllFromDict(ds) == Ok(evidence)
  {
    if ds != [] {
      AllFromDictInverts(evidence[1..], ds[1..]);
      assert evidence == [evidence[0]] + evidence[1..];
    }
  }

  lemma FromDictInvertsToDict(s: Submission)
    ensures FromDict(ToDict(s)) == Ok(s)
  {
    AllFromDictInverts(s.evidence, ToDict(s).evidence.value);
  }

  /** What a dictionary without a key is read as: only grader ids have no default. */
  lemma FromDictDefaults(d: EvidenceDict)
    ensures EvidenceFromDict(d.(graderId := None)) == Err(MissingGraderId)
    ensures forall id: string ::
              EvidenceFromDict(EvidenceDict(Some(id), None, None, None, None, None, None, None))
              == Ok(Evidence(id, "skipped", 0.0, "", "", 0.0, "", map[]))
    ensures FromDict(SubmissionDict(None, None, None, None, None, None, None, None))
            == Ok(Submission("", "", "", "", [], "", "", map[]))
  {
  }

  /** A field that is there is kept, whatever the others are. */
  lemma FromDictKeeps(d: EvidenceDict, e: Evidence)
    requires EvidenceFromDict(d) == Ok(e)
    ensures d.graderId == Some(e.graderId) && (d.status.Some? ==> d.status == Some(e.status))
    ensures (d.score.Some? ==> d.score == Some(e.score)) && (d.skipReason.Some? ==> d.skipReason == Some(e.skipReason))
    ensures d.toolVersion.Some? ==> d.toolVersion == Some(e.toolVersion)
    ensures d.runtimeMs.Some? ==> d.runtimeMs == Some(e.runtimeMs)
    ensures d.outputHash.Some? ==> d.outputHash == Some(e.outputHash)
    ensures d.details.Some? ==> d.details == Some(e.details)
  {
  }

  // ---- Canonical form ----

  /** What is hashed of one piece of evidence.  Rounding to six digits is a parameter. */
  datatype Entry = Entry(graderId: string, status: string, score: real, outputHash: string)

  datatype CanonicalForm = CanonicalForm(taskId: string, toolName: string, entries: seq<Entry>)

  function EntryOf(round6: real -> real, e: Evidence): Entry {
    Entry(e.graderId, e.status, round6(e.score), e.outputHash)
  }

  function Entries(round6: real -> real, evidence: seq<Evidence>): seq<Entry> {
    Map(e => EntryOf(round6, e), evidence)
  }

  predicate IdLe(a: Entry, b: Entry) {
    TextLe(a.graderId, b.graderId)
  }

  function Canonical(round6: real -> real, s: Submission): CanonicalForm {
    CanonicalForm(s.taskId, s.toolName, Sort(IdLe, Entries(round6, s.evidence)))
  }

  lemma IdLeIsTotalPreorder()
    ensures TotalPreorder(IdLe)
  {
    forall a, b ensures IdLe(a, b) || IdLe(b, a) { TextLeTotal(a.graderId, b.graderId); }
    forall a, b, c | IdLe(a, b) && IdLe(b, c) ensures IdLe(a, c) {
      TextLeTransitive(a.graderId, b.graderId, c.graderId);
    }
  }

  /** The form holds the task, the tool, and of each piece of evidence its grader id, status, rounded
      score and output hash, in order of grader id. */
  lemma CanonicalHolds(round6: real -> real, s: Submission)
    ensures var c := Canonical(round6, s);
            && c.taskId == s.taskId && c.toolName == s.toolName
            && multiset(c.entries)
               == multiset(Map((e: Evidence) => Entry(e.graderId, e.status, round6(e.score), e.outputHash), s.evidence))
            && forall i, j | 0 <= i < j < |c.entries| :: TextLe(c.entries[i].graderId, c.entries[j].graderId)
  {
    var xs := Entries(round6, s.evidence);
    var ys := Map((e: Evidence) => Entry(e.graderId, e.status, round6(e.score), e.outputHash), s.evidence);
    assert xs == ys;
    IdLeIsTotalPreorder();
    SortSorts(IdLe, xs);
    SortKeepsElements(IdLe, xs);
  }

  // ---- The canonical form keeps what lookup sees ----

  /** `{e.grader_id: e for e in evidence}.get(id)`: the last one wins. */
  function Lookup(evidence: seq<Evidence>, id: string): Option<Evidence> {
    if evidence == [] then None
    else if evidence[|evidence| - 1].graderId == id then Some(evidence[|evidence| - 1])
    else Lookup(evidence[..|evidence| - 1], id)
  }

  /** `i` is the last position of the id. */
  ghost predicate LastAt(evidence: seq<Evidence>, id: string, i: int) {
    0 <= i < |evidence| && evidence[i].graderId == id && forall k | i < k < |evidence| :: evidence[k].graderId != id
  }

  lemma {:induction false} LookupAbsent(evidence: seq<Evidence>, id: string)
    ensures Lookup(evidence, id).None? <==> forall k | 0 <= k < |evidence| :: evidence[k].graderId != id
  {
    if evidence != [] {
      var init := evidence[..|evidence| - 1];
      LookupAbsent(init, id);
      assert forall k | 0 <= k < |init| :: init[k] == evidence[k];
    }
  }

  lemma {:induction false} LookupAt(evidence: seq<Evidence>, id: string, i: int)
    requires LastAt(evidence, id, i)
    ensures Lookup(evidence, id) == Some(evidence[i])
  {
    var init := evidence[..|evidence| - 1];
    if i < |init| {
      assert forall k | 0 <= k < |init| :: init[k] == evidence[k];
      LookupAt(init, id, i);
    }
  }

  /** The last piece of evidence with the id, if there is one. */
  lemma LookupExactly(evidence: seq<Evidence>, id: string)
    ensures Lookup(evidence, id).None? <==> forall k | 0 <= k < |evidence| :: evidence[k].graderId != id
    ensures forall i | LastAt(evidence, id, i) :: Lookup(evidence, id) == Some(evidence[i])
  {
    LookupAbsent(evidence, id);
    forall i | LastAt(evidence, id, i) ensures Lookup(evidence, id) == Some(evidence[i]) { LookupAt(evidence, id, i); }
  }

  function LastOf<T>(xs: seq<T>): Option<T> {
    if xs == [] then None else Some(xs[|xs| - 1])
  }

  function EntriesFor(entries: seq<Entry>, id: string): seq<Entry> {
    Keep((e: Entry) => e.graderId == id, entries)
  }

  lemma {:induction false} KeepAppend<T>(p: T -> bool, xs: seq<T>, x: T)
    ensures Keep(p, xs + [x]) == Keep(p, xs) + (if p(x) then [x] else [])
  {
    if xs == [] {
      assert [] + [x] == [x] && [x][1..] == [];
    } else {
      TailOfConcat(xs, [x]);
      KeepAppend(p, xs[1..], x);
      Associative(if p(xs[0]) then [xs[0]] else [], Keep(p, xs[1..]), if p(x) then [x] else []);
    }
  }

  lemma EntriesAppend(round6: real -> real, evidence: seq<Evidence>)
    requires evidence != []
    ensures var n := |evidence| - 1;
            Entries(round6, evidence) == Entries(round6, evidence[..n]) + [EntryOf(round6, evidence[n])]
  {
  }

  lemma {:induction false} LookupIsLastEntry(round6: real -> real, evidence: seq<Evidence>, id: string)
    ensures var found := Lookup(evidence, id);
            LastOf(EntriesFor(Entries(round6, evidence), id))
            == if found.Some? then Some(EntryOf(round6, found.value)) else None
  {
    if evidence != [] {
      var n := |evidence| - 1;
      LookupIsLastEntry(round6, evidence[..n], id);
      EntriesAppend(round6, evidence);
      KeepAppend((e: Entry) => e.graderId == id, Entries(round6, evidence[..n]), EntryOf(round6, evidence[n]));
    }
  }

  /** Sorting keeps the order of entries with one id, so the last of them stays the last. */
  lemma SortKeepsLookup(round6: real -> real, s: Submission, id: string)
    ensures EntriesFor(Canonical(round6, s).entries, id) == EntriesFor(Entries(round6, s.evidence), id)
  {
    forall a: Entry, b: Entry | a.graderId == id && b.graderId == id ensures IdLe(a, b) {
      TextLeTotal(id, id);
    }
    SortIsStable(IdLe, (e: Entry) => e.graderId == id, Entries(round6, s.evidence));
  }

  /** The status a grader is scored with; no evidence counts as skipped. */
  function StatusOf(evidence: seq<Evidence>, id: string): string {
    match Lookup(evidence, id)
    case Some(e) => e.status
    case None => "skipped"
  }

  /** Equal canonical forms give every grader the same status, even with repeated ids. */
  lemma CanonicalFixesStatus(round6: real -> real, a: Submission, b: Submission, id: string)
    requires Canonical(round6, a) == Canonical(round6, b)
    ensures StatusOf(a.evidence, id) == StatusOf(b.evidence, id)
  {
    SortKeepsLookup(round6, a, id);
    SortKeepsLookup(round6, b, id);
    LookupIsLastEntry(round6, a.evidence, id);
    LookupIsLastEntry(round6, b.evidence, id);
  }

  // ---- What the canonical form decides ----

  ghost predicate SameEntriesPerId(xs: seq<Entry>, ys: seq<Entry>) {
    forall id :: EntriesFor(xs, id) == EntriesFor(ys, id)
  }

  lemma SortedHeadIsLeast(xs: seq<Entry>, ys: seq<Entry>)
    requires Sorted(IdLe, xs) && Sorted(IdLe, ys) && xs != [] && SameEntriesPerId(xs, ys)
    ensures ys != [] && IdLe(ys[0], xs[0])
  {
    var id := xs[0].graderId;
    assert xs[0] in EntriesFor(xs, id) && EntriesFor(xs, id) == EntriesFor(ys, id);
    KeepMembers((e: Entry) => e.graderId == id, ys, xs[0]);
    IdLeIsTotalPreorder();
    SortedHead(IdLe, ys, xs[0]);
  }

  /** Sorted entries are determined by the entries of each id. */
  lemma {:induction false} SortedByIds(xs: seq<Entry>, ys: seq<Entry>)
    requires Sorted(IdLe, xs) && Sorted(IdLe, ys) && SameEntriesPerId(xs, ys)
    ensures xs == ys
  {
    if xs != [] || ys != [] {
      if xs != [] { SortedHeadIsLeast(xs, ys); }
      if ys != [] { SortedHeadIsLeast(ys, xs); }
      var id := xs[0].graderId;
      TextLeAntisymmetric(id, ys[0].graderId);
      assert EntriesFor(xs, id)[0] == EntriesFor(ys, id)[0];
      forall other ensures EntriesFor(xs[1..], other) == EntriesFor(ys[1..], other) {
        assert EntriesFor(xs, other) == EntriesFor(ys, other);
        SameTail(xs[0], other, EntriesFor(xs[1..], other), EntriesFor(ys[1..], other));
      }
      SortedByIds(xs[1..], ys[1..]);
    }
  }

  lemma SameTail(x: Entry, id: string, a: seq<Entry>, b: seq<Entry>)
    requires var head := if x.graderId == id then [x] else []; head + a == head + b
    ensures a == b
  {
    var head := if x.graderId == id then [x] else [];
    assert (head + a)[|head|..] == a && (head + b)[|head|..] == b;
  }

  /** Two submissions have one canonical form exactly when task and tool agree and every grader has
      the same entries in the same order. */
  lemma CanonicalExactly(round6: real -> real, a: Submission, b: Submission)
    ensures Canonical(round6, a) == Canonical(round6, b)
            <==> && a.taskId == b.taskId && a.toolName == b.toolName
                 && SameEntriesPerId(Entries(round6, a.evidence), Entries(round6, b.evidence))
  {
    var xs, ys := Canonical(round6, a).entries, Canonical(round6, b).entries;
    IdLeIsTotalPreorder();
    SortSorts(IdLe, Entries(round6, a.evidence));
    SortSorts(IdLe, Entries(round6, b.evidence));
    forall id
      ensures EntriesFor(xs, id) == EntriesFor(Entries(round6, a.evidence), id)
      ensures EntriesFor(ys, id) == EntriesFor(Entries(round6, b.evidence), id)
    {
      SortKeepsLookup(round6, a, id);
      SortKeepsLookup(round6, b, id);
    }
    if SameEntriesPerId(Entries(round6, a.evidence), Entries(round6, b.evidence)) {
      forall id ensures EntriesFor(xs, id) == EntriesFor(ys, id) {
        assert EntriesFor(Entries(round6, a.evidence), id) == EntriesFor(Entries(round6, b.evidence), id);
      }
      SortedByIds(xs, ys);
    }
  }

  // ---- Invariance ----

  ghost predicate DistinctIds(evidence: seq<Evidence>) {
    forall e, f | e in evidence && f in evidence :: e.graderId == f.graderId ==> e == f
  }

  /** With one piece of evidence per grader, the order of the evidence does not matter. */
  lemma CanonicalIgnoresOrder(round6: real -> real, s: Submission, t: Submission)
    requires DistinctIds(s.evidence) && multiset(s.evidence) == multiset(t.evidence)
    requires s.taskId == t.taskId && s.toolName == t.toolName
    ensures Canonical(round6, s) == Canonical(round6, t)
  {
    var xs, ys := Entries(round6, s.evidence), Entries(round6, t.evidence);
    MapPermutes(e => EntryOf(round6, e), s.evidence, t.evidence);
    IdLeIsTotalPreorder();
    SortSorts(IdLe, xs);
    SortSorts(IdLe, ys);
    SortKeepsElements(IdLe, xs);
    SortKeepsElements(IdLe, ys);
    var sorted := Sort(IdLe, xs);
    forall a, b | a in sorted && b in sorted && IdLe(a, b) && IdLe(b, a) ensures a == b {
      SortMember(IdLe, xs, a);
      SortMember(IdLe, xs, b);
      TextLeAntisymmetric(a.graderId, b.graderId);
      SameIdSameEntry(round6, s.evidence, a, b);
    }
    SortedIsUnique(IdLe, sorted, Sort(IdLe, ys));
  }

  lemma SameIdSameEntry(round6: real -> real, evidence: seq<Evidence>, a: Entry, b: Entry)
    requires DistinctIds(evidence) && a in Entries(round6, evidence) && b in Entries(round6, evidence)
    requires a.graderId == b.graderId
    ensures a == b
  {
  }

  // ---- Signing ----

  class SignedSubmission {
    var value: Submission

    constructor (s: Submission)
      ensures value == s
    {
      value := s;
    }

    /** Stores the hash of the canonical form, which does not depend on the stored hash: signing
        twice changes nothing. */
    method Sign(round6: real -> real, hash: CanonicalForm -> string)
      modifies this
      ensures value == old(value).(canonicalHash := hash(Canonical(round6, old(value))))
      ensures value.canonicalHash == hash(Canonical(round6, value))
    {
      value := value.(canonicalHash := hash(Canonical(round6, value)));
    }
  }
}

/** The container-scan policy: which findings block, given dated exceptions.  Dates are day
    numbers. */
module ScanPolicy {
  import opened Wrappers
  import opened Sequences
  import opened Text
  import opened StableSort
  import opened TextOrder

  /** The required fields of an exception. */
  datatype FieldName = AdvisoryField | PackageField | RationaleField | OwnerField | ExpiresOnField

  /** An entry of the exception list as it was decoded: a text field is `Some`, any other value `None`. */
  datatype RawItem = NotAnObject | Fields(values: map<FieldName, Option<string>>)

  datatype Fault = NotObject | MissingFields(names: seq<FieldName>) | BadDate

  datatype Exemption = Exemption(advisory: string, package: string, rationale: string, owner: string, expiresOn: int)

  datatype Item = Malformed(fault: Fault) | Exception(value: Exemption)

  datatype PolicyError = FaultAt(position: nat, fault: Fault) | DuplicateKey(advisory: string, package: string)

  /** The severity is trimmed and in upper case; `details` is the rest of the finding. */
  datatype Finding = Finding(severity: string, advisory: string, package: string, details: string)

  datatype Mode = Advisory | ReleaseMode

  datatype Status = NoException | Accepted | Expired

  datatype Reason =
    | CriticalUnwaivable | BelowThreshold | AcceptedException | PullRequestAdvisory | BaselinePeriod | HighEnforced

  /** A finding with the decision attached to it. */
  datatype Judged = Judged(
    finding: Finding, blocked: bool, reason: Reason, status: Status, exception: Option<Exemption>)

  type Index = map<(string, string), Exemption>

  // ---- Normalizing an exception ----

  const REQUIRED := [AdvisoryField, PackageField, RationaleField, OwnerField, ExpiresOnField]

  /** The trimmed text of a field, if it is a text that is not blank. */
  function Field(values: map<FieldName, Option<string>>, name: FieldName): Option<string> {
    var text := if name in values && values[name].Some? then Strip(values[name].value) else "";
    if text != "" then Some(text) else None
  }

  function Missing(values: map<FieldName, Option<string>>, names: seq<FieldName>): seq<FieldName> {
    if names == [] then []
    else (if Field(values, names[0]).None? then [names[0]] else []) + Missing(values, names[1..])
  }

  lemma {:induction false} MissingMembers(
    values: map<FieldName, Option<string>>, names: seq<FieldName>, name: FieldName)
    ensures name in Missing(values, names) <==> name in names && Field(values, name).None?
  {
    if names != [] { MissingMembers(values, names[1..], name); }
  }

  lemma NothingMissing(values: map<FieldName, Option<string>>, names: seq<FieldName>)
    ensures Missing(values, names) == [] <==> forall name <- names :: Field(values, name).Some?
  {
  }

  /** `_normalize_exception`; `isoDate` reads a date. */
  function Normalize(raw: RawItem, isoDate: string -> Option<int>): Item {
    if raw.NotAnObject? then Malformed(NotObject)
    else if Missing(raw.values, REQUIRED) != [] then Malformed(MissingFields(Missing(raw.values, REQUIRED)))
    else
      RequiredPresent(raw.values);
      var expires := isoDate(Field(raw.values, ExpiresOnField).value);
      if expires.None? then Malformed(BadDate)
      else
        Exception(Exemption(Field(raw.values, AdvisoryField).value, Field(raw.values, PackageField).value,
                            Field(raw.values, RationaleField).value, Field(raw.values, OwnerField).value,
                            expires.value))
  }

  lemma RequiredPresent(values: map<FieldName, Option<string>>)
    requires Missing(values, REQUIRED) == []
    ensures Field(values, AdvisoryField).Some? && Field(values, PackageField).Some?
    ensures Field(values, RationaleField).Some? && Field(values, OwnerField).Some?
    ensures Field(values, ExpiresOnField).Some?
  {
    NothingMissing(values, REQUIRED);
    assert REQUIRED[0] in REQUIRED && REQUIRED[1] in REQUIRED && REQUIRED[2] in REQUIRED;
    assert REQUIRED[3] in REQUIRED && REQUIRED[4] in REQUIRED;
  }

  /** An exception is accepted exactly when it is an object with five texts that are not blank, one of
      them a date; it then holds those texts, trimmed. */
  lemma NormalizedExactly(raw: RawItem, isoDate: string -> Option<int>, e: Exemption)
    ensures Normalize(raw, isoDate) == Exception(e)
            <==> && raw.Fields? && Field(raw.values, ExpiresOnField).Some?
                 && Field(raw.values, AdvisoryField) == Some(e.advisory)
                 && Field(raw.values, PackageField) == Some(e.package)
                 && Field(raw.values, RationaleField) == Some(e.rationale)
                 && Field(raw.values, OwnerField) == Some(e.owner)
                 && isoDate(Field(raw.values, ExpiresOnField).value) == Some(e.expiresOn)
  {
    if raw.Fields? { NothingMissing(raw.values, REQUIRED); }
  }

  /** A fault about missing fields lists exactly the required fields without a text. */
  lemma FaultNamesFields(raw: RawItem, isoDate: string -> Option<int>, names: seq<FieldName>, name: FieldName)
    requires Normalize(raw, isoDate) == Malformed(MissingFields(names))
    ensures raw.Fields? && names != [] && (name in names <==> name in REQUIRED && Field(raw.values, name).None?)
  {
    MissingMembers(raw.values, REQUIRED, name);
  }

  function Items(raws: seq<RawItem>, isoDate: string -> Option<int>): (items: seq<Item>)
    ensures |items| == |raws| && forall i | 0 <= i < |raws| :: items[i] == Normalize(raws[i], isoDate)
  {
    seq(|raws|, i requires 0 <= i < |raws| => Normalize(raws[i], isoDate))
  }

  // ---- The exception index ----

  predicate HasKey(item: Item, a: string, p: string) {
    item.Exception? && item.value.advisory == a && item.value.package == p
  }

  function KeyOf(e: Exemption): (string, string) {
    (e.advisory, e.package)
  }

  /** The first exception of each (advisory, package) wins. */
  function IndexOf(items: seq<Item>): Index {
    if items == [] then map[]
    else
      var index, last := IndexOf(items[..|items| - 1]), items[|items| - 1];
      if last.Malformed? || KeyOf(last.value) in index then index else index[KeyOf(last.value) := last.value]
  }

  ghost predicate Duplicated(items: seq<Item>, a: string, p: string) {
    exists i, j :: 0 <= i < j < |items| && HasKey(items[i], a, p) && HasKey(items[j], a, p)
  }

  /** Which errors an exception list has. */
  ghost predicate HasError(items: seq<Item>, e: PolicyError) {
    match e
    case FaultAt(position, fault) => position < |items| && items[position] == Malformed(fault)
    case DuplicateKey(a, p) => Duplicated(items, a, p)
  }

  ghost predicate NoPolicyError(items: seq<Item>) {
    forall e :: !HasError(items, e)
  }

  lemma {:induction false} IndexKeys(items: seq<Item>, a: string, p: string)
    ensures (a, p) in IndexOf(items) <==> exists i :: 0 <= i < |items| && HasKey(items[i], a, p)
  {
    if items != [] {
      var init := items[..|items| - 1];
      IndexKeys(init, a, p);
      assert forall i | 0 <= i < |init| :: init[i] == items[i];
    }
  }

  /** What one more item adds to the errors. */
  lemma ErrorStep(init: seq<Item>, item: Item, e: PolicyError)
    ensures HasError(init + [item], e) <==>
              || HasError(init, e)
              || (item.Malformed? && e == FaultAt(|init|, item.fault))
              || (item.Exception? && e == DuplicateKey(item.value.advisory, item.value.package)
                  && KeyOf(item.value) in IndexOf(init))
  {
    var items := init + [item];
    assert items[|init|] == item && forall i | 0 <= i < |init| :: items[i] == init[i];
    if e.DuplicateKey? {
      IndexKeys(init, e.advisory, e.package);
    }
  }

  /** The error one more item gives, if any. */
  function NewErrors(item: Item, position: nat, index: Index): seq<PolicyError> {
    if item.Malformed? then [FaultAt(position, item.fault)]
    else if KeyOf(item.value) in index then [DuplicateKey(item.value.advisory, item.value.package)]
    else []
  }

  ghost predicate ErrorsAre(items: seq<Item>, errors: seq<PolicyError>) {
    forall e :: e in errors <==> HasError(items, e)
  }

  lemma ErrorsStep(init: seq<Item>, item: Item, errors: seq<PolicyError>)
    requires ErrorsAre(init, errors)
    ensures ErrorsAre(init + [item], errors + NewErrors(item, |init|, IndexOf(init)))
  {
    forall e ensures e in errors + NewErrors(item, |init|, IndexOf(init)) <==> HasError(init + [item], e) {
      ErrorStep(init, item, e);
    }
  }

  /** The loop over the items; each is normalized as the loop reaches it, which changes nothing else. */
  method IndexItems(items: seq<Item>) returns (index: Index, errors: seq<PolicyError>)
    ensures index == IndexOf(items) && |errors| + |index| == |items| && ErrorsAre(items, errors)
  {
    index, errors := map[], [];
    for i := 0 to |items|
      invariant index == IndexOf(items[..i]) && |errors| + |index| == i
      invariant ErrorsAre(items[..i], errors)
    {
      var item := items[i];
      assert items[..i + 1] == items[..i] + [item];
      ErrorsStep(items[..i], item, errors);
      if item.Malformed? {
        errors := errors + [FaultAt(i, item.fault)];
        continue;
      }
      var key := KeyOf(item.value);
      if key in index {
        errors := errors + [DuplicateKey(item.value.advisory, item.value.package)];
        continue;
      }
      index := index[key := item.value];
      assert errors + [] == errors;
    }
    assert items[..|items|] == items;
  }

  /** Every item either enters the index or gives one error; the errors say which item is malformed and
      which key is repeated. */
  method IndexExceptions(raws: seq<RawItem>, isoDate: string -> Option<int>)
    returns (index: Index, errors: seq<PolicyError>)
    ensures index == IndexOf(Items(raws, isoDate))
    ensures |errors| + |index| == |raws|
    ensures ErrorsAre(Items(raws, isoDate), errors)
  {
    index, errors := IndexItems(Items(raws, isoDate));
  }

  // ---- Decisions ----

  function ExceptionFor(index: Index, f: Finding): Option<Exemption> {
    if (f.advisory, f.package) in index then Some(index[(f.advisory, f.package)]) else None
  }

  function StatusOf(index: Index, f: Finding, date: int): Status {
    if (f.advisory, f.package) !in index then NoException
    else if date <= index[(f.advisory, f.package)].expiresOn then Accepted
    else Expired
  }

  function Decide(severity: string, status: Status, mode: Mode, highEnforced: bool): (bool, Reason) {
    if severity == "CRITICAL" then (true, CriticalUnwaivable)
    else if severity != "HIGH" then (false, BelowThreshold)
    else if status.Accepted? then (false, AcceptedException)
    else if mode.Advisory? then (false, PullRequestAdvisory)
    else if !highEnforced then (false, BaselinePeriod)
    else (true, HighEnforced)
  }

  predicate Blocks(index: Index, f: Finding, mode: Mode, date: int, enforcementOn: int) {
    Decide(f.severity, StatusOf(index, f, date), mode, mode.ReleaseMode? && date >= enforcementOn).0
  }

  function CountBlocked(judged: seq<Judged>): nat {
    if judged == [] then 0
    else CountBlocked(judged[..|judged| - 1]) + (if judged[|judged| - 1].blocked then 1 else 0)
  }

  function CountAccepted(judged: seq<Judged>): nat {
    if judged == [] then 0
    else CountAccepted(judged[..|judged| - 1]) + (if judged[|judged| - 1].reason.AcceptedException? then 1 else 0)
  }

  lemma {:induction false} NothingBlocked(judged: seq<Judged>)
    ensures CountBlocked(judged) == 0 <==> forall i | 0 <= i < |judged| :: !judged[i].blocked
  {
    if judged != [] { NothingBlocked(judged[..|judged| - 1]); }
  }

  /** What the policy attaches to a finding. */
  ghost predicate IsJudged(j: Judged, f: Finding, index: Index, mode: Mode, date: int, highEnforced: bool) {
    && j.finding == f && j.status == StatusOf(index, f, date) && j.exception == ExceptionFor(index, f)
    && (j.blocked, j.reason) == Decide(f.severity, j.status, mode, highEnforced)
  }

  method ApplyPolicy(findings: seq<Finding>, index: Index, mode: Mode, date: int, highEnforced: bool)
    returns (blocking: nat, accepted: nat, judged: seq<Judged>)
    ensures |judged| == |findings|
    ensures forall i | 0 <= i < |findings| :: IsJudged(judged[i], findings[i], index, mode, date, highEnforced)
    ensures blocking == CountBlocked(judged) && accepted == CountAccepted(judged)
  {
    blocking, accepted, judged := 0, 0, [];
    for i := 0 to |findings|
      invariant |judged| == i
      invariant forall k | 0 <= k < i :: IsJudged(judged[k], findings[k], index, mode, date, highEnforced)
      invariant blocking == CountBlocked(judged) && accepted == CountAccepted(judged)
    {
      var status := StatusOf(index, findings[i], date);
      var (blocked, reason) := Decide(findings[i].severity, status, mode, highEnforced);
      if blocked { blocking := blocking + 1; }
      if reason.AcceptedException? { accepted := accepted + 1; }
      var one := Judged(findings[i], blocked, reason, status, ExceptionFor(index, findings[i]));
      judged := judged + [one];
    }
  }

  ghost predicate ScanPasses(items: seq<Item>, findings: seq<Finding>, mode: Mode, date: int, enforcementOn: int) {
    NoPolicyError(items) && forall f <- findings :: !Blocks(IndexOf(items), f, mode, date, enforcementOn)
  }

  // ---- The report ----

  /** By severity, then advisory, then package. */
  predicate FindingLe(f: Finding, g: Finding) {
    if f.severity != g.severity then TextLe(f.severity, g.severity)
    else if f.advisory != g.advisory then TextLe(f.advisory, g.advisory)
    else TextLe(f.package, g.package)
  }

  lemma FindingLeTransitive(f: Finding, g: Finding, h: Finding)
    requires FindingLe(f, g) && FindingLe(g, h)
    ensures FindingLe(f, h)
  {
    if TextLe(f.severity, g.severity) && TextLe(g.severity, h.severity) {
      TextLeTransitive(f.severity, g.severity, h.severity);
      if f.severity == h.severity { TextLeAntisymmetric(f.severity, g.severity); }
    }
    if TextLe(f.advisory, g.advisory) && TextLe(g.advisory, h.advisory) {
      TextLeTransitive(f.advisory, g.advisory, h.advisory);
      if f.advisory == h.advisory { TextLeAntisymmetric(f.advisory, g.advisory); }
    }
    if TextLe(f.package, g.package) && TextLe(g.package, h.package) {
      TextLeTransitive(f.package, g.package, h.package);
    }
  }

  lemma FindingLeIsTotalPreorder()
    ensures TotalPreorder(FindingLe)
  {
    forall f, g ensures FindingLe(f, g) || FindingLe(g, f) {
      TextLeTotal(f.severity, g.severity);
      TextLeTotal(f.advisory, g.advisory);
      TextLeTotal(f.package, g.package);
    }
    forall f, g, h | FindingLe(f, g) && FindingLe(g, h) ensures FindingLe(f, h) {
      FindingLeTransitive(f, g, h);
    }
  }

  datatype Report = Report(
    passed: bool, highEnforced: bool, blocking: nat, accepted: nat, errors: seq<PolicyError>, findings: seq<Judged>)

  function FindingsOf(judged: seq<Judged>): seq<Finding> {
    Map((j: Judged) => j.finding, judged)
  }

  /** The report lists every finding once, in order, with its decision; it passes exactly when the
      exception list has no error and nothing blocks. */
  method Evaluate(
    raws: seq<RawItem>, isoDate: string -> Option<int>, findings: seq<Finding>, mode: Mode, date: int,
    enforcementOn: int)
    returns (r: Report)
    ensures r.passed <==> ScanPasses(Items(raws, isoDate), findings, mode, date, enforcementOn)
    ensures ErrorsAre(Items(raws, isoDate), r.errors)
    ensures multiset(FindingsOf(r.findings)) == multiset(findings) && Sorted(FindingLe, FindingsOf(r.findings))
    ensures r.highEnforced <==> mode.ReleaseMode? && date >= enforcementOn
    ensures forall j <- r.findings ::
              IsJudged(j, j.finding, IndexOf(Items(raws, isoDate)), mode, date, r.highEnforced)
    ensures r.blocking == CountBlocked(r.findings) && r.accepted == CountAccepted(r.findings)
  {
    var index, errors := IndexExceptions(raws, isoDate);
    var sorted := Sort(FindingLe, findings);
    FindingLeIsTotalPreorder();
    SortSorts(FindingLe, findings);
    SortKeepsElements(FindingLe, findings);
    var highEnforced := mode.ReleaseMode? && date >= enforcementOn;
    var blocking, accepted, judged := ApplyPolicy(sorted, index, mode, date, highEnforced);
    assert FindingsOf(judged) == sorted;
    NothingBlocks(findings, judged, index, mode, date, enforcementOn);
    assert errors != [] ==> errors[0] in errors;
    r := Report(errors == [] && blocking == 0, highEnforced, blocking, accepted, errors, judged);
  }

  lemma NothingBlocks(
    findings: seq<Finding>, judged: seq<Judged>, index: Index, mode: Mode, date: int, enforcementOn: int)
    requires multiset(FindingsOf(judged)) == multiset(findings)
    requires forall j <- judged :: j.blocked <==> Blocks(index, j.finding, mode, date, enforcementOn)
    ensures CountBlocked(judged) == 0 <==> forall f <- findings :: !Blocks(index, f, mode, date, enforcementOn)
  {
    NothingBlocked(judged);
    forall i | 0 <= i < |judged| ensures judged[i].finding in findings {
      assert FindingsOf(judged)[i] in multiset(findings);
    }
    forall f <- findings ensures exists i :: 0 <= i < |judged| && judged[i].finding == f {
      assert f in multiset(FindingsOf(judged));
      var i :| 0 <= i < |FindingsOf(judged)| && FindingsOf(judged)[i] == f;
    }
  }

  // ---- What the policy guarantees ----

  /** The scan passes exactly when the exception list is sound, nothing is critical, and in an
      enforced release every high finding is covered by an exception that has not expired. */
  lemma ScanPassesExactly(items: seq<Item>, findings: seq<Finding>, mode: Mode, date: int, enforcementOn: int)
    ensures ScanPasses(items, findings, mode, date, enforcementOn)
            <==> && NoPolicyError(items)
                 && forall f <- findings ::
                      && f.severity != "CRITICAL"
                      && (f.severity == "HIGH" && mode.ReleaseMode? && date >= enforcementOn ==>
                            Covered(items, f, date))
  {
    if NoPolicyError(items) {
      forall f <- findings
        ensures StatusOf(IndexOf(items), f, date).Accepted? <==> Covered(items, f, date)
      {
        IndexValue(items, f, date);
      }
    }
  }

  ghost predicate Covered(items: seq<Item>, f: Finding, date: int) {
    exists i :: 0 <= i < |items| && HasKey(items[i], f.advisory, f.package) && date <= items[i].value.expiresOn
  }

  lemma CoveredStep(init: seq<Item>, last: Item, f: Finding, date: int)
    ensures Covered(init + [last], f, date) <==>
              Covered(init, f, date) || (HasKey(last, f.advisory, f.package) && date <= last.value.expiresOn)
  {
    var items := init + [last];
    assert forall i | 0 <= i < |init| :: init[i] == items[i];
    assert items[|init|] == last;
  }

  lemma NoErrorStep(init: seq<Item>, last: Item)
    requires NoPolicyError(init + [last])
    ensures NoPolicyError(init) && last.Exception? && KeyOf(last.value) !in IndexOf(init)
  {
    forall e ensures !HasError(init, e) { ErrorStep(init, last, e); }
    if last.Malformed? {
      ErrorStep(init, last, FaultAt(|init|, last.fault));
    } else {
      ErrorStep(init, last, DuplicateKey(last.value.advisory, last.value.package));
    }
  }

  lemma {:induction false} IndexValue(items: seq<Item>, f: Finding, date: int)
    requires NoPolicyError(items)
    ensures StatusOf(IndexOf(items), f, date).Accepted? <==> Covered(items, f, date)
  {
    if items != [] {
      var init, last := items[..|items| - 1], items[|items| - 1];
      assert items == init + [last];
      NoErrorStep(init, last);
      CoveredStep(init, last, f, date);
      IndexValue(init, f, date);
      IndexKeys(init, f.advisory, f.package);
    }
  }

  /** The findings that block. */
  ghost function Blocking(
    index: Index, findings: seq<Finding>, mode: Mode, date: int, enforcementOn: int): set<Finding>
  {
    set f | f in findings && Blocks(index, f, mode, date, enforcementOn)
  }

  /** Time only makes the policy stricter: what blocks keeps blocking, and a pass on a later date is
      a pass on every earlier one. */
  lemma LaterIsStricter(items: seq<Item>, findings: seq<Finding>, mode: Mode, early: int, late: int, enforcementOn: int)
    requires early <= late
    ensures Blocking(IndexOf(items), findings, mode, early, enforcementOn)
            <= Blocking(IndexOf(items), findings, mode, late, enforcementOn)
    ensures ScanPasses(items, findings, mode, late, enforcementOn)
            ==> ScanPasses(items, findings, mode, early, enforcementOn)
  {
  }

  /** A release blocks whatever a pull request blocks, and critical findings block in both. */
  lemma ReleaseIsStricter(items: seq<Item>, findings: seq<Finding>, date: int, enforcementOn: int)
    ensures (set f | f in findings && f.severity == "CRITICAL")
            == Blocking(IndexOf(items), findings, Advisory, date, enforcementOn)
    ensures Blocking(IndexOf(items), findings, Advisory, date, enforcementOn)
            <= Blocking(IndexOf(items), findings, ReleaseMode, date, enforcementOn)
    ensures ScanPasses(items, findings, ReleaseMode, date, enforcementOn)
            ==> ScanPasses(items, findings, Advisory, date, enforcementOn)
  {
  }

  // ---- The rules, spelled out ----

  /** A field is the part of its text between the blanks around it; there is none without a text or
      when only blanks are left. */
  lemma FieldExactly(values: map<FieldName, Option<string>>, name: FieldName) returns (i: nat, j: nat)
    ensures name !in values || values[name] == None ==> Field(values, name) == None
    ensures name in values && values[name] != None ==>
              var s := values[name].value;
              && i <= j <= |s| && (forall k | 0 <= k < i :: IsSpace(s[k])) && (forall k | j <= k < |s| :: IsSpace(s[k]))
              && (i < j ==> !IsSpace(s[i]) && !IsSpace(s[j - 1]))
              && Field(values, name) == if i < j then Some(s[i..j]) else None
  {
    i, j := 0, 0;
    if name in values && values[name].Some? {
      i, j := StripExactly(values[name].value);
    }
  }

  /** The missing fields are listed one by one, in the order in which they are required. */
  lemma {:induction false} MissingExactly(
    values: map<FieldName, Option<string>>, before: seq<FieldName>, after: seq<FieldName>)
    ensures Missing(values, before + after) == Missing(values, before) + Missing(values, after)
  {
    if before == [] {
      assert before + after == after;
    } else {
      MissingExactly(values, before[1..], after);
      TailOfConcat(before, after);
      Associative(Missing(values, before[..1]), Missing(values, before[1..]), Missing(values, after));
    }
  }

  lemma MissingOne(values: map<FieldName, Option<string>>, name: FieldName)
    ensures Missing(values, [name]) == if Field(values, name) == None then [name] else []
  {
  }

  /** The first item with that advisory and package. */
  ghost predicate FirstWith(items: seq<Item>, a: string, p: string, e: Exemption) {
    exists i :: && 0 <= i < |items| && items[i] == Exception(e) && e.advisory == a && e.package == p
                && forall k | 0 <= k < i && items[k].Exception? ::
                     items[k].value.advisory != a || items[k].value.package != p
  }

  lemma FirstWithStep(init: seq<Item>, last: Item, a: string, p: string, e: Exemption)
    ensures FirstWith(init + [last], a, p, e) <==>
              || FirstWith(init, a, p, e)
              || (last == Exception(e) && e.advisory == a && e.package == p
                  && !exists i :: 0 <= i < |init| && HasKey(init[i], a, p))
  {
    var items := init + [last];
    assert items[|init|] == last && forall k | 0 <= k < |init| :: items[k] == init[k];
  }

  /** The index holds the first exception of each advisory and package. */
  lemma {:induction false} IndexExactly(items: seq<Item>, a: string, p: string, e: Exemption)
    ensures (a, p) in IndexOf(items) && IndexOf(items)[(a, p)] == e <==> FirstWith(items, a, p, e)
  {
    if items != [] {
      var init, last := items[..|items| - 1], items[|items| - 1];
      assert items == init + [last];
      IndexExactly(init, a, p, e);
      IndexKeys(init, a, p);
      FirstWithStep(init, last, a, p, e);
    }
  }

  /** What is attached to a finding, by the exception list itself. */
  lemma JudgedExactly(j: Judged, f: Finding, items: seq<Item>, mode: Mode, date: int, highEnforced: bool)
    requires IsJudged(j, f, IndexOf(items), mode, date, highEnforced)
    ensures j.finding == f && forall e :: j.exception == Some(e) <==> FirstWith(items, f.advisory, f.package, e)
    ensures j.status
            == match j.exception
               case None => NoException
               case Some(e) => if e.expiresOn >= date then Accepted else Expired
    ensures j.blocked <==>
              || f.severity == "CRITICAL"
              || (f.severity == "HIGH" && j.status != Accepted && mode == ReleaseMode && highEnforced)
    ensures j.reason == AcceptedException <==> f.severity == "HIGH" && j.status == Accepted
    ensures j.reason == CriticalUnwaivable <==> f.severity == "CRITICAL"
    ensures j.reason == BelowThreshold <==> f.severity !in {"CRITICAL", "HIGH"}
    ensures j.reason == PullRequestAdvisory <==> f.severity == "HIGH" && j.status != Accepted && mode == Advisory
    ensures j.reason == BaselinePeriod
            <==> f.severity == "HIGH" && j.status != Accepted && mode == ReleaseMode && !highEnforced
    ensures j.reason == HighEnforced
            <==> f.severity == "HIGH" && j.status != Accepted && mode == ReleaseMode && highEnforced
  {
    forall e ensures j.exception == Some(e) <==> FirstWith(items, f.advisory, f.package, e) {
      IndexExactly(items, f.advisory, f.package, e);
    }
  }

  lemma {:induction false} CountsTo(judged: seq<Judged>, n: nat)
    requires n <= |judged|
    ensures CountBlocked(judged[..n]) == |Where((j: Judged) => j.blocked, judged, n)|
    ensures CountAccepted(judged[..n]) == |Where((j: Judged) => j.reason == AcceptedException, judged, n)|
  {
    if n > 0 {
      CountsTo(judged, n - 1);
      PrefixStep(judged, n - 1);
      WhereStep((j: Judged) => j.blocked, judged, n - 1);
      WhereStep((j: Judged) => j.reason == AcceptedException, judged, n - 1);
    }
  }

  /** The counts are the numbers of blocked findings and of accepted exceptions. */
  lemma CountsExactly(judged: seq<Judged>)
    ensures CountBlocked(judged) == |Where((j: Judged) => j.blocked, judged, |judged|)|
    ensures CountAccepted(judged) == |Where((j: Judged) => j.reason == AcceptedException, judged, |judged|)|
  {
    CountsTo(judged, |judged|);
    assert judged[..|judged|] == judged;
  }

  /** The first of severity, advisory and package in which they differ decides. */
  ghost predicate Decides(a: seq<string>, b: seq<string>, i: nat)
    requires |a| == |b|
  {
    i < |a| && (forall k | 0 <= k < i :: a[k] == b[k]) && a[i] != b[i]
  }

  lemma OrderExactly(f: Finding, g: Finding)
    ensures var a, b := [f.severity, f.advisory, f.package], [g.severity, g.advisory, g.package];
            && (a == b ==> FindingLe(f, g))
            && forall i: nat | Decides(a, b, i) :: FindingLe(f, g) <==> TextLe(a[i], b[i])
  {
    var a, b := [f.severity, f.advisory, f.package], [g.severity, g.advisory, g.package];
    TextLeTotal(f.package, f.package);
    assert a == b ==> a[0] == b[0] && a[1] == b[1] && a[2] == b[2];
    forall i: nat | Decides(a, b, i) ensures FindingLe(f, g) <==> TextLe(a[i], b[i]) {
      assert (i > 0 ==> a[0] == b[0]) && (i > 1 ==> a[1] == b[1]);
    }
  }
}

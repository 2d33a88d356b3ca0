/** The critical-runtime coverage audit: dated floors and dated source-line exclusions. */
module Coverage {
  import opened Wrappers

  datatype ModulePolicy = ModulePolicy(path: string, minimum: real)

  datatype FloorException = FloorException(path: string, minimum: real, expiresOn: int)

  datatype Exclusion = Exclusion(path: string, line: nat, expiresOn: int)

  datatype Policy = Policy(modules: seq<ModulePolicy>, exceptions: seq<FloorException>, exclusions: seq<Exclusion>)

  /** A coverage summary as it was decoded; the percentage may be left out. */
  datatype Summary = Unreadable | Summary(covered: int, statements: int, percent: Option<real>)

  /** The parts of the coverage configuration that could hide code. */
  datatype Configuration = Configuration(omit: seq<string>, excludeLines: bool, excludeAlso: bool)

  /** The pragma lines of every source file that exists, the coverage summaries, the configuration, and
      which omit pattern matches which path. */
  datatype Evidence = Evidence(
    pragmas: map<string, set<nat>>, summaries: map<string, Summary>, configuration: Configuration,
    matches: (string, string) -> bool)

  datatype Setting = ExcludeLines | ExcludeAlso

  datatype Violation =
    | OmittedModule(path: string, pattern: string) | GlobalExclusion(setting: Setting)
    | ExpiredExclusion(path: string, line: nat) | MissingSource(path: string)
    | UnapprovedExclusion(path: string, line: nat) | StaleExclusion(path: string, line: nat)
    | ExpiredException(path: string) | MissingCoverage(path: string) | InvalidCoverage(path: string)
    | BelowFloor(path: string)

  // ---- Configuration ----

  function PatternViolations(path: string, patterns: seq<string>, matches: (string, string) -> bool): seq<Violation> {
    if patterns == [] then []
    else
      (if matches(patterns[0], path) then [OmittedModule(path, patterns[0])] else [])
      + PatternViolations(path, patterns[1..], matches)
  }

  function OmitViolations(
    modules: seq<ModulePolicy>, patterns: seq<string>, matches: (string, string) -> bool): seq<Violation>
  {
    if modules == [] then []
    else PatternViolations(modules[0].path, patterns, matches) + OmitViolations(modules[1..], patterns, matches)
  }

  function ConfigurationViolations(policy: Policy, e: Evidence): seq<Violation> {
    OmitViolations(policy.modules, e.configuration.omit, e.matches)
    + (if e.configuration.excludeLines then [GlobalExclusion(ExcludeLines)] else [])
    + (if e.configuration.excludeAlso then [GlobalExclusion(ExcludeAlso)] else [])
  }

  ghost predicate ConfigurationReports(policy: Policy, e: Evidence, v: Violation) {
    match v
    case OmittedModule(path, pattern) =>
      HasModule(policy.modules, path) && pattern in e.configuration.omit && e.matches(pattern, path)
    case GlobalExclusion(ExcludeLines) => e.configuration.excludeLines
    case GlobalExclusion(ExcludeAlso) => e.configuration.excludeAlso
    case _ => false
  }

  lemma {:induction false} PatternMembers(
    path: string, patterns: seq<string>, matches: (string, string) -> bool, v: Violation)
    ensures v in PatternViolations(path, patterns, matches)
            <==> v.OmittedModule? && v.path == path && v.pattern in patterns && matches(v.pattern, path)
  {
    if patterns != [] { PatternMembers(path, patterns[1..], matches, v); }
  }

  lemma {:induction false} OmitMembers(
    modules: seq<ModulePolicy>, patterns: seq<string>, matches: (string, string) -> bool, v: Violation)
    ensures v in OmitViolations(modules, patterns, matches)
            <==> v.OmittedModule? && HasModule(modules, v.path) && v.pattern in patterns && matches(v.pattern, v.path)
  {
    if modules != [] {
      PatternMembers(modules[0].path, patterns, matches, v);
      OmitMembers(modules[1..], patterns, matches, v);
      assert forall m :: m in modules <==> m == modules[0] || m in modules[1..];
    }
  }

  /** The configuration hides exactly what is reported. */
  lemma ConfigurationExactly(policy: Policy, e: Evidence)
    ensures forall v :: v in ConfigurationViolations(policy, e) <==> ConfigurationReports(policy, e, v)
  {
    forall v ensures v in ConfigurationViolations(policy, e) <==> ConfigurationReports(policy, e, v) {
      OmitMembers(policy.modules, e.configuration.omit, e.matches, v);
    }
  }

  // ---- Exclusions ----

  function KeyOf(e: Exclusion): (string, nat) {
    (e.path, e.line)
  }

  function Allowed(exclusions: seq<Exclusion>): set<(string, nat)> {
    set e | e in exclusions :: KeyOf(e)
  }

  /** The allowed lines that have not expired. */
  function Active(exclusions: seq<Exclusion>, today: int): set<(string, nat)> {
    set e | e in exclusions && today <= e.expiresOn :: KeyOf(e)
  }

  ghost predicate Expired(exclusions: seq<Exclusion>, today: int, key: (string, nat)) {
    exists e <- exclusions :: KeyOf(e) == key && e.expiresOn < today
  }

  ghost predicate NoneExpired(exclusions: seq<Exclusion>, today: int) {
    forall e <- exclusions :: today <= e.expiresOn
  }

  function Lines(path: string, pragmas: map<string, set<nat>>): set<(string, nat)> {
    if path in pragmas then set l | l in pragmas[path] :: (path, l) else {}
  }

  /** The pragma lines of the critical modules. */
  ghost function Observed(modules: seq<ModulePolicy>, pragmas: map<string, set<nat>>): set<(string, nat)> {
    if modules == [] then {}
    else Observed(modules[..|modules| - 1], pragmas) + Lines(modules[|modules| - 1].path, pragmas)
  }

  ghost predicate HasModule(modules: seq<ModulePolicy>, path: string) {
    exists m <- modules :: m.path == path
  }

  ghost predicate AllPresent(modules: seq<ModulePolicy>, pragmas: map<string, set<nat>>) {
    forall m <- modules :: m.path in pragmas
  }

  ghost predicate SourceReports(
    modules: seq<ModulePolicy>, pragmas: map<string, set<nat>>, active: set<(string, nat)>, v: Violation)
  {
    match v
    case MissingSource(p) => p !in pragmas && HasModule(modules, p)
    case UnapprovedExclusion(p, l) => (p, l) in Observed(modules, pragmas) && (p, l) !in active
    case _ => false
  }

  /** Which exclusion violations there are. */
  ghost predicate ExclusionReports(policy: Policy, pragmas: map<string, set<nat>>, today: int, v: Violation) {
    match v
    case ExpiredExclusion(p, l) => Expired(policy.exclusions, today, (p, l))
    case StaleExclusion(p, l) =>
      (p, l) in Active(policy.exclusions, today) && (p, l) !in Observed(policy.modules, pragmas)
    case _ => SourceReports(policy.modules, pragmas, Active(policy.exclusions, today), v)
  }

  method ActiveExclusions(exclusions: seq<Exclusion>, today: int)
    returns (active: set<(string, nat)>, violations: seq<Violation>)
    ensures active == Active(exclusions, today)
    ensures violations == [] <==> NoneExpired(exclusions, today)
    ensures forall v :: v in violations <==> v.ExpiredExclusion? && Expired(exclusions, today, (v.path, v.line))
  {
    active, violations := {}, [];
    for i := 0 to |exclusions|
      invariant active == Active(exclusions[..i], today)
      invariant violations == [] <==> NoneExpired(exclusions[..i], today)
      invariant forall v :: v in violations <==>
                  v.ExpiredExclusion? && Expired(exclusions[..i], today, (v.path, v.line))
    {
      var e := exclusions[i];
      assert exclusions[..i + 1] == exclusions[..i] + [e];
      if e.expiresOn < today {
        violations := violations + [ExpiredExclusion(e.path, e.line)];
      } else {
        active := active + {(e.path, e.line)};
      }
    }
    assert exclusions[..|exclusions|] == exclusions;
  }

  /** The unapproved lines of one file, one violation a line. */
  method CheckLines(path: string, lines: set<nat>, active: set<(string, nat)>) returns (violations: seq<Violation>)
    ensures violations == [] <==> forall l <- lines :: (path, l) in active
    ensures forall v :: v in violations <==>
              v.UnapprovedExclusion? && v.path == path && v.line in lines && (path, v.line) !in active
  {
    violations := [];
    var todo := lines;
    while todo != {}
      invariant todo <= lines
      invariant violations == [] <==> forall l <- lines - todo :: (path, l) in active
      invariant forall v :: v in violations <==>
                  v.UnapprovedExclusion? && v.path == path && v.line in lines - todo && (path, v.line) !in active
      decreases todo
    {
      var l :| l in todo;
      ghost var done := lines - todo;
      todo := todo - {l};
      assert lines - todo == done + {l};
      if (path, l) !in active {
        violations := violations + [UnapprovedExclusion(path, l)];
      }
    }
    assert lines - {} == lines;
  }

  method CheckSources(modules: seq<ModulePolicy>, pragmas: map<string, set<nat>>, active: set<(string, nat)>)
    returns (observed: set<(string, nat)>, violations: seq<Violation>)
    ensures observed == Observed(modules, pragmas)
    ensures violations == [] <==> AllPresent(modules, pragmas) && Observed(modules, pragmas) <= active
    ensures forall v :: v in violations <==> SourceReports(modules, pragmas, active, v)
  {
    observed, violations := {}, [];
    for i := 0 to |modules|
      invariant observed == Observed(modules[..i], pragmas)
      invariant violations == [] <==> AllPresent(modules[..i], pragmas) && observed <= active
      invariant forall v :: v in violations <==> SourceReports(modules[..i], pragmas, active, v)
    {
      var path := modules[i].path;
      assert modules[..i + 1] == modules[..i] + [modules[i]];
      SourceStep(modules[..i], modules[i], pragmas, active);
      if path !in pragmas {
        violations := violations + [MissingSource(path)];
        continue;
      }
      var more := CheckLines(path, pragmas[path], active);
      observed := observed + Lines(path, pragmas);
      violations := violations + more;
    }
    assert modules[..|modules|] == modules;
  }

  lemma SourceStep(init: seq<ModulePolicy>, m: ModulePolicy, pragmas: map<string, set<nat>>, active: set<(string, nat)>)
    ensures Observed(init + [m], pragmas) == Observed(init, pragmas) + Lines(m.path, pragmas)
    ensures AllPresent(init + [m], pragmas) <==> AllPresent(init, pragmas) && m.path in pragmas
    ensures forall v :: SourceReports(init + [m], pragmas, active, v) <==>
              || SourceReports(init, pragmas, active, v)
              || (v == MissingSource(m.path) && m.path !in pragmas)
              || (v.UnapprovedExclusion? && (v.path, v.line) in Lines(m.path, pragmas) && (v.path, v.line) !in active)
  {
  }

  ghost predicate ExclusionsHold(policy: Policy, pragmas: map<string, set<nat>>, today: int) {
    && AllPresent(policy.modules, pragmas) && NoneExpired(policy.exclusions, today)
    && Observed(policy.modules, pragmas) == Allowed(policy.exclusions)
  }

  method AuditSourceExclusions(policy: Policy, pragmas: map<string, set<nat>>, today: int)
    returns (violations: seq<Violation>)
    ensures forall v :: v in violations <==> ExclusionReports(policy, pragmas, today, v)
  {
    var active, expired := ActiveExclusions(policy.exclusions, today);
    var observed, unapproved := CheckSources(policy.modules, pragmas, active);
    var stale := StaleViolations(active - observed);
    violations := expired + unapproved + stale;
  }

  /** There is no exclusion violation exactly when every source exists, nothing has expired, and the
      observed pragma lines are the allowed ones. */
  lemma ExclusionsHoldExactly(policy: Policy, pragmas: map<string, set<nat>>, today: int)
    ensures ExclusionsHold(policy, pragmas, today) <==> forall v :: !ExclusionReports(policy, pragmas, today, v)
  {
    if forall v :: !ExclusionReports(policy, pragmas, today, v) {
      NoExclusionReports(policy, pragmas, today);
    }
  }

  lemma NoExclusionReports(policy: Policy, pragmas: map<string, set<nat>>, today: int)
    requires forall v :: !ExclusionReports(policy, pragmas, today, v)
    ensures AllPresent(policy.modules, pragmas) && NoneExpired(policy.exclusions, today)
    ensures Observed(policy.modules, pragmas) == Active(policy.exclusions, today)
  {
    forall e <- policy.exclusions ensures today <= e.expiresOn {
      assert !ExclusionReports(policy, pragmas, today, ExpiredExclusion(e.path, e.line));
    }
    forall m <- policy.modules ensures m.path in pragmas {
      assert !ExclusionReports(policy, pragmas, today, MissingSource(m.path));
    }
    forall key: (string, nat)
      ensures key in Observed(policy.modules, pragmas) <==> key in Active(policy.exclusions, today)
    {
      assert !ExclusionReports(policy, pragmas, today, UnapprovedExclusion(key.0, key.1));
      assert !ExclusionReports(policy, pragmas, today, StaleExclusion(key.0, key.1));
    }
  }

  method StaleViolations(keys: set<(string, nat)>) returns (violations: seq<Violation>)
    ensures |violations| == |keys|
    ensures forall v :: v in violations <==> v.StaleExclusion? && (v.path, v.line) in keys
  {
    violations := [];
    var todo := keys;
    while todo != {}
      invariant todo <= keys && |violations| + |todo| == |keys|
      invariant forall v :: v in violations <==> v.StaleExclusion? && (v.path, v.line) in keys - todo
      decreases todo
    {
      var key :| key in todo;
      todo := todo - {key};
      violations := violations + [StaleExclusion(key.0, key.1)];
    }
    assert keys - {} == keys;
  }

  // ---- Floors ----

  function ExceptionFor(exceptions: seq<FloorException>, path: string): Option<FloorException> {
    if exceptions == [] then None
    else if exceptions[0].path == path then Some(exceptions[0])
    else ExceptionFor(exceptions[1..], path)
  }

  /** The module's exception while it is in force. */
  function ActiveException(policy: Policy, path: string, today: int): Option<FloorException> {
    var exception := ExceptionFor(policy.exceptions, path);
    if exception.Some? && exception.value.expiresOn < today then None else exception
  }

  function Floor(policy: Policy, m: ModulePolicy, today: int): real {
    var exception := ActiveException(policy, m.path, today);
    if exception.Some? then exception.value.minimum else m.minimum
  }

  datatype Numbers = Numbers(covered: int, statements: int, percent: real)

  /** `_summary_numbers`: without statements there is no coverage to speak of. */
  function ReadSummary(summary: Summary): Option<Numbers> {
    if summary.Unreadable? || summary.statements <= 0 then None
    else
      var percent := if summary.percent.Some? then summary.percent.value
                     else summary.covered as real * 100.0 / summary.statements as real;
      Some(Numbers(summary.covered, summary.statements, percent))
  }

  /** A summary that cannot be read counts as no coverage. */
  function Measured(summary: Summary): Numbers {
    var numbers := ReadSummary(summary);
    if numbers.Some? then numbers.value else Numbers(0, 0, 0.0)
  }

  datatype RowStatus = Passing | ExceptionApproved | Failing

  datatype Row = Row(
    path: string, numbers: Numbers, missing: nat, baseline: real, required: real, status: RowStatus,
    exception: Option<FloorException>)

  /** A result row only holds numbers that make sense; others make the audit raise. */
  predicate ValidNumbers(numbers: Numbers, round6: real -> real) {
    numbers.covered >= 0 && numbers.statements >= 0 && 0.0 <= round6(numbers.percent) <= 100.0
  }

  function NumbersOf(m: ModulePolicy, summaries: map<string, Summary>): Numbers {
    if m.path in summaries then Measured(summaries[m.path]) else Numbers(0, 0, 0.0)
  }

  predicate RowIsValid(m: ModulePolicy, summaries: map<string, Summary>, round6: real -> real) {
    m.path in summaries ==> ValidNumbers(NumbersOf(m, summaries), round6)
  }

  /** The module's exception, if any, is in force, and the coverage reaches the resulting floor. */
  ghost predicate ModuleHolds(policy: Policy, m: ModulePolicy, summaries: map<string, Summary>, today: int) {
    var exception := ExceptionFor(policy.exceptions, m.path);
    && (exception.Some? ==> today <= exception.value.expiresOn)
    && m.path in summaries && ReadSummary(summaries[m.path]).Some?
    && Measured(summaries[m.path]).percent >= if exception.Some? then exception.value.minimum else m.minimum
  }

  ghost predicate ModuleReports(
    policy: Policy, m: ModulePolicy, summaries: map<string, Summary>, today: int, v: Violation)
  {
    match v
    case ExpiredException(p) =>
      && p == m.path && ExceptionFor(policy.exceptions, p).Some?
      && ExceptionFor(policy.exceptions, p).value.expiresOn < today
    case MissingCoverage(p) => p == m.path && p !in summaries
    case InvalidCoverage(p) => p == m.path && p in summaries && ReadSummary(summaries[p]).None?
    case BelowFloor(p) => p == m.path && p in summaries && Measured(summaries[p]).percent < Floor(policy, m, today)
    case _ => false
  }

  /** What a result row tells its reader. */
  ghost predicate Describes(row: Row, policy: Policy, m: ModulePolicy, summaries: map<string, Summary>, today: int) {
    && row.path == m.path && row.numbers == NumbersOf(m, summaries)
    && row.missing
       == (if row.numbers.statements > row.numbers.covered then row.numbers.statements - row.numbers.covered else 0)
    && row.baseline == m.minimum && row.required == Floor(policy, m, today)
    && row.exception == ActiveException(policy, m.path, today)
    && (row.status.Failing? <==>
          || ModuleReports(policy, m, summaries, today, MissingCoverage(m.path))
          || ModuleReports(policy, m, summaries, today, BelowFloor(m.path)))
    && (row.status.ExceptionApproved? <==>
          && !row.status.Failing? && row.exception.Some? && row.required < row.baseline)
  }

  /** Reports exactly the broken rules of one module and describes it; `None` for numbers no row holds. */
  method CheckModule(policy: Policy, m: ModulePolicy, summaries: map<string, Summary>, today: int, round6: real -> real)
    returns (violations: seq<Violation>, row: Option<Row>)
    ensures forall v :: v in violations <==> ModuleReports(policy, m, summaries, today, v)
    ensures row.Some? <==> RowIsValid(m, summaries, round6)
    ensures row.Some? ==> Describes(row.value, policy, m, summaries, today)
  {
    violations := [];
    var exception := ExceptionFor(policy.exceptions, m.path);
    if exception.Some? && exception.value.expiresOn < today {
      violations := violations + [ExpiredException(m.path)];
      exception := None;
    }
    var required := if exception.Some? then exception.value.minimum else m.minimum;
    if m.path !in summaries {
      violations := violations + [MissingCoverage(m.path)];
      row := Some(Row(m.path, Numbers(0, 0, 0.0), 0, m.minimum, required, Failing, exception));
      return;
    }
    var numbers := Numbers(0, 0, 0.0);
    var read := ReadSummary(summaries[m.path]);
    if read.None? {
      violations := violations + [InvalidCoverage(m.path)];
    } else {
      numbers := read.value;
    }
    var belowFloor := numbers.percent < required;
    if belowFloor {
      violations := violations + [BelowFloor(m.path)];
    }
    var status :=
      if belowFloor then Failing
      else if exception.Some? && required < m.minimum then ExceptionApproved
      else Passing;
    var missing := if numbers.statements > numbers.covered then numbers.statements - numbers.covered else 0;
    row :=
      if ValidNumbers(numbers, round6) then Some(Row(m.path, numbers, missing, m.minimum, required, status, exception))
      else None;
  }

  lemma ModuleHoldsExactly(policy: Policy, m: ModulePolicy, summaries: map<string, Summary>, today: int)
    ensures ModuleHolds(policy, m, summaries, today) <==> forall v :: !ModuleReports(policy, m, summaries, today, v)
  {
    if forall v :: !ModuleReports(policy, m, summaries, today, v) {
      assert !ModuleReports(policy, m, summaries, today, ExpiredException(m.path));
      assert !ModuleReports(policy, m, summaries, today, MissingCoverage(m.path));
      assert !ModuleReports(policy, m, summaries, today, InvalidCoverage(m.path));
      assert !ModuleReports(policy, m, summaries, today, BelowFloor(m.path));
    }
  }

  // ---- The audit ----

  ghost predicate AllRowsValid(policy: Policy, e: Evidence, round6: real -> real) {
    forall m <- policy.modules :: RowIsValid(m, e.summaries, round6)
  }

  /** Nothing is hidden, the exclusions are exact, and every module meets its floor. */
  ghost predicate AuditHolds(policy: Policy, e: Evidence, today: int) {
    && (forall v :: !ConfigurationReports(policy, e, v)) && ExclusionsHold(policy, e.pragmas, today)
    && forall i | 0 <= i < |policy.modules| :: ModuleHolds(policy, policy.modules[i], e.summaries, today)
  }

  ghost predicate Reported(policy: Policy, e: Evidence, today: int, n: nat, v: Violation)
    requires n <= |policy.modules|
  {
    || ConfigurationReports(policy, e, v)
    || ExclusionReports(policy, e.pragmas, today, v)
    || exists k | 0 <= k < n :: ModuleReports(policy, policy.modules[k], e.summaries, today, v)
  }

  /** The audit is silent exactly when its meaning holds. */
  lemma AuditHoldsExactly(policy: Policy, e: Evidence, today: int)
    ensures AuditHolds(policy, e, today) <==> forall v :: !Reported(policy, e, today, |policy.modules|, v)
  {
    ExclusionsHoldExactly(policy, e.pragmas, today);
    forall k | 0 <= k < |policy.modules|
      ensures ModuleHolds(policy, policy.modules[k], e.summaries, today)
              <==> forall v :: !ModuleReports(policy, policy.modules[k], e.summaries, today, v)
    {
      ModuleHoldsExactly(policy, policy.modules[k], e.summaries, today);
    }
    if forall v :: !Reported(policy, e, today, |policy.modules|, v) {
      forall v ensures !ConfigurationReports(policy, e, v) && !ExclusionReports(policy, e.pragmas, today, v) {
        assert !Reported(policy, e, today, |policy.modules|, v);
      }
      forall k, v | 0 <= k < |policy.modules| ensures !ModuleReports(policy, policy.modules[k], e.summaries, today, v) {
        assert !Reported(policy, e, today, |policy.modules|, v);
      }
    }
  }

  datatype Audit = Audit(passed: bool, rows: seq<Row>, violations: seq<Violation>)

  /** The audit raises exactly when some module has numbers that no row holds.  Otherwise it reports
      exactly the broken rules, describes every module, and passes exactly when its meaning holds. */
  method AuditCriticalCoverage(policy: Policy, e: Evidence, today: int, round6: real -> real) returns (r: Option<Audit>)
    ensures r.Some? <==> AllRowsValid(policy, e, round6)
    ensures r.Some? ==>
              && (r.value.passed <==> AuditHolds(policy, e, today))
              && (r.value.passed <==> r.value.violations == [])
              && (forall v :: v in r.value.violations <==> Reported(policy, e, today, |policy.modules|, v))
    ensures r.Some? ==>
              && |r.value.rows| == |policy.modules|
              && forall i | 0 <= i < |policy.modules| ::
                   Describes(r.value.rows[i], policy, policy.modules[i], e.summaries, today)
  {
    var violations := ConfigurationViolations(policy, e);
    ConfigurationExactly(policy, e);
    var exclusions := AuditSourceExclusions(policy, e.pragmas, today);
    violations := violations + exclusions;
    var rows: seq<Row> := [];
    for i := 0 to |policy.modules|
      invariant forall v :: v in violations <==> Reported(policy, e, today, i, v)
      invariant |rows| == i && forall k | 0 <= k < i :: RowIsValid(policy.modules[k], e.summaries, round6)
      invariant forall k | 0 <= k < i :: Describes(rows[k], policy, policy.modules[k], e.summaries, today)
    {
      var more, row := CheckModule(policy, policy.modules[i], e.summaries, today, round6);
      violations := violations + more;
      if row.None? {
        assert policy.modules[i] in policy.modules;
        return None;
      }
      rows := rows + [row.value];
    }
    AuditHoldsExactly(policy, e, today);
    assert violations != [] ==> violations[0] in violations;
    return Some(Audit(violations == [], rows, violations));
  }

  /** Time only makes the audit stricter, even when an exception raises a floor. */
  lemma LaterIsStricter(policy: Policy, e: Evidence, early: int, late: int)
    requires early <= late && AuditHolds(policy, e, late)
    ensures AuditHolds(policy, e, early)
  {
  }

  // ---- The rules, spelled out ----

  /** The first exception of the path. */
  ghost predicate FirstFor(exceptions: seq<FloorException>, path: string, e: FloorException) {
    exists i :: && 0 <= i < |exceptions| && exceptions[i] == e && e.path == path
                && forall k | 0 <= k < i :: exceptions[k].path != path
  }

  lemma {:induction false} ExceptionExactly(exceptions: seq<FloorException>, path: string, e: FloorException)
    ensures ExceptionFor(exceptions, path) == Some(e) <==> FirstFor(exceptions, path, e)
    ensures ExceptionFor(exceptions, path).None? <==> forall k | 0 <= k < |exceptions| :: exceptions[k].path != path
  {
    if exceptions != [] && exceptions[0].path != path {
      var rest := exceptions[1..];
      ExceptionExactly(rest, path, e);
      assert forall k | 0 <= k < |rest| :: rest[k] == exceptions[k + 1];
      if FirstFor(rest, path, e) {
        var i :| && 0 <= i < |rest| && rest[i] == e && e.path == path
                 && forall k | 0 <= k < i :: rest[k].path != path;
        assert exceptions[i + 1] == e && forall k | 0 < k < i + 1 :: exceptions[k] == rest[k - 1];
      }
      if FirstFor(exceptions, path, e) {
        var i :| && 0 <= i < |exceptions| && exceptions[i] == e && e.path == path
                 && forall k | 0 <= k < i :: exceptions[k].path != path;
        assert rest[i - 1] == e;
      }
    }
  }

  /** A summary gives numbers when it is readable and has statements; a percentage left out is the covered share. */
  lemma NumbersExactly(summary: Summary)
    ensures ReadSummary(summary).Some? <==> summary != Unreadable && summary.statements > 0
    ensures ReadSummary(summary).Some? ==>
              var n := ReadSummary(summary).value;
              && n.covered == summary.covered && n.statements == summary.statements
              && match summary.percent
                 case Some(percent) => n.percent == percent
                 case None => n.percent * n.statements as real == 100.0 * n.covered as real
  {
  }

  /** A line is observed when a module listed in the policy has a pragma there. */
  lemma {:induction false} ObservedExactly(
    modules: seq<ModulePolicy>, pragmas: map<string, set<nat>>, p: string, l: nat)
    ensures (p, l) in Observed(modules, pragmas)
            <==> p in pragmas && l in pragmas[p] && exists m <- modules :: m.path == p
  {
    if modules != [] {
      var init, last := modules[..|modules| - 1], modules[|modules| - 1];
      ObservedExactly(init, pragmas, p, l);
      assert forall m :: m in modules <==> m in init || m == last;
    }
  }

  /** A line is allowed while some entry for it has not expired. */
  lemma ActiveLinesExactly(exclusions: seq<Exclusion>, today: int, p: string, l: nat)
    ensures (p, l) in Active(exclusions, today)
            <==> exists e <- exclusions :: e.path == p && e.line == l && today <= e.expiresOn
    ensures Expired(exclusions, today, (p, l))
            <==> exists e <- exclusions :: e.path == p && e.line == l && e.expiresOn < today
  {
  }

  /** The floor in force is that of the first exception of the path while it has not expired, and
      the module's own otherwise. */
  ghost predicate InForce(policy: Policy, m: ModulePolicy, today: int, e: FloorException) {
    FirstFor(policy.exceptions, m.path, e) && today <= e.expiresOn
  }

  lemma FloorExactly(policy: Policy, m: ModulePolicy, today: int)
    ensures forall e :: ActiveException(policy, m.path, today) == Some(e) <==> InForce(policy, m, today, e)
    ensures forall e | InForce(policy, m, today, e) :: Floor(policy, m, today) == e.minimum
    ensures (forall e :: !InForce(policy, m, today, e)) ==> Floor(policy, m, today) == m.minimum
  {
    forall e ensures ActiveException(policy, m.path, today) == Some(e) <==> InForce(policy, m, today, e) {
      ExceptionExactly(policy.exceptions, m.path, e);
    }
  }

  /** The summary reaches the floor: by its own percentage, or without one by the covered share. */
  ghost predicate Reaches(summary: Summary, floor: real) {
    && summary.Summary? && summary.statements > 0
    && match summary.percent
       case Some(percent) => percent >= floor
       case None => 100.0 * summary.covered as real >= floor * summary.statements as real
  }

  lemma Quotient(a: real, n: real, q: real, floor: real)
    requires n > 0.0 && q * n == a
    ensures q >= floor <==> a >= floor * n
  {
    if q >= floor { assert q * n >= floor * n; } else { assert q * n < floor * n; }
  }

  lemma ReachesExactly(summary: Summary, floor: real)
    ensures Reaches(summary, floor) <==> ReadSummary(summary).Some? && Measured(summary).percent >= floor
  {
    NumbersExactly(summary);
    if ReadSummary(summary).Some? && summary.percent.None? {
      var n := ReadSummary(summary).value;
      Quotient(100.0 * n.covered as real, n.statements as real, n.percent, floor);
    }
  }

  /** The module has a summary that reaches the floor of its first exception, which has not expired,
      or its own floor when there is no exception for it. */
  ghost predicate MeetsFloor(policy: Policy, m: ModulePolicy, summaries: map<string, Summary>, today: int) {
    && m.path in summaries
    && (forall e | FirstFor(policy.exceptions, m.path, e) ::
          today <= e.expiresOn && Reaches(summaries[m.path], e.minimum))
    && ((forall e <- policy.exceptions :: e.path != m.path) ==> Reaches(summaries[m.path], m.minimum))
  }

  lemma MeetsExactly(policy: Policy, m: ModulePolicy, summaries: map<string, Summary>, today: int)
    ensures ModuleHolds(policy, m, summaries, today) <==> MeetsFloor(policy, m, summaries, today)
  {
    forall e ensures ExceptionFor(policy.exceptions, m.path) == Some(e) <==> FirstFor(policy.exceptions, m.path, e) {
      ExceptionExactly(policy.exceptions, m.path, e);
    }
    ExceptionExactly(policy.exceptions, m.path, FloorException(m.path, 0.0, 0));
    if m.path in summaries {
      var summary := summaries[m.path];
      forall floor ensures Reaches(summary, floor)
        <==> ReadSummary(summary).Some? && Measured(summary).percent >= floor {
        ReachesExactly(summary, floor);
      }
    }
  }

  /** No omit pattern matches a module, and no line is excluded everywhere. */
  ghost predicate NothingHidden(policy: Policy, e: Evidence) {
    && !e.configuration.excludeLines && !e.configuration.excludeAlso
    && forall m <- policy.modules, pattern <- e.configuration.omit :: !e.matches(pattern, m.path)
  }

  /** Every module has its source, each pragma in it is allowed, each allowed line is a pragma of a
      module, and no entry has expired. */
  ghost predicate ExclusionsMatch(policy: Policy, pragmas: map<string, set<nat>>, today: int) {
    && (forall m <- policy.modules :: m.path in pragmas)
    && (forall x <- policy.exclusions :: today <= x.expiresOn)
    && (forall m <- policy.modules, l | m.path in pragmas && l in pragmas[m.path] ::
          exists x <- policy.exclusions :: x.path == m.path && x.line == l)
    && (forall x <- policy.exclusions ::
          x.path in pragmas && x.line in pragmas[x.path] && exists m <- policy.modules :: m.path == x.path)
  }

  lemma HiddenExactly(policy: Policy, e: Evidence)
    ensures NothingHidden(policy, e) <==> forall v :: !ConfigurationReports(policy, e, v)
  {
    if forall v :: !ConfigurationReports(policy, e, v) {
      assert !ConfigurationReports(policy, e, GlobalExclusion(ExcludeLines));
      assert !ConfigurationReports(policy, e, GlobalExclusion(ExcludeAlso));
      forall m <- policy.modules, pattern <- e.configuration.omit ensures !e.matches(pattern, m.path) {
        assert !ConfigurationReports(policy, e, OmittedModule(m.path, pattern));
      }
    }
  }

  lemma PragmasAllowed(modules: seq<ModulePolicy>, exclusions: seq<Exclusion>, pragmas: map<string, set<nat>>)
    ensures Observed(modules, pragmas) <= Allowed(exclusions)
            <==> forall m <- modules, l | m.path in pragmas && l in pragmas[m.path] ::
                   exists x <- exclusions :: x.path == m.path && x.line == l
  {
    forall p: string, l: nat
      ensures (p, l) in Observed(modules, pragmas)
              <==> p in pragmas && l in pragmas[p] && exists m <- modules :: m.path == p
    {
      ObservedExactly(modules, pragmas, p, l);
    }
  }

  lemma AllowedAreObserved(modules: seq<ModulePolicy>, exclusions: seq<Exclusion>, pragmas: map<string, set<nat>>)
    ensures Allowed(exclusions) <= Observed(modules, pragmas)
            <==> forall x <- exclusions ::
                   x.path in pragmas && x.line in pragmas[x.path] && exists m <- modules :: m.path == x.path
  {
    forall p: string, l: nat
      ensures (p, l) in Observed(modules, pragmas)
              <==> p in pragmas && l in pragmas[p] && exists m <- modules :: m.path == p
    {
      ObservedExactly(modules, pragmas, p, l);
    }
    assert forall x <- exclusions :: KeyOf(x) in Allowed(exclusions);
  }

  lemma MatchExactly(policy: Policy, pragmas: map<string, set<nat>>, today: int)
    ensures ExclusionsHold(policy, pragmas, today) <==> ExclusionsMatch(policy, pragmas, today)
  {
    PragmasAllowed(policy.modules, policy.exclusions, pragmas);
    AllowedAreObserved(policy.modules, policy.exclusions, pragmas);
    var observed, allowed := Observed(policy.modules, pragmas), Allowed(policy.exclusions);
    assert observed == allowed <==> observed <= allowed && allowed <= observed;
  }

  /** The audit holds exactly when nothing is hidden, the pragmas are the allowed ones, and every
      module reaches the floor in force. */
  lemma AuditExactly(policy: Policy, e: Evidence, today: int)
    ensures AuditHolds(policy, e, today)
            <==> && NothingHidden(policy, e) && ExclusionsMatch(policy, e.pragmas, today)
                 && forall m <- policy.modules :: MeetsFloor(policy, m, e.summaries, today)
  {
    HiddenExactly(policy, e);
    MatchExactly(policy, e.pragmas, today);
    forall m <- policy.modules
      ensures ModuleHolds(policy, m, e.summaries, today) <==> MeetsFloor(policy, m, e.summaries, today)
    {
      MeetsExactly(policy, m, e.summaries, today);
    }
  }

  /** An invalid summary counts as no coverage. */
  ghost predicate Below(summary: Summary, floor: real) {
    if summary.Summary? && summary.statements > 0 then !Reaches(summary, floor) else 0.0 < floor
  }

  ghost predicate BelowItsFloor(policy: Policy, m: ModulePolicy, summary: Summary, today: int) {
    || (exists x :: InForce(policy, m, today, x) && Below(summary, x.minimum))
    || ((forall x :: !InForce(policy, m, today, x)) && Below(summary, m.minimum))
  }

  lemma BelowExactly(policy: Policy, m: ModulePolicy, summary: Summary, today: int)
    ensures BelowItsFloor(policy, m, summary, today) <==> Measured(summary).percent < Floor(policy, m, today)
  {
    FloorExactly(policy, m, today);
    forall floor ensures Below(summary, floor) <==> Measured(summary).percent < floor {
      ReachesExactly(summary, floor);
    }
  }

  /** The rule of one module behind each violation. */
  ghost predicate ModuleBreaks(
    policy: Policy, m: ModulePolicy, summaries: map<string, Summary>, today: int, v: Violation)
  {
    match v
    case ExpiredException(p) => p == m.path && exists x :: FirstFor(policy.exceptions, p, x) && x.expiresOn < today
    case MissingCoverage(p) => p == m.path && p !in summaries
    case InvalidCoverage(p) =>
      p == m.path && p in summaries && (summaries[p] == Unreadable || summaries[p].statements <= 0)
    case BelowFloor(p) => p == m.path && p in summaries && BelowItsFloor(policy, m, summaries[p], today)
    case _ => false
  }

  lemma ModuleReportsExactly(
    policy: Policy, m: ModulePolicy, summaries: map<string, Summary>, today: int, v: Violation)
    ensures ModuleReports(policy, m, summaries, today, v) <==> ModuleBreaks(policy, m, summaries, today, v)
  {
    forall x ensures ExceptionFor(policy.exceptions, m.path) == Some(x) <==> FirstFor(policy.exceptions, m.path, x) {
      ExceptionExactly(policy.exceptions, m.path, x);
    }
    if m.path in summaries { BelowExactly(policy, m, summaries[m.path], today); }
  }

  /** The rule about the sources behind each violation. */
  ghost predicate SourcesBreak(policy: Policy, e: Evidence, today: int, v: Violation) {
    match v
    case OmittedModule(p, pattern) =>
      && (exists m <- policy.modules :: m.path == p) && pattern in e.configuration.omit && e.matches(pattern, p)
    case GlobalExclusion(setting) =>
      if setting == ExcludeLines then e.configuration.excludeLines else e.configuration.excludeAlso
    case MissingSource(p) => p !in e.pragmas && exists m <- policy.modules :: m.path == p
    case ExpiredExclusion(p, l) => exists x <- policy.exclusions :: x.path == p && x.line == l && x.expiresOn < today
    case UnapprovedExclusion(p, l) =>
      && IsPragma(policy, e.pragmas, p, l)
      && !exists x <- policy.exclusions :: x.path == p && x.line == l && x.expiresOn >= today
    case StaleExclusion(p, l) =>
      && !IsPragma(policy, e.pragmas, p, l)
      && exists x <- policy.exclusions :: x.path == p && x.line == l && x.expiresOn >= today
    case _ => false
  }

  ghost predicate IsPragma(policy: Policy, pragmas: map<string, set<nat>>, p: string, l: nat) {
    p in pragmas && l in pragmas[p] && exists m <- policy.modules :: m.path == p
  }

  lemma SourcesReportExactly(policy: Policy, e: Evidence, today: int, v: Violation)
    ensures ConfigurationReports(policy, e, v) || ExclusionReports(policy, e.pragmas, today, v)
            <==> SourcesBreak(policy, e, today, v)
  {
    if v.UnapprovedExclusion? || v.StaleExclusion? {
      ObservedExactly(policy.modules, e.pragmas, v.path, v.line);
      ActiveLinesExactly(policy.exclusions, today, v.path, v.line);
    }
  }

  /** A violation is reported exactly when the rule behind it is broken. */
  lemma ViolationsExactly(policy: Policy, e: Evidence, today: int, v: Violation)
    ensures Reported(policy, e, today, |policy.modules|, v)
            <==> || SourcesBreak(policy, e, today, v)
                 || exists m <- policy.modules :: ModuleBreaks(policy, m, e.summaries, today, v)
  {
    SourcesReportExactly(policy, e, today, v);
    forall m
      ensures ModuleReports(policy, m, e.summaries, today, v) <==> ModuleBreaks(policy, m, e.summaries, today, v)
    {
      ModuleReportsExactly(policy, m, e.summaries, today, v);
    }
    ModulesReport(policy, e, today, v);
  }

  lemma ModulesReport(policy: Policy, e: Evidence, today: int, v: Violation)
    ensures (exists k | 0 <= k < |policy.modules| :: ModuleReports(policy, policy.modules[k], e.summaries, today, v))
            <==> exists m <- policy.modules :: ModuleReports(policy, m, e.summaries, today, v)
  {
  }

  /** A described row holds the module's numbers, zeros when they are missing or invalid, and its status
      follows from the floor in force. */
  lemma RowExactly(row: Row, policy: Policy, m: ModulePolicy, summaries: map<string, Summary>, today: int)
    requires Describes(row, policy, m, summaries, today)
    ensures row.path == m.path && row.baseline == m.minimum
    ensures row.numbers
            == if m.path in summaries && ReadSummary(summaries[m.path]).Some? then ReadSummary(summaries[m.path]).value
               else Numbers(0, 0, 0.0)
    ensures row.missing >= row.numbers.statements - row.numbers.covered
    ensures row.missing == 0 || row.missing == row.numbers.statements - row.numbers.covered
    ensures forall e :: row.exception == Some(e) <==> InForce(policy, m, today, e)
    ensures row.required == match row.exception case Some(e) => e.minimum case None => m.minimum
    ensures row.status == Failing <==> m.path !in summaries || row.numbers.percent < row.required
    ensures row.status == ExceptionApproved
            <==> m.path in summaries && row.numbers.percent >= row.required && row.required < m.minimum
  {
    FloorExactly(policy, m, today);
  }

  /** The audit raises exactly when the numbers of some summary make no sense in a row. */
  lemma RaisesExactly(policy: Policy, e: Evidence, round6: real -> real)
    ensures AllRowsValid(policy, e, round6)
            <==> forall m <- policy.modules | m.path in e.summaries ::
                   match ReadSummary(e.summaries[m.path])
                   case None => 0.0 <= round6(0.0) <= 100.0
                   case Some(n) => 0 <= n.covered && 0.0 <= round6(n.percent) <= 100.0
  {
  }
}

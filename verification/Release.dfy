/** The version-consistency audit, and the repository it reads as a state machine: commits are
    added, tags are created and never move, main only advances. */
module Release {
  import opened Wrappers
  import opened CommitGraph
  import V = Versions
  import S = SemVer

  /** The kind of object a ref names, and the commit it peels to. */
  datatype Ref = Ref(objectType: string, target: Commit)

  /** A ref name by its namespace: `refs/tags/`, `refs/heads/`, `refs/remotes/origin/`, others. */
  datatype RefName = Tag(name: string) | Head(name: string) | Origin(name: string) | OtherRef(text: string)

  datatype Repo = Repo(graph: Graph, refs: map<RefName, Ref>)

  datatype Policy = Policy(
    developmentBranch: string, tagPrefix: string, requireAnnotated: bool, requireSignature: bool)

  datatype Context = InDevelopment | InPreparation | InRelease

  datatype Surfaces = Surfaces(
    python: string, uvLock: string, runtime: string, api: string, mcp: string, rust: string, cargoLock: string)

  /** The source commit is already trimmed and in lower case, as git prints commits; `mergeBase`
      and `signatureVerified` are what git answered. */
  datatype AuditInput = AuditInput(
    context: Context, surfaces: Surfaces, ref: RefName, commit: Commit,
    mergeBase: Option<Commit>, signatureVerified: bool)

  datatype Code =
    | UvLockMismatch | RuntimeMismatch | ApiMismatch | McpMismatch | RustMismatch | CargoLockMismatch
    | DevelopmentNotUnreleased | LineAlreadyReleased
    | PreparationIsDevelopment | PreparationBranchMismatch | PreparationTagExists
    | ReleaseIsDevelopment | TagVersionMismatch | TagMissing | TagNotAnnotated | TagCommitMismatch
    | MainRefUnavailable | SourceOutsideMain | SignatureUnverified

  datatype Distribution = UnreleasedDevelopment | ReleasePreparation | TaggedReleaseCandidate | TaggedFinalRelease

  /** What the audit says about the tag: its name, the object found there, and the signature check. */
  datatype TagFacts = TagFacts(name: Option<string>, ref: Option<Ref>, signatureVerified: Option<bool>)

  datatype VersionAudit = VersionAudit(
    passed: bool, state: Distribution, published: bool, version: V.Version, input: AuditInput, tag: TagFacts,
    violations: seq<Code>)

  /** The label depends on the context and the stage alone, whatever the verdict. */
  function DistributionState(context: Context, stage: V.Stage): (Distribution, bool) {
    match context
    case InDevelopment => (UnreleasedDevelopment, false)
    case InPreparation => (ReleasePreparation, false)
    case InRelease => if stage.ReleaseCandidate? then (TaggedReleaseCandidate, true) else (TaggedFinalRelease, true)
  }

  function MainRef(policy: Policy): RefName {
    Origin(policy.developmentBranch)
  }

  function VersionTag(policy: Policy, version: string): RefName {
    Tag(policy.tagPrefix + version)
  }

  function PreparationRefs(policy: Policy, x: AuditInput): set<RefName> {
    {Head("release/" + policy.tagPrefix + x.surfaces.python), Head(policy.developmentBranch)}
  }

  /** The source ref names a tag that exists; git has no tag with an empty name. */
  predicate TagPresent(repo: Repo, x: AuditInput) {
    x.ref.Tag? && x.ref.name != "" && x.ref in repo.refs
  }

  ghost function TagFactsOf(repo: Repo, policy: Policy, x: AuditInput): TagFacts {
    TagFacts(
      if x.ref.Tag? then Some(x.ref.name) else None,
      if TagPresent(repo, x) then Some(repo.refs[x.ref]) else None,
      if TagPresent(repo, x) && policy.requireSignature then Some(x.signatureVerified) else None)
  }

  // ---- What a passing audit means ----

  ghost predicate Synchronized(s: Surfaces, v: V.Version) {
    s.python == s.uvLock == s.runtime == s.api == s.mcp && s.rust == s.cargoLock == V.CargoVersion(v)
  }

  ghost predicate DevelopmentHolds(repo: Repo, policy: Policy, v: V.Version) {
    v.stage.Development? && VersionTag(policy, V.Base(v)) !in repo.refs
  }

  ghost predicate PreparationHolds(repo: Repo, policy: Policy, x: AuditInput, v: V.Version) {
    && !v.stage.Development? && x.ref in PreparationRefs(policy, x)
    && VersionTag(policy, x.surfaces.python) !in repo.refs && VersionTag(policy, V.Base(v)) !in repo.refs
  }

  /** What the merge-base command prints; nothing when it fails or finds none. */
  function MergeBaseText(x: AuditInput): string {
    if x.mergeBase.Some? then x.mergeBase.value else ""
  }

  /** The tag is the version's own, names the source commit, and the source is on main. */
  ghost predicate TagHolds(repo: Repo, policy: Policy, x: AuditInput) {
    var tag := VersionTag(policy, x.surfaces.python);
    && x.ref == tag && tag in repo.refs && repo.refs[tag].target == x.commit
    && (policy.requireAnnotated ==> repo.refs[tag].objectType == "tag")
    && MainRef(policy) in repo.refs && MergeBaseText(x) == x.commit
    && (policy.requireSignature ==> x.signatureVerified)
  }

  /** The audit passes with its version parsed as `v`. */
  ghost predicate Passes(repo: Repo, policy: Policy, x: AuditInput, v: V.Version) {
    && Synchronized(x.surfaces, v)
    && match x.context
       case InDevelopment => DevelopmentHolds(repo, policy, v)
       case InPreparation => PreparationHolds(repo, policy, x, v)
       case InRelease => !v.stage.Development? && TagHolds(repo, policy, x)
  }

  ghost predicate AuditPasses(repo: Repo, policy: Policy, x: AuditInput) {
    V.Parse(x.surfaces.python).Some? && Passes(repo, policy, x, V.Parse(x.surfaces.python).value)
  }

  // ---- The audit ----

  /** What each code reports about the surfaces. */
  ghost predicate SurfaceReports(s: Surfaces, code: Code) {
    match code
    case UvLockMismatch => s.uvLock != s.python
    case RuntimeMismatch => s.runtime != s.python
    case ApiMismatch => s.api != s.python
    case McpMismatch => s.mcp != s.python
    case _ => false
  }

  ghost predicate RustReports(s: Surfaces, v: V.Version, code: Code) {
    match code
    case RustMismatch => s.rust != V.CargoVersion(v)
    case CargoLockMismatch => s.cargoLock != s.rust
    case _ => false
  }

  ghost predicate DevelopmentReports(repo: Repo, policy: Policy, v: V.Version, code: Code) {
    match code
    case DevelopmentNotUnreleased => !v.stage.Development?
    case LineAlreadyReleased => VersionTag(policy, V.Base(v)) in repo.refs
    case _ => false
  }

  ghost predicate PreparationReports(repo: Repo, policy: Policy, x: AuditInput, v: V.Version, code: Code) {
    match code
    case PreparationIsDevelopment => v.stage.Development?
    case PreparationBranchMismatch => x.ref !in PreparationRefs(policy, x)
    case PreparationTagExists =>
      VersionTag(policy, x.surfaces.python) in repo.refs || VersionTag(policy, V.Base(v)) in repo.refs
    case _ => false
  }

  ghost predicate AncestryReports(repo: Repo, policy: Policy, x: AuditInput, code: Code) {
    match code
    case MainRefUnavailable => MainRef(policy) !in repo.refs
    case SourceOutsideMain => MainRef(policy) in repo.refs && MergeBaseText(x) != x.commit
    case _ => false
  }

  ghost predicate ObjectReports(policy: Policy, x: AuditInput, tag: Ref, code: Code) {
    match code
    case TagNotAnnotated => policy.requireAnnotated && tag.objectType != "tag"
    case TagCommitMismatch => tag.target != x.commit
    case _ => false
  }

  /** A missing tag hides the rules about its object, ancestry and signature. */
  ghost predicate TagReports(repo: Repo, policy: Policy, x: AuditInput, code: Code) {
    match code
    case TagVersionMismatch => x.ref != VersionTag(policy, x.surfaces.python)
    case TagMissing => !TagPresent(repo, x)
    case SignatureUnverified => TagPresent(repo, x) && policy.requireSignature && !x.signatureVerified
    case _ =>
      && TagPresent(repo, x)
      && (ObjectReports(policy, x, repo.refs[x.ref], code) || AncestryReports(repo, policy, x, code))
  }

  ghost predicate ReleaseReports(repo: Repo, policy: Policy, x: AuditInput, v: V.Version, code: Code) {
    (code.ReleaseIsDevelopment? && v.stage.Development?) || TagReports(repo, policy, x, code)
  }

  ghost predicate ContextReports(repo: Repo, policy: Policy, x: AuditInput, v: V.Version, code: Code) {
    match x.context
    case InDevelopment => DevelopmentReports(repo, policy, v, code)
    case InPreparation => PreparationReports(repo, policy, x, v, code)
    case InRelease => ReleaseReports(repo, policy, x, v, code)
  }

  /** Which codes an audit of a parsed version reports. */
  ghost predicate Reported(repo: Repo, policy: Policy, x: AuditInput, v: V.Version, code: Code) {
    SurfaceReports(x.surfaces, code) || RustReports(x.surfaces, v, code) || ContextReports(repo, policy, x, v, code)
  }

  method SurfaceViolations(s: Surfaces) returns (violations: seq<Code>)
    ensures forall code :: code in violations <==> SurfaceReports(s, code)
  {
    violations := [];
    if s.uvLock != s.python { violations := violations + [UvLockMismatch]; }
    if s.runtime != s.python { violations := violations + [RuntimeMismatch]; }
    if s.api != s.python { violations := violations + [ApiMismatch]; }
    if s.mcp != s.python { violations := violations + [McpMismatch]; }
  }

  method RustViolations(s: Surfaces, v: V.Version) returns (violations: seq<Code>)
    ensures forall code :: code in violations <==> RustReports(s, v, code)
  {
    violations := [];
    if s.rust != V.CargoVersion(v) { violations := violations + [RustMismatch]; }
    if s.cargoLock != s.rust { violations := violations + [CargoLockMismatch]; }
  }

  method DevelopmentViolations(repo: Repo, policy: Policy, v: V.Version) returns (violations: seq<Code>)
    ensures forall code :: code in violations <==> DevelopmentReports(repo, policy, v, code)
  {
    violations := [];
    if !v.stage.Development? {
      violations := violations + [DevelopmentNotUnreleased];
    }
    if VersionTag(policy, V.Base(v)) in repo.refs {
      violations := violations + [LineAlreadyReleased];
    }
  }

  method PreparationViolations(repo: Repo, policy: Policy, x: AuditInput, v: V.Version) returns (violations: seq<Code>)
    ensures forall code :: code in violations <==> PreparationReports(repo, policy, x, v, code)
  {
    violations := [];
    if v.stage.Development? {
      violations := violations + [PreparationIsDevelopment];
    }
    if x.ref !in PreparationRefs(policy, x) {
      violations := violations + [PreparationBranchMismatch];
    }
    var candidates := {VersionTag(policy, x.surfaces.python), VersionTag(policy, V.Base(v))};
    if exists tag <- candidates :: tag in repo.refs {
      violations := violations + [PreparationTagExists];
    }
  }

  method MainAncestryViolations(repo: Repo, policy: Policy, x: AuditInput) returns (violations: seq<Code>)
    ensures forall code :: code in violations <==> AncestryReports(repo, policy, x, code)
  {
    if MainRef(policy) !in repo.refs {
      return [MainRefUnavailable];
    }
    if MergeBaseText(x) != x.commit {
      return [SourceOutsideMain];
    }
    return [];
  }

  method TagViolations(repo: Repo, policy: Policy, x: AuditInput) returns (facts: TagFacts, violations: seq<Code>)
    ensures facts == TagFactsOf(repo, policy, x)
    ensures forall code :: code in violations <==> TagReports(repo, policy, x, code)
  {
    var name := if x.ref.Tag? then Some(x.ref.name) else None;
    violations := if x.ref != VersionTag(policy, x.surfaces.python) then [TagVersionMismatch] else [];
    if !x.ref.Tag? || x.ref.name == "" || x.ref !in repo.refs {
      return TagFacts(name, None, None), violations + [TagMissing];
    }
    var tag := repo.refs[x.ref];
    var objectViolations := TagObjectViolations(policy, x, tag);
    var ancestry := MainAncestryViolations(repo, policy, x);
    var verified := if policy.requireSignature then Some(x.signatureVerified) else None;
    var signature := if verified == Some(false) then [SignatureUnverified] else [];
    facts := TagFacts(name, Some(tag), verified);
    violations := violations + objectViolations + ancestry + signature;
  }

  method TagObjectViolations(policy: Policy, x: AuditInput, tag: Ref) returns (violations: seq<Code>)
    ensures forall code :: code in violations <==> ObjectReports(policy, x, tag, code)
  {
    violations := [];
    if policy.requireAnnotated && tag.objectType != "tag" {
      violations := violations + [TagNotAnnotated];
    }
    if tag.target != x.commit {
      violations := violations + [TagCommitMismatch];
    }
  }

  method ReleaseViolations(repo: Repo, policy: Policy, x: AuditInput, v: V.Version)
    returns (facts: TagFacts, violations: seq<Code>)
    ensures facts == TagFactsOf(repo, policy, x)
    ensures forall code :: code in violations <==> ReleaseReports(repo, policy, x, v, code)
  {
    violations := [];
    if v.stage.Development? {
      violations := violations + [ReleaseIsDevelopment];
    }
    var tagViolations;
    facts, tagViolations := TagViolations(repo, policy, x);
    violations := violations + tagViolations;
  }

  method ContextViolations(repo: Repo, policy: Policy, x: AuditInput, v: V.Version)
    returns (tag: TagFacts, violations: seq<Code>)
    ensures forall code :: code in violations <==> ContextReports(repo, policy, x, v, code)
    ensures tag == if x.context.InRelease? then TagFactsOf(repo, policy, x) else TagFacts(None, None, None)
  {
    tag := TagFacts(None, None, None);
    match x.context {
      case InDevelopment => violations := DevelopmentViolations(repo, policy, v);
      case InPreparation => violations := PreparationViolations(repo, policy, x, v);
      case InRelease => tag, violations := ReleaseViolations(repo, policy, x, v);
    }
  }

  /** The audit of a parsed version reports exactly the broken rules, and passes exactly when its
      meaning holds. */
  method AuditParsed(repo: Repo, policy: Policy, x: AuditInput, v: V.Version) returns (audit: VersionAudit)
    requires policy.tagPrefix != ""
    ensures audit.version == v && audit.input == x
    ensures audit.passed <==> Passes(repo, policy, x, v)
    ensures audit.passed <==> audit.violations == []
    ensures forall code :: code in audit.violations <==> Reported(repo, policy, x, v, code)
    ensures (audit.state, audit.published) == DistributionState(x.context, v.stage)
    ensures audit.tag == if x.context.InRelease? then TagFactsOf(repo, policy, x) else TagFacts(None, None, None)
  {
    var violations := SurfaceViolations(x.surfaces);
    var rust := RustViolations(x.surfaces, v);
    violations := violations + rust;
    var tag, more := ContextViolations(repo, policy, x, v);
    violations := violations + more;
    SilentExactly(repo, policy, x, v);
    assert violations != [] ==> violations[0] in violations;
    var (state, published) := DistributionState(x.context, v.stage);
    audit := VersionAudit(violations == [], state, published, v, x, tag, violations);
  }

  /** `None` when the project version is not in the supported grammar.  A passing audit of a release
      names the version's own tag, the object found there and the source commit. */
  method AuditVersionConsistency(repo: Repo, policy: Policy, x: AuditInput) returns (r: Option<VersionAudit>)
    requires policy.tagPrefix != ""
    ensures r.None? <==> V.Parse(x.surfaces.python).None?
    ensures r.Some? ==> V.Parse(x.surfaces.python) == Some(r.value.version) && r.value.input == x
    ensures r.Some? ==>
              && (r.value.passed <==> AuditPasses(repo, policy, x))
              && (r.value.passed <==> r.value.violations == [])
              && (forall code :: code in r.value.violations <==> Reported(repo, policy, x, r.value.version, code))
    ensures r.Some? ==> PublishedSoundly(repo, policy, x, r.value)
  {
    var parsed := V.Parse(x.surfaces.python);
    if parsed.None? {
      return None;
    }
    var audit := AuditParsed(repo, policy, x, parsed.value);
    return Some(audit);
  }

  /** What the labels of an audit tell its reader. */
  ghost predicate PublishedSoundly(repo: Repo, policy: Policy, x: AuditInput, audit: VersionAudit) {
    && (audit.published <==> x.context.InRelease?)
    && (audit.published && audit.passed ==>
          && audit.state == (if audit.version.stage.Final? then TaggedFinalRelease else TaggedReleaseCandidate)
          && audit.tag.name == Some(policy.tagPrefix + x.surfaces.python)
          && audit.tag.ref.Some? && audit.tag.ref.value.target == x.commit
          && (policy.requireAnnotated ==> audit.tag.ref.value.objectType == "tag")
          && audit.tag.signatureVerified == (if policy.requireSignature then Some(true) else None))
  }

  /** A parsed version passes exactly when no code is reported. */
  lemma SilentExactly(repo: Repo, policy: Policy, x: AuditInput, v: V.Version)
    requires policy.tagPrefix != ""
    ensures Silent(repo, policy, x, v) <==> Passes(repo, policy, x, v)
  {
    if Silent(repo, policy, x, v) {
      SurfacesAgree(repo, policy, x, v);
      match x.context
      case InDevelopment => DevelopmentAgrees(repo, policy, x, v);
      case InPreparation => PreparationAgrees(repo, policy, x, v);
      case InRelease => ReleaseAgrees(repo, policy, x, v);
    }
    if Passes(repo, policy, x, v) {
      forall code ensures !Reported(repo, policy, x, v, code) { PassesSilently(repo, policy, x, v, code); }
    }
  }

  lemma TagHoldsSilently(repo: Repo, policy: Policy, x: AuditInput, code: Code)
    requires policy.tagPrefix != "" && TagHolds(repo, policy, x)
    ensures !TagReports(repo, policy, x, code)
  {
  }

  lemma PassesSilently(repo: Repo, policy: Policy, x: AuditInput, v: V.Version, code: Code)
    requires policy.tagPrefix != "" && Passes(repo, policy, x, v)
    ensures !Reported(repo, policy, x, v, code)
  {
    if x.context.InRelease? { TagHoldsSilently(repo, policy, x, code); }
  }

  ghost predicate Silent(repo: Repo, policy: Policy, x: AuditInput, v: V.Version) {
    forall code :: !Reported(repo, policy, x, v, code)
  }

  lemma SurfacesAgree(repo: Repo, policy: Policy, x: AuditInput, v: V.Version)
    requires Silent(repo, policy, x, v)
    ensures Synchronized(x.surfaces, v)
  {
    assert !Reported(repo, policy, x, v, UvLockMismatch) && !Reported(repo, policy, x, v, RuntimeMismatch);
    assert !Reported(repo, policy, x, v, ApiMismatch) && !Reported(repo, policy, x, v, McpMismatch);
    assert !Reported(repo, policy, x, v, RustMismatch) && !Reported(repo, policy, x, v, CargoLockMismatch);
  }

  lemma DevelopmentAgrees(repo: Repo, policy: Policy, x: AuditInput, v: V.Version)
    requires Silent(repo, policy, x, v) && x.context.InDevelopment?
    ensures DevelopmentHolds(repo, policy, v)
  {
    assert !Reported(repo, policy, x, v, DevelopmentNotUnreleased)
      && !Reported(repo, policy, x, v, LineAlreadyReleased);
  }

  lemma PreparationAgrees(repo: Repo, policy: Policy, x: AuditInput, v: V.Version)
    requires Silent(repo, policy, x, v) && x.context.InPreparation?
    ensures PreparationHolds(repo, policy, x, v)
  {
    assert !Reported(repo, policy, x, v, PreparationIsDevelopment);
    assert !Reported(repo, policy, x, v, PreparationBranchMismatch)
      && !Reported(repo, policy, x, v, PreparationTagExists);
  }

  lemma ReleaseAgrees(repo: Repo, policy: Policy, x: AuditInput, v: V.Version)
    requires Silent(repo, policy, x, v) && x.context.InRelease?
    ensures !v.stage.Development? && TagHolds(repo, policy, x)
  {
    assert !Reported(repo, policy, x, v, ReleaseIsDevelopment) && !Reported(repo, policy, x, v, SignatureUnverified);
    assert !Reported(repo, policy, x, v, TagVersionMismatch) && !Reported(repo, policy, x, v, TagMissing);
    assert !Reported(repo, policy, x, v, TagNotAnnotated) && !Reported(repo, policy, x, v, TagCommitMismatch);
    assert !Reported(repo, policy, x, v, MainRefUnavailable) && !Reported(repo, policy, x, v, SourceOutsideMain);
  }

  // ---- The pass condition, spelled out ----

  /** Every surface shows the version in its own spelling. */
  ghost predicate SurfacesShow(s: Surfaces, python: string, rust: string) {
    && s.python == python && s.uvLock == python && s.runtime == python && s.api == python && s.mcp == python
    && s.rust == rust && s.cargoLock == rust
  }

  /** The rules of each context, over ref names put together here. */
  ghost predicate RulesHold(repo: Repo, policy: Policy, x: AuditInput, stage: V.Stage, python: string, core: string) {
    var ownTag, lineTag := Tag(policy.tagPrefix + python), Tag(policy.tagPrefix + core);
    match x.context
    case InDevelopment => stage.Development? && lineTag !in repo.refs
    case InPreparation =>
      && !stage.Development? && ownTag !in repo.refs && lineTag !in repo.refs
      && (x.ref == Head("release/" + policy.tagPrefix + python) || x.ref == Head(policy.developmentBranch))
    case InRelease =>
      && !stage.Development? && x.ref == ownTag && ownTag in repo.refs && repo.refs[ownTag].target == x.commit
      && (policy.requireAnnotated ==> repo.refs[ownTag].objectType == "tag")
      && Origin(policy.developmentBranch) in repo.refs
      && x.commit == (if x.mergeBase.Some? then x.mergeBase.value else "")
      && (policy.requireSignature ==> x.signatureVerified)
  }

  /** For a project version MAJOR.MINOR.PATCH, with `.devN` or `rcN` behind it or not, the audit passes
      exactly when every surface shows that version, the Rust ones with `-dev.N` and `-rc.N`, and the
      rules of the context hold. */
  lemma PassesExactly(
    repo: Repo, policy: Policy, x: AuditInput, v: V.Version, a: string, b: string, c: string, n: string)
    requires policy.tagPrefix != "" && S.Numbers(v, a, b, c, n)
    requires x.surfaces.python == S.PythonText(S.Core(a, b, c), v.stage, n)
    ensures AuditPasses(repo, policy, x)
            <==> && SurfacesShow(x.surfaces, x.surfaces.python, S.RustText(S.Core(a, b, c), v.stage, n))
                 && RulesHold(repo, policy, x, v.stage, x.surfaces.python, S.Core(a, b, c))
  {
    S.PythonSpelling(v, a, b, c, n, x.surfaces.python);
    S.RustSpelling(v, a, b, c, n);
    RulesAre(repo, policy, x, v, S.RustText(S.Core(a, b, c), v.stage, n), S.Core(a, b, c));
  }

  lemma RulesAre(repo: Repo, policy: Policy, x: AuditInput, v: V.Version, rust: string, core: string)
    requires policy.tagPrefix != "" && V.CargoVersion(v) == rust && V.Base(v) == core
    ensures Passes(repo, policy, x, v)
            <==> && SurfacesShow(x.surfaces, x.surfaces.python, rust)
                 && RulesHold(repo, policy, x, v.stage, x.surfaces.python, core)
  {
  }

  /** The rule behind each code, over the same spellings. */
  ghost predicate Breaks(
    repo: Repo, policy: Policy, x: AuditInput, stage: V.Stage, rust: string, core: string, code: Code)
  {
    var s, python := x.surfaces, x.surfaces.python;
    var ownTag, lineTag := Tag(policy.tagPrefix + python), Tag(policy.tagPrefix + core);
    var main := Origin(policy.developmentBranch);
    var found := x.ref.Tag? && x.ref.name != "" && x.ref in repo.refs;
    match code
    case UvLockMismatch => s.uvLock != python
    case RuntimeMismatch => s.runtime != python
    case ApiMismatch => s.api != python
    case McpMismatch => s.mcp != python
    case RustMismatch => s.rust != rust
    case CargoLockMismatch => s.cargoLock != s.rust
    case DevelopmentNotUnreleased => x.context.InDevelopment? && !stage.Development?
    case LineAlreadyReleased => x.context.InDevelopment? && lineTag in repo.refs
    case PreparationIsDevelopment => x.context.InPreparation? && stage.Development?
    case PreparationBranchMismatch =>
      && x.context.InPreparation? && x.ref != Head("release/" + policy.tagPrefix + python)
      && x.ref != Head(policy.developmentBranch)
    case PreparationTagExists => x.context.InPreparation? && (ownTag in repo.refs || lineTag in repo.refs)
    case ReleaseIsDevelopment => x.context.InRelease? && stage.Development?
    case TagVersionMismatch => x.context.InRelease? && x.ref != ownTag
    case TagMissing => x.context.InRelease? && !found
    case TagNotAnnotated =>
      x.context.InRelease? && found && policy.requireAnnotated && repo.refs[x.ref].objectType != "tag"
    case TagCommitMismatch => x.context.InRelease? && found && repo.refs[x.ref].target != x.commit
    case MainRefUnavailable => x.context.InRelease? && found && main !in repo.refs
    case SourceOutsideMain =>
      x.context.InRelease? && found && main in repo.refs
      && x.commit != (if x.mergeBase.Some? then x.mergeBase.value else "")
    case SignatureUnverified => x.context.InRelease? && found && policy.requireSignature && !x.signatureVerified
  }

  /** A code is reported exactly when its rule is broken. */
  lemma CodesExactly(
    repo: Repo, policy: Policy, x: AuditInput, v: V.Version, a: string, b: string, c: string, n: string, code: Code)
    requires S.Numbers(v, a, b, c, n) && x.surfaces.python == S.PythonText(S.Core(a, b, c), v.stage, n)
    ensures Reported(repo, policy, x, v, code)
            <==> Breaks(repo, policy, x, v.stage, S.RustText(S.Core(a, b, c), v.stage, n), S.Core(a, b, c), code)
  {
    S.PythonSpelling(v, a, b, c, n, x.surfaces.python);
    S.RustSpelling(v, a, b, c, n);
    ReportedAre(repo, policy, x, v, S.RustText(S.Core(a, b, c), v.stage, n), S.Core(a, b, c), code);
  }

  lemma ReportedAre(repo: Repo, policy: Policy, x: AuditInput, v: V.Version, rust: string, core: string, code: Code)
    requires V.CargoVersion(v) == rust && V.Base(v) == core
    ensures Reported(repo, policy, x, v, code) <==> Breaks(repo, policy, x, v.stage, rust, core, code)
  {
  }

  /** A project version that is not of this form is refused. */
  lemma RefusedExactly(repo: Repo, policy: Policy, x: AuditInput)
    ensures V.Parse(x.surfaces.python).None?
            <==> forall v, a, b, c, n | S.Numbers(v, a, b, c, n) ::
                   x.surfaces.python != S.PythonText(S.Core(a, b, c), v.stage, n)
  {
    forall v, a, b, c, n | S.Numbers(v, a, b, c, n)
      ensures V.Parse(x.surfaces.python) == Some(v) <==> x.surfaces.python == S.PythonText(S.Core(a, b, c), v.stage, n)
    {
      S.PythonSpelling(v, a, b, c, n, x.surfaces.python);
    }
    if V.Parse(x.surfaces.python).Some? {
      var v := V.Parse(x.surfaces.python).value;
      var a, b, c, n := S.NumbersExist(v);
    }
  }

  /** The labels of an audit. */
  lemma LabelsExactly(context: Context, stage: V.Stage)
    ensures var (state, published) := DistributionState(context, stage);
            && (published <==> context.InRelease?)
            && (state.UnreleasedDevelopment? <==> context.InDevelopment?)
            && (state.ReleasePreparation? <==> context.InPreparation?)
            && (state.TaggedReleaseCandidate? <==> context.InRelease? && stage.ReleaseCandidate?)
            && (state.TaggedFinalRelease? <==> context.InRelease? && !stage.ReleaseCandidate?)
  {
  }

  // ---- Runs ----

  ghost predicate WellFormed(repo: Repo) {
    && Acyclic(repo.graph) && "" !in repo.graph
    && forall name | name in repo.refs :: repo.refs[name].target in repo.graph
  }

  datatype Step =
    | Commit(id: Commit, parents: set<Commit>)
    | CreateTag(name: RefName, ref: Ref)
    | UpdateRef(name: RefName, ref: Ref)
    | DeleteRef(name: RefName)

  /** Tags are created once and never moved or removed; main only advances to descendants; other
      refs change freely. */
  ghost predicate Enabled(policy: Policy, repo: Repo, step: Step) {
    match step
    case Commit(id, parents) => id != "" && id !in repo.graph && parents <= repo.graph.Keys
    case CreateTag(name, ref) => name.Tag? && name !in repo.refs && ref.target in repo.graph
    case UpdateRef(name, ref) =>
      && !name.Tag? && ref.target in repo.graph
      && (name == MainRef(policy) && name in repo.refs ==> Ancestor(repo.graph, repo.refs[name].target, ref.target))
    case DeleteRef(name) => !name.Tag? && name != MainRef(policy)
  }

  function Apply(repo: Repo, step: Step): Repo {
    match step
    case Commit(id, parents) => repo.(graph := repo.graph[id := parents])
    case CreateTag(name, ref) => repo.(refs := repo.refs[name := ref])
    case UpdateRef(name, ref) => repo.(refs := repo.refs[name := ref])
    case DeleteRef(name) => repo.(refs := repo.refs - {name})
  }

  ghost predicate IsRun(policy: Policy, states: seq<Repo>, steps: seq<Step>) {
    && |states| == |steps| + 1 && WellFormed(states[0])
    && forall i | 0 <= i < |steps| ::
         Enabled(policy, states[i], steps[i]) && states[i + 1] == Apply(states[i], steps[i])
  }

  /** What every later state keeps of an earlier one. */
  ghost predicate Keeps(policy: Policy, before: Repo, after: Repo) {
    && Grows(before.graph, after.graph)
    && (forall name | name in before.refs && name.Tag? :: name in after.refs && after.refs[name] == before.refs[name])
    && (MainRef(policy) in before.refs ==>
          && MainRef(policy) in after.refs
          && Ancestor(after.graph, before.refs[MainRef(policy)].target, after.refs[MainRef(policy)].target))
  }

  lemma SelfAncestor(g: Graph, c: Commit)
    requires c in g
    ensures Ancestor(g, c, c)
  {
    assert Reaches(g, c, c, 0);
  }

  lemma StepKeeps(policy: Policy, repo: Repo, step: Step)
    requires WellFormed(repo) && Enabled(policy, repo, step)
    ensures WellFormed(Apply(repo, step)) && Keeps(policy, repo, Apply(repo, step))
  {
    var main := MainRef(policy);
    if step.Commit? { CommitKeepsAcyclic(repo.graph, step.id, step.parents); }
    if main in repo.refs {
      var c := repo.refs[main].target;
      SelfAncestor(repo.graph, c);
      if step.Commit? { AncestorGrows(repo.graph, Apply(repo, step).graph, c, c); }
    }
  }

  lemma KeepsTransitive(policy: Policy, a: Repo, b: Repo, c: Repo)
    requires Keeps(policy, a, b) && Keeps(policy, b, c)
    ensures Keeps(policy, a, c)
  {
    var main := MainRef(policy);
    if main in a.refs {
      AncestorGrows(b.graph, c.graph, a.refs[main].target, b.refs[main].target);
      AncestorTransitive(c.graph, a.refs[main].target, b.refs[main].target, c.refs[main].target);
    }
  }

  lemma {:induction false} RunStaysWellFormed(policy: Policy, states: seq<Repo>, steps: seq<Step>, i: nat)
    requires IsRun(policy, states, steps) && i < |states|
    ensures WellFormed(states[i])
  {
    if i > 0 {
      RunStaysWellFormed(policy, states, steps, i - 1);
      StepKeeps(policy, states[i - 1], steps[i - 1]);
    }
  }

  lemma {:induction false} RunKeeps(policy: Policy, states: seq<Repo>, steps: seq<Step>, i: nat, j: nat)
    requires IsRun(policy, states, steps) && i <= j < |states|
    ensures WellFormed(states[j]) && Keeps(policy, states[i], states[j])
    decreases j - i
  {
    RunStaysWellFormed(policy, states, steps, j);
    if i == j {
      var main := MainRef(policy);
      if main in states[i].refs { SelfAncestor(states[i].graph, states[i].refs[main].target); }
    } else {
      RunKeeps(policy, states, steps, i, j - 1);
      StepKeeps(policy, states[j - 1], steps[j - 1]);
      KeepsTransitive(policy, states[i], states[j - 1], states[j]);
    }
  }

  /** The audit was given what git answers in this state. */
  ghost predicate GitAnswered(repo: Repo, policy: Policy, x: AuditInput) {
    MainRef(policy) in repo.refs ==>
      MergeBaseAnswer(repo.graph, x.commit, repo.refs[MainRef(policy)].target, x.mergeBase)
  }

  /** All passing release audits of one version, at any two moments of a run, name one commit. */
  lemma OneCommitPerRelease(
    policy: Policy, states: seq<Repo>, steps: seq<Step>, i: nat, j: nat, x: AuditInput, y: AuditInput)
    requires IsRun(policy, states, steps) && i <= j < |states|
    requires x.context.InRelease? && y.context.InRelease? && x.surfaces.python == y.surfaces.python
    requires AuditPasses(states[i], policy, x) && AuditPasses(states[j], policy, y)
    ensures x.commit == y.commit
  {
    RunKeeps(policy, states, steps, i, j);
  }

  lemma FinalTag(repo: Repo, policy: Policy, x: AuditInput, v: V.Version)
    requires x.context.InRelease? && Passes(repo, policy, x, v)
    requires V.Parse(x.surfaces.python) == Some(v) && v.stage.Final?
    ensures VersionTag(policy, V.Base(v)) in repo.refs
  {
    V.ParsedIsShown(x.surfaces.python);
    V.FinalIsBase(v);
  }

  /** Once a final version passed its release audit, no later development or preparation audit of
      any version on that line passes. */
  lemma ReleasedLineIsClosed(
    policy: Policy, states: seq<Repo>, steps: seq<Step>, i: nat, j: nat, x: AuditInput, y: AuditInput)
    requires IsRun(policy, states, steps) && i <= j < |states|
    requires x.context.InRelease? && AuditPasses(states[i], policy, x) && V.Parse(x.surfaces.python).value.stage.Final?
    requires !y.context.InRelease? && V.Parse(y.surfaces.python).Some?
    requires V.Base(V.Parse(y.surfaces.python).value) == V.Base(V.Parse(x.surfaces.python).value)
    ensures !AuditPasses(states[j], policy, y)
  {
    RunKeeps(policy, states, steps, i, j);
    FinalTag(states[i], policy, x, V.Parse(x.surfaces.python).value);
  }

  /** A release audit that passed keeps passing, whichever merge base git picks later, and its
      commit is an ancestor of main from then on. */
  lemma ReleaseStaysValid(
    policy: Policy, states: seq<Repo>, steps: seq<Step>, i: nat, j: nat, x: AuditInput, y: AuditInput)
    requires IsRun(policy, states, steps) && i <= j < |states|
    requires x.context.InRelease? && AuditPasses(states[i], policy, x) && GitAnswered(states[i], policy, x)
    requires y == x.(mergeBase := y.mergeBase) && GitAnswered(states[j], policy, y)
    ensures AuditPasses(states[j], policy, y)
    ensures Ancestor(states[j].graph, x.commit, states[j].refs[MainRef(policy)].target)
  {
    var main := MainRef(policy);
    RunStaysWellFormed(policy, states, steps, i);
    RunKeeps(policy, states, steps, i, j);
    var before, after := states[i].refs[main].target, states[j].refs[main].target;
    MergeBaseDecidesAncestry(states[i].graph, x.commit, before, x.mergeBase);
    AncestorGrows(states[i].graph, states[j].graph, x.commit, before);
    AncestorTransitive(states[j].graph, x.commit, before, after);
    MergeBaseDecidesAncestry(states[j].graph, x.commit, after, y.mergeBase);
  }

  // ---- How reported codes evolve ----

  /** The codes that a later state can lift: a tag can be created, and main can appear and advance. */
  predicate Curable(code: Code) {
    code.TagMissing? || code.MainRefUnavailable? || code.SourceOutsideMain?
  }

  /** The rules that are only checked on a tag that exists. */
  predicate NeedsTag(code: Code) {
    || code.TagNotAnnotated? || code.TagCommitMismatch? || code.SignatureUnverified?
    || code.MainRefUnavailable? || code.SourceOutsideMain?
  }

  lemma TagStays(policy: Policy, before: Repo, after: Repo, x: AuditInput)
    requires Keeps(policy, before, after) && TagPresent(before, x)
    ensures TagPresent(after, x) && after.refs[x.ref] == before.refs[x.ref]
  {
  }

  /** Every code that is not curable stays reported. */
  lemma CodesPersist(
    policy: Policy, states: seq<Repo>, steps: seq<Step>, i: nat, j: nat, x: AuditInput, y: AuditInput,
    v: V.Version, code: Code)
    requires IsRun(policy, states, steps) && i <= j < |states| && y == x.(mergeBase := y.mergeBase)
    requires Reported(states[i], policy, x, v, code) && !Curable(code)
    ensures Reported(states[j], policy, y, v, code)
  {
    RunKeeps(policy, states, steps, i, j);
  }

  /** Once main holds the source, it holds it for good. */
  lemma AncestryStays(policy: Policy, before: Repo, after: Repo, x: AuditInput, y: AuditInput)
    requires Keeps(policy, before, after) && WellFormed(before) && WellFormed(after)
    requires y == x.(mergeBase := y.mergeBase)
    requires GitAnswered(before, policy, x) && GitAnswered(after, policy, y)
    requires MainRef(policy) in before.refs && MergeBaseText(x) == x.commit
    ensures MainRef(policy) in after.refs && MergeBaseText(y) == y.commit
  {
    var main := MainRef(policy);
    var m, n := before.refs[main].target, after.refs[main].target;
    if x.mergeBase.Some? {
      MergeBaseDecidesAncestry(before.graph, x.commit, m, x.mergeBase);
      AncestorGrows(before.graph, after.graph, x.commit, m);
      AncestorTransitive(after.graph, x.commit, m, n);
      MergeBaseDecidesAncestry(after.graph, x.commit, n, y.mergeBase);
    }
  }

  /** On a tag that was there, only main leaving the source out is new, and only if main was not there. */
  lemma ReleaseCodesAppear(
    policy: Policy, before: Repo, after: Repo, x: AuditInput, y: AuditInput, v: V.Version, code: Code)
    requires Keeps(policy, before, after) && WellFormed(before) && WellFormed(after)
    requires y == x.(mergeBase := y.mergeBase)
    requires GitAnswered(before, policy, x) && GitAnswered(after, policy, y)
    requires TagPresent(before, x)
    requires !ReleaseReports(before, policy, x, v, code) && ReleaseReports(after, policy, y, v, code)
    ensures code.SourceOutsideMain? && MainRef(policy) !in before.refs
  {
    TagStays(policy, before, after, x);
    if MainRef(policy) in before.refs && MergeBaseText(x) == x.commit {
      AncestryStays(policy, before, after, x, y);
    }
  }

  /** Why a code that was not reported before may be reported after. */
  ghost predicate Explained(repo: Repo, policy: Policy, x: AuditInput, v: V.Version, code: Code) {
    || code.LineAlreadyReleased? || code.PreparationTagExists?
    || (NeedsTag(code) && Reported(repo, policy, x, v, TagMissing))
    || (code.SourceOutsideMain? && Reported(repo, policy, x, v, MainRefUnavailable))
  }

  lemma ReleaseExplained(
    policy: Policy, before: Repo, after: Repo, x: AuditInput, y: AuditInput, v: V.Version, code: Code)
    requires Keeps(policy, before, after) && WellFormed(before) && WellFormed(after)
    requires y == x.(mergeBase := y.mergeBase) && x.context.InRelease?
    requires GitAnswered(before, policy, x) && GitAnswered(after, policy, y)
    requires !ReleaseReports(before, policy, x, v, code) && ReleaseReports(after, policy, y, v, code)
    ensures || (NeedsTag(code) && ReleaseReports(before, policy, x, v, TagMissing))
            || (code.SourceOutsideMain? && ReleaseReports(before, policy, x, v, MainRefUnavailable))
  {
    if TagPresent(before, x) {
      ReleaseCodesAppear(policy, before, after, x, y, v, code);
    }
  }

  lemma NewCodesExplained(
    policy: Policy, before: Repo, after: Repo, x: AuditInput, y: AuditInput, v: V.Version, code: Code)
    requires Keeps(policy, before, after) && WellFormed(before) && WellFormed(after)
    requires y == x.(mergeBase := y.mergeBase)
    requires GitAnswered(before, policy, x) && GitAnswered(after, policy, y)
    requires !Reported(before, policy, x, v, code) && Reported(after, policy, y, v, code)
    ensures Explained(before, policy, x, v, code)
  {
    if !x.context.InRelease? {
    } else {
      ReleaseExplained(policy, before, after, x, y, v, code);
    }
  }

  /** A code can only appear because the line was tagged, because the tag that hid it was created, or
      because main was created on commits that leave the source out. */
  lemma CodesAppear(
    policy: Policy, states: seq<Repo>, steps: seq<Step>, i: nat, j: nat, x: AuditInput, y: AuditInput,
    v: V.Version, code: Code)
    requires IsRun(policy, states, steps) && i <= j < |states| && y == x.(mergeBase := y.mergeBase)
    requires GitAnswered(states[i], policy, x) && GitAnswered(states[j], policy, y)
    requires !Reported(states[i], policy, x, v, code) && Reported(states[j], policy, y, v, code)
    ensures Explained(states[i], policy, x, v, code)
  {
    RunKeeps(policy, states, steps, i, j);
    RunStaysWellFormed(policy, states, steps, i);
    NewCodesExplained(policy, states[i], states[j], x, y, v, code);
  }

  // ---- The life cycle can be completed ----

  /** The surfaces of a synchronized tree at version `v`. */
  function SurfacesOf(v: V.Version): Surfaces {
    var text := V.Show(v);
    Surfaces(text, text, text, text, text, V.CargoVersion(v), V.CargoVersion(v))
  }

  function FirstCommit(id: Commit, policy: Policy): Repo {
    Repo(map[id := {}], map[MainRef(policy) := Ref("commit", id)])
  }

  function Tagged(id: Commit, policy: Policy, v: V.Version): Repo {
    var repo := FirstCommit(id, policy);
    repo.(refs := repo.refs[VersionTag(policy, V.Show(v)) := Ref("tag", id)])
  }

  /** One commit, main on it, then an annotated tag. */
  lemma LifecycleRuns(policy: Policy, v: V.Version, id: Commit)
    requires id != ""
    ensures IsRun(policy,
                  [Repo(map[], map[]), Repo(map[id := {}], map[]), FirstCommit(id, policy), Tagged(id, policy, v)],
                  [Commit(id, {}), UpdateRef(MainRef(policy), Ref("commit", id)),
                   CreateTag(VersionTag(policy, V.Show(v)), Ref("tag", id))])
  {
    var empty: Graph := map[];
    var rank: map<Commit, nat> := map[];
    RankedIsAcyclic(empty, rank, 0);
  }

  lemma FirstCommitIsMergeBase(policy: Policy, id: Commit)
    ensures MergeBaseAnswer(FirstCommit(id, policy).graph, id, id, Some(id))
  {
    var g: Graph := map[id := {}];
    var rank: map<Commit, nat> := map[id := 0];
    RankedIsAcyclic(g, rank, 1);
    SelfAncestor(g, id);
    MergeBaseTheorem(g, id, id);
  }

  /** Under every policy every release candidate and every final version can be prepared on its
      branch, tagged and released: both audits pass in that run, on what git answers there. */
  lemma LifecycleCompletes(policy: Policy, v: V.Version, id: Commit)
    requires !v.stage.Development?
    ensures var branch := Head("release/" + policy.tagPrefix + V.Show(v));
            var prepared := AuditInput(InPreparation, SurfacesOf(v), branch, id, None, false);
            AuditPasses(FirstCommit(id, policy), policy, prepared)
    ensures var released := AuditInput(InRelease, SurfacesOf(v), VersionTag(policy, V.Show(v)), id, Some(id), true);
            GitAnswered(Tagged(id, policy, v), policy, released) && AuditPasses(Tagged(id, policy, v), policy, released)
  {
    V.ParseInvertsShow(v);
    FirstCommitIsMergeBase(policy, id);
  }

  // ---- The curable codes are cured somewhere ----

  /** In this run the code is reported at the start and not at the end. */
  ghost predicate Lifts(
    policy: Policy, v: V.Version, code: Code, states: seq<Repo>, steps: seq<Step>, x: AuditInput, y: AuditInput)
  {
    && IsRun(policy, states, steps) && y == x.(mergeBase := y.mergeBase)
    && GitAnswered(states[0], policy, x) && GitAnswered(states[|steps|], policy, y)
    && Reported(states[0], policy, x, v, code) && !Reported(states[|steps|], policy, y, v, code)
  }

  ghost predicate CanBeLifted(policy: Policy, v: V.Version, code: Code) {
    exists states, steps, x, y :: Lifts(policy, v, code, states, steps, x, y)
  }

  function ReleaseInput(policy: Policy, v: V.Version, id: Commit, mergeBase: Option<Commit>): AuditInput {
    AuditInput(InRelease, SurfacesOf(v), Tag("t"), id, mergeBase, true)
  }

  function TaggedOnly(id: Commit): Repo {
    Repo(map[id := {}], map[Tag("t") := Ref("tag", id)])
  }

  function TaggedOnMain(id: Commit, policy: Policy): Repo {
    Repo(map[id := {}], map[Tag("t") := Ref("tag", id), MainRef(policy) := Ref("commit", id)])
  }

  lemma OneCommitIsAcyclic(id: Commit)
    ensures Acyclic(map[id := {}])
  {
    var g: Graph := map[id := {}];
    var rank: map<Commit, nat> := map[id := 0];
    RankedIsAcyclic(g, rank, 1);
  }

  /** Creating the tag lifts the missing tag. */
  lemma TagMissingLifts(policy: Policy, v: V.Version)
    ensures CanBeLifted(policy, v, TagMissing)
  {
    var id := "c";
    var before, after := FirstCommit(id, policy), TaggedOnMain(id, policy);
    var states, steps := [before, after], [CreateTag(Tag("t"), Ref("tag", id))];
    var x := ReleaseInput(policy, v, id, Some(id));
    OneCommitIsAcyclic(id);
    FirstCommitIsMergeBase(policy, id);
    assert before.refs[Tag("t") := Ref("tag", id)] == after.refs;
    assert IsRun(policy, states, steps);
    assert Lifts(policy, v, TagMissing, states, steps, x, x);
  }

  /** Creating main lifts the missing main. */
  lemma MainRefUnavailableLifts(policy: Policy, v: V.Version)
    ensures CanBeLifted(policy, v, MainRefUnavailable)
  {
    var id := "c";
    var before, after := TaggedOnly(id), TaggedOnMain(id, policy);
    var states, steps := [before, after], [UpdateRef(MainRef(policy), Ref("commit", id))];
    var x := ReleaseInput(policy, v, id, Some(id));
    OneCommitIsAcyclic(id);
    FirstCommitIsMergeBase(policy, id);
    assert before.refs[MainRef(policy) := Ref("commit", id)] == after.refs;
    assert IsRun(policy, states, steps);
    assert Lifts(policy, v, MainRefUnavailable, states, steps, x, x);
  }

  // Two unrelated commits, main on the first and the tag on the second; a merge then joins them.

  function Apart(): Graph {
    map["a" := {}, "b" := {}]
  }

  function Joined(): Graph {
    Apart()["m" := {"a", "b"}]
  }

  function Split(graph: Graph, main: Commit, policy: Policy): Repo {
    Repo(graph, map[Tag("t") := Ref("tag", "b"), MainRef(policy) := Ref("commit", main)])
  }

  lemma GraphsAreAcyclic()
    ensures Acyclic(Apart()) && Acyclic(Joined())
  {
    var rank: map<Commit, nat> := map["a" := 0, "b" := 0];
    RankedIsAcyclic(Apart(), rank, 1);
    CommitKeepsAcyclic(Apart(), "m", {"a", "b"});
  }

  lemma JoinedAncestors()
    ensures Ancestor(Joined(), "a", "m") && Ancestor(Joined(), "b", "m")
  {
    ParentIsAncestor(Joined(), "a", "m");
    ParentIsAncestor(Joined(), "b", "m");
  }

  lemma JoinedBase()
    ensures MergeBaseAnswer(Joined(), "b", "m", Some("b"))
  {
    GraphsAreAcyclic();
    JoinedAncestors();
    MergeBaseTheorem(Joined(), "b", "m");
  }

  lemma MergeRuns(policy: Policy)
    ensures IsRun(policy, [Split(Apart(), "a", policy), Split(Joined(), "a", policy), Split(Joined(), "m", policy)],
                  [Commit("m", {"a", "b"}), UpdateRef(MainRef(policy), Ref("commit", "m"))])
  {
    GraphsAreAcyclic();
    JoinedAncestors();
    var last := Split(Joined(), "a", policy).refs[MainRef(policy) := Ref("commit", "m")];
    assert last == Split(Joined(), "m", policy).refs;
  }

  /** Advancing main to a merge lifts the source outside main. */
  lemma SourceOutsideMainLifts(policy: Policy, v: V.Version)
    ensures CanBeLifted(policy, v, SourceOutsideMain)
  {
    var states := [Split(Apart(), "a", policy), Split(Joined(), "a", policy), Split(Joined(), "m", policy)];
    var steps := [Commit("m", {"a", "b"}), UpdateRef(MainRef(policy), Ref("commit", "m"))];
    var x, y := ReleaseInput(policy, v, "b", None), ReleaseInput(policy, v, "b", Some("b"));
    MergeRuns(policy);
    JoinedBase();
    assert Lifts(policy, v, SourceOutsideMain, states, steps, x, y);
  }

  /** Under every policy and for every version, exactly the curable codes can be lifted by a run. */
  lemma CurableExactly(policy: Policy, v: V.Version, code: Code)
    ensures CanBeLifted(policy, v, code) <==> Curable(code)
  {
    match code {
      case TagMissing => TagMissingLifts(policy, v);
      case MainRefUnavailable => MainRefUnavailableLifts(policy, v);
      case SourceOutsideMain => SourceOutsideMainLifts(policy, v);
      case _ =>
        forall states, steps, x, y ensures !Lifts(policy, v, code, states, steps, x, y) {
          if Lifts(policy, v, code, states, steps, x, y) {
            CodesPersist(policy, states, steps, 0, |steps|, x, y, v, code);
          }
        }
    }
  }
}

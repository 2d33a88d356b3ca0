/** Build provenance and image verification.  SHA-256 and canonical JSON are parameters: what is
    proved needs no more of them than the statements say. */
module Provenance {
  import opened Wrappers
  import opened Utf8
  import opened Text
  import Manifest
  import Versions
  import opened Requirements
  import opened ManifestRendering

  // ---- JSON records ----

  /** The keys the scripts name; every other key is `Other`. */
  datatype Key =
    | SchemaVersion | Status | SourceCommit | SourceBound | BaseImageDigest | DependencyManifest
    | Wheel | Toolchain | RuntimeSystemManifest | BuilderEnvironment | BuilderDependencyManifest
    | NonClaims | EvidenceDigest
    | Filename | Sha256 | SizeBytes | RequirementList | Packages | PackageCount
    | Version | PythonTool | MaturinTool | UvTool
    | Other(name: string)

  /** A decoded JSON value.  A number carries the text Python prints for it. */
  datatype Json =
    | Null
    | Bool(bool)
    | Number(text: string)
    | Str(text: string)
    | Arr(items: seq<Json>)
    | Obj(fields: map<Key, Json>)

  function Get(fields: map<Key, Json>, key: Key, default: Json): Json {
    if key in fields then fields[key] else default
  }

  /** `str(value)`; a container prints with a leading bracket, which no digest has. */
  function PyStr(value: Json): string {
    match value
    case Null => "None"
    case Bool(b) => if b then "True" else "False"
    case Number(t) => t
    case Str(s) => s
    case Arr(_) => "["
    case Obj(_) => "{"
  }

  datatype Digests = Digests(sha256: seq<Byte> -> string, canonical: Json -> seq<Byte>)

  predicate IsLowerHex(c: char) {
    '0' <= c <= '9' || 'a' <= c <= 'f'
  }

  predicate IsHexString(s: string, n: nat) {
    |s| == n && forall i | 0 <= i < n :: IsLowerHex(s[i])
  }

  ghost predicate HexDigests(d: Digests) {
    forall bs :: IsHexString(d.sha256(bs), 64)
  }

  function RecordDigest(d: Digests, fields: map<Key, Json>): string {
    d.sha256(d.canonical(Obj(fields)))
  }

  // ---- Inputs ----

  datatype ProvenanceError =
    | InvalidCommit | InvalidDigest | InvalidSha256
    | InvalidManifest(error: Manifest.ManifestError) | InvalidApkManifest | NotUtf8
    | ManifestMismatch
    | BuilderDigestRequired | BuilderMismatch | BuilderManifestRequired
    | ApkDigestRequired | ApkMismatch
    | NotAnObject | AttributeError

  datatype File = File(name: string, bytes: seq<Byte>)

  datatype Tool = Tool(version: string, sha256: string)

  datatype BuildInputs = BuildInputs(
    sourceCommit: string,
    baseDigest: string,
    manifest: File,
    expectedManifest: string,
    wheel: File,
    python: Tool, maturin: Tool, uv: Tool,
    apk: Option<File>,
    expectedApk: Option<string>,
    builderEnvironment: Option<File>,
    builderDependencies: Option<File>,
    expectedBuilderDependencies: Option<string>)

  datatype ImageInputs = ImageInputs(
    manifest: File,
    expectedCommit: string,
    expectedBase: string,
    imageDigest: string,
    apk: Option<File>,
    builderDependencies: Option<File>)

  /** The all-zero commit, which stands for an unknown source. */
  predicate Unbound(commit: string) {
    |commit| == 40 && forall i | 0 <= i < 40 :: commit[i] == '0'
  }

  function Normal(s: string): string {
    LowerText(Strip(s))
  }

  function RequireCommit(value: string): Result<string, ProvenanceError> {
    if IsHexString(Normal(value), 40) then Ok(Normal(value)) else Err(InvalidCommit)
  }

  predicate IsDigest(s: string) {
    |s| == 71 && s[..7] == "sha256:" && IsHexString(s[7..], 64)
  }

  function RequireDigest(value: string): Result<string, ProvenanceError> {
    if IsDigest(Normal(value)) then Ok(Normal(value)) else Err(InvalidDigest)
  }

  function RequireSha256(value: string): Result<string, ProvenanceError> {
    if IsHexString(Normal(value), 64) then Ok(Normal(value)) else Err(InvalidSha256)
  }

  function ReadText(file: File): Result<string, ProvenanceError> {
    match DecodeStrict(file.bytes)
    case Some(text) => Ok(text)
    case None => Err(NotUtf8)
  }

  function ReadHashedManifest(file: File): Result<seq<string>, ProvenanceError> {
    var text :- ReadText(file);
    match ParseManifest(text)
    case Ok(requirements) => Ok(requirements)
    case Err(e) => Err(InvalidManifest(e))
  }

  predicate IsApkName(s: string) {
    s != "" && IsAlnum(s[0]) && forall i | 0 <= i < |s| :: IsNameChar(s[i]) || s[i] == '+'
  }

  predicate IsApkPin(s: string) {
    exists k | 0 <= k < |s| :: s[k] == '=' && IsApkName(s[..k]) && IsApkName(s[k + 1..])
  }

  predicate AllApkPins(packages: seq<string>) {
    forall p <- packages :: IsApkPin(p)
  }

  function ApkLines(raw: seq<string>): seq<string> {
    if raw == [] then []
    else (if Manifest.Skipped(Strip(raw[0])) then [] else [Strip(raw[0])]) + ApkLines(raw[1..])
  }

  function ReadApkManifest(file: File): Result<seq<string>, ProvenanceError> {
    var text :- ReadText(file);
    var packages := ApkLines(SplitLines(text));
    :- Need(packages != [] && AllApkPins(packages) && Distinct(packages), InvalidApkManifest);
    Ok(packages)
  }

  // ---- build_provenance ----

  function Texts(items: seq<string>): Json {
    Arr(seq(|items|, i requires 0 <= i < |items| => Str(items[i])))
  }

  function FileEvidence(d: Digests, file: File): map<Key, Json> {
    map[Filename := Str(file.name), Sha256 := Str(d.sha256(file.bytes)),
        SizeBytes := Number(Versions.Digits(|file.bytes|))]
  }

  function ToolEvidence(tool: Tool): Result<Json, ProvenanceError> {
    var sha :- RequireSha256(tool.sha256);
    Ok(Obj(map[Version := Str(Strip(tool.version)), Sha256 := Str(sha)]))
  }

  function ToolchainEvidence(x: BuildInputs): Result<Json, ProvenanceError> {
    var python :- ToolEvidence(x.python);
    var maturin :- ToolEvidence(x.maturin);
    var uv :- ToolEvidence(x.uv);
    Ok(Obj(map[PythonTool := python, MaturinTool := maturin, UvTool := uv]))
  }

  function BuilderEvidence(d: Digests, x: BuildInputs): Result<Json, ProvenanceError> {
    match x.builderDependencies
    case None =>
      :- Need(x.expectedBuilderDependencies.None?, BuilderManifestRequired);
      Ok(Null)
    case Some(file) =>
      var requirements :- ReadHashedManifest(file);
      :- Need(x.expectedBuilderDependencies.Some?, BuilderDigestRequired);
      var expected :- RequireSha256(x.expectedBuilderDependencies.value);
      :- Need(d.sha256(file.bytes) == expected, BuilderMismatch);
      Ok(BuilderRecord(d, file, requirements))
  }

  function BuilderRecord(d: Digests, file: File, requirements: seq<string>): Json {
    Obj(FileEvidence(d, file)[RequirementList := Texts(requirements)])
  }

  /** Unlike the builder manifest, an expected digest without a manifest is not an error here. */
  function ApkEvidence(d: Digests, x: BuildInputs): Result<Json, ProvenanceError> {
    match x.apk
    case None => Ok(Null)
    case Some(file) =>
      var packages :- ReadApkManifest(file);
      :- Need(x.expectedApk.Some?, ApkDigestRequired);
      var expected :- RequireSha256(x.expectedApk.value);
      :- Need(d.sha256(file.bytes) == expected, ApkMismatch);
      Ok(Obj(map[Filename := Str(file.name), Sha256 := Str(d.sha256(file.bytes)), Packages := Texts(packages)]))
  }

  function NonEmpty(lines: seq<string>): nat {
    if lines == [] then 0 else (if lines[0] == "" then 0 else 1) + NonEmpty(lines[1..])
  }

  function EnvironmentEvidence(d: Digests, x: BuildInputs): Result<Json, ProvenanceError> {
    match x.builderEnvironment
    case None => Ok(Null)
    case Some(file) =>
      var text :- ReadText(file);
      Ok(Obj(map[Filename := Str(file.name), Sha256 := Str(d.sha256(file.bytes)),
                 PackageCount := Number(Versions.Digits(NonEmpty(SplitLines(text))))]))
  }

  datatype BuildIdentity = BuildIdentity(commit: string, base: string, toolchain: Json)

  /** The fields a build depends on, once they have been checked. */
  datatype BuildFacts = BuildFacts(
    id: BuildIdentity, builder: Json, apk: Json, environment: Json)

  function CheckIdentity(d: Digests, x: BuildInputs): Result<BuildIdentity, ProvenanceError> {
    var commit :- RequireCommit(x.sourceCommit);
    var base :- RequireDigest(x.baseDigest);
    var expected :- RequireSha256(x.expectedManifest);
    var toolchain :- ToolchainEvidence(x);
    var _ :- ReadHashedManifest(x.manifest);
    :- Need(d.sha256(x.manifest.bytes) == expected, ManifestMismatch);
    Ok(BuildIdentity(commit, base, toolchain))
  }

  function CheckBuild(d: Digests, x: BuildInputs): Result<BuildFacts, ProvenanceError> {
    FirstError(CheckIdentity(d, x), BuilderEvidence(d, x), ApkEvidence(d, x), EnvironmentEvidence(d, x))
  }

  /** The steps of a build in their order; the first error is the one that is raised. */
  function FirstError(
    id: Result<BuildIdentity, ProvenanceError>, builder: Result<Json, ProvenanceError>,
    apk: Result<Json, ProvenanceError>, environment: Result<Json, ProvenanceError>)
    : (r: Result<BuildFacts, ProvenanceError>)
    ensures r.Ok? <==> id.Ok? && builder.Ok? && apk.Ok? && environment.Ok?
    ensures r.Ok? ==> Ok(r.value.id) == id && Ok(r.value.builder) == builder && Ok(r.value.apk) == apk
  {
    var i :- id;
    var b :- builder;
    var a :- apk;
    var e :- environment;
    Ok(BuildFacts(i, b, a, e))
  }

  function Payload(d: Digests, x: BuildInputs, f: BuildFacts): map<Key, Json> {
    map[
      SchemaVersion := Number("1"),
      Status := Str(if Unbound(f.id.commit) then "unbound" else "pass"),
      SourceCommit := Str(f.id.commit),
      SourceBound := Bool(!Unbound(f.id.commit)),
      BaseImageDigest := Str(f.id.base),
      DependencyManifest := Obj(FileEvidence(d, x.manifest)),
      Wheel := Obj(FileEvidence(d, x.wheel)),
      Toolchain := f.id.toolchain,
      RuntimeSystemManifest := f.apk,
      BuilderEnvironment := f.environment,
      BuilderDependencyManifest := f.builder,
      NonClaims := Arr([])
    ]
  }

  function BuildProvenance(d: Digests, x: BuildInputs): Result<map<Key, Json>, ProvenanceError> {
    var f :- CheckBuild(d, x);
    var payload := Payload(d, x, f);
    Ok(payload[EvidenceDigest := Str(RecordDigest(d, payload))])
  }

  // ---- build_image_report ----

  predicate DigestIsValid(d: Digests, fields: map<Key, Json>) {
    var expected := PyStr(Get(fields, EvidenceDigest, Str("")));
    IsHexString(expected, 64) && RecordDigest(d, fields - {EvidenceDigest}) == expected
  }

  /** `provenance.get(key, {}).get("sha256", default)`: only an object has `get`. */
  function NestedSha(fields: map<Key, Json>, key: Key, default: Json): Result<Json, ProvenanceError> {
    match Get(fields, key, Obj(map[]))
    case Obj(inner) => Ok(Get(inner, Sha256, default))
    case _ => Err(AttributeError)
  }

  datatype Checks = Checks(
    base: bool, manifest: bool, provenance: bool, commit: bool, wheel: bool, builder: Option<bool>, apk: Option<bool>)
  {
    predicate All() {
      base && manifest && provenance && commit && wheel && builder != Some(false) && apk != Some(false)
    }
  }

  datatype ImageReport = ImageReport(
    passed: bool, checks: Checks, expectations: Expectations, manifestSha: string, provenanceDigest: Json)

  function BuilderCheck(d: Digests, fields: map<Key, Json>, file: Option<File>): Result<Option<bool>, ProvenanceError> {
    match file
    case None => Ok(None)
    case Some(f) =>
      var _ :- ReadHashedManifest(f);
      var sha :- NestedSha(fields, BuilderDependencyManifest, Null);
      Ok(Some(sha == Str(d.sha256(f.bytes))))
  }

  function ApkCheck(d: Digests, fields: map<Key, Json>, file: Option<File>): Result<Option<bool>, ProvenanceError> {
    match file
    case None => Ok(None)
    case Some(f) =>
      var _ :- ReadApkManifest(f);
      var sha :- NestedSha(fields, RuntimeSystemManifest, Null);
      Ok(Some(sha == Str(d.sha256(f.bytes))))
  }

  datatype Expectations = Expectations(commit: string, base: string, image: string)

  function RequireExpectations(y: ImageInputs): Result<Expectations, ProvenanceError> {
    var commit :- RequireCommit(y.expectedCommit);
    var base :- RequireDigest(y.expectedBase);
    var image :- RequireDigest(y.imageDigest);
    Ok(Expectations(commit, base, image))
  }

  function RunChecks(
    d: Digests, fields: map<Key, Json>, e: Expectations, y: ImageInputs): Result<Checks, ProvenanceError>
  {
    var manifest :- NestedSha(fields, DependencyManifest, Null);
    var wheel :- NestedSha(fields, Wheel, Str(""));
    var builder :- BuilderCheck(d, fields, y.builderDependencies);
    var apk :- ApkCheck(d, fields, y.apk);
    Ok(Checks(
      Get(fields, BaseImageDigest, Null) == Str(e.base),
      manifest == Str(d.sha256(y.manifest.bytes)),
      Get(fields, Status, Null) == Str("pass") && DigestIsValid(d, fields),
      Get(fields, SourceCommit, Null) == Str(e.commit),
      IsHexString(PyStr(wheel), 64),
      builder,
      apk))
  }

  function BuildImageReport(d: Digests, provenance: Json, y: ImageInputs): Result<ImageReport, ProvenanceError> {
    var e :- RequireExpectations(y);
    :- Need(provenance.Obj?, NotAnObject);
    var checks :- RunChecks(d, provenance.fields, e, y);
    Ok(ImageReport(checks.All(), checks, e, d.sha256(y.manifest.bytes),
                   Get(provenance.fields, EvidenceDigest, Str(""))))
  }

  ghost predicate Passes(d: Digests, provenance: Json, y: ImageInputs) {
    BuildImageReport(d, provenance, y).Ok? && BuildImageReport(d, provenance, y).value.passed
  }

  // ---- The chain ----

  lemma EvidenceIsValid(d: Digests, payload: map<Key, Json>)
    requires HexDigests(d) && EvidenceDigest !in payload
    ensures DigestIsValid(d, payload[EvidenceDigest := Str(RecordDigest(d, payload))])
  {
    var sealed := payload[EvidenceDigest := Str(RecordDigest(d, payload))];
    assert sealed - {EvidenceDigest} == payload;
  }

  /** What an image report reads of a record: its plain fields and its nested digests. */
  ghost predicate Holds(
    d: Digests, fields: map<Key, Json>, commit: string, base: string, manifest: seq<Byte>,
    builder: Option<File>, apk: Option<File>)
  {
    DigestIsValid(d, fields) && HoldsPlain(fields, commit, base) && HoldsNested(d, fields, manifest, builder, apk)
  }

  ghost predicate HoldsPlain(fields: map<Key, Json>, commit: string, base: string) {
    && Get(fields, Status, Null) == Str(if Unbound(commit) then "unbound" else "pass")
    && Get(fields, SourceCommit, Null) == Str(commit)
    && Get(fields, BaseImageDigest, Null) == Str(base)
  }

  ghost predicate HoldsNested(
    d: Digests, fields: map<Key, Json>, manifest: seq<Byte>, builder: Option<File>, apk: Option<File>)
  {
    && NestedSha(fields, DependencyManifest, Null) == Ok(Str(d.sha256(manifest)))
    && NestedSha(fields, Wheel, Str("")).Ok? && IsHexString(PyStr(NestedSha(fields, Wheel, Str("")).value), 64)
    && NestedSha(fields, BuilderDependencyManifest, Null) == RecordedSha(d, builder)
    && NestedSha(fields, RuntimeSystemManifest, Null) == RecordedSha(d, apk)
  }

  /** A missing optional manifest was recorded as `None`, which has no `get`. */
  function RecordedSha(d: Digests, file: Option<File>): Result<Json, ProvenanceError> {
    if file.None? then Err(AttributeError) else Ok(Str(d.sha256(file.value.bytes)))
  }

  function ShaOf(j: Json): Result<Json, ProvenanceError> {
    if j.Obj? then Ok(Get(j.fields, Sha256, Null)) else Err(AttributeError)
  }

  lemma BuilderRecordSha(d: Digests, file: File, requirements: seq<string>)
    ensures ShaOf(BuilderRecord(d, file, requirements)) == Ok(Str(d.sha256(file.bytes)))
  {
  }

  lemma BuiltBuilder(d: Digests, x: BuildInputs)
    requires BuilderEvidence(d, x).Ok?
    ensures ShaOf(BuilderEvidence(d, x).value) == RecordedSha(d, x.builderDependencies)
    ensures x.builderDependencies.Some? ==> ReadHashedManifest(x.builderDependencies.value).Ok?
  {
    if x.builderDependencies.Some? {
      var file := x.builderDependencies.value;
      assert ReadHashedManifest(file).Ok?;
      BuilderRecordSha(d, file, ReadHashedManifest(file).value);
    }
  }

  lemma BuiltApk(d: Digests, x: BuildInputs)
    requires ApkEvidence(d, x).Ok?
    ensures ShaOf(ApkEvidence(d, x).value) == RecordedSha(d, x.apk)
    ensures x.apk.Some? ==> ReadApkManifest(x.apk.value).Ok?
  {
  }

  lemma PayloadHoldsPlain(d: Digests, x: BuildInputs, f: BuildFacts, seal: Json)
    ensures HoldsPlain(Payload(d, x, f)[EvidenceDigest := seal], f.id.commit, f.id.base)
  {
  }

  lemma PayloadHoldsNested(d: Digests, x: BuildInputs, f: BuildFacts, seal: Json)
    requires HexDigests(d)
    requires ShaOf(f.builder) == RecordedSha(d, x.builderDependencies) && ShaOf(f.apk) == RecordedSha(d, x.apk)
    ensures HoldsNested(d, Payload(d, x, f)[EvidenceDigest := seal], x.manifest.bytes, x.builderDependencies, x.apk)
  {
  }

  lemma CheckedIdentity(d: Digests, x: BuildInputs)
    requires CheckIdentity(d, x).Ok?
    ensures var id := CheckIdentity(d, x).value;
            RequireCommit(x.sourceCommit) == Ok(id.commit) && RequireDigest(x.baseDigest) == Ok(id.base)
  {
  }

  lemma CheckedBuild(d: Digests, x: BuildInputs)
    requires CheckBuild(d, x).Ok?
    ensures var f := CheckBuild(d, x).value;
            CheckIdentity(d, x) == Ok(f.id) && BuilderEvidence(d, x) == Ok(f.builder) && ApkEvidence(d, x) == Ok(f.apk)
  {
  }

  lemma SealedHolds(d: Digests, x: BuildInputs, f: BuildFacts)
    requires HexDigests(d)
    requires ShaOf(f.builder) == RecordedSha(d, x.builderDependencies) && ShaOf(f.apk) == RecordedSha(d, x.apk)
    ensures var payload := Payload(d, x, f);
            Holds(d, payload[EvidenceDigest := Str(RecordDigest(d, payload))], f.id.commit, f.id.base, x.manifest.bytes,
                  x.builderDependencies, x.apk)
  {
    var seal := Str(RecordDigest(d, Payload(d, x, f)));
    EvidenceIsValid(d, Payload(d, x, f));
    PayloadHoldsPlain(d, x, f, seal);
    PayloadHoldsNested(d, x, f, seal);
  }

  lemma BuiltRecordHolds(d: Digests, x: BuildInputs)
    requires HexDigests(d) && BuildProvenance(d, x).Ok?
    ensures Holds(d, BuildProvenance(d, x).value, Normal(x.sourceCommit), Normal(x.baseDigest), x.manifest.bytes,
                  x.builderDependencies, x.apk)
    ensures EvidenceDigest in BuildProvenance(d, x).value
    ensures x.builderDependencies.Some? ==> ReadHashedManifest(x.builderDependencies.value).Ok?
    ensures x.apk.Some? ==> ReadApkManifest(x.apk.value).Ok?
    ensures RequireCommit(x.sourceCommit).Ok? && RequireDigest(x.baseDigest).Ok?
  {
    CheckedBuild(d, x);
    CheckedIdentity(d, x);
    BuiltBuilder(d, x);
    BuiltApk(d, x);
    SealedHolds(d, x, CheckBuild(d, x).value);
  }

  /** Every optional manifest presented was recorded with the same digest. */
  ghost predicate Records(d: Digests, recorded: Option<File>, presented: Option<File>) {
    presented.Some? ==> recorded.Some? && d.sha256(presented.value.bytes) == d.sha256(recorded.value.bytes)
  }

  /** The image inputs the report reads without complaint. */
  ghost predicate Readable(y: ImageInputs) {
    && RequireCommit(y.expectedCommit).Ok? && RequireDigest(y.expectedBase).Ok? && RequireDigest(y.imageDigest).Ok?
    && (y.builderDependencies.Some? ==> ReadHashedManifest(y.builderDependencies.value).Ok?)
    && (y.apk.Some? ==> ReadApkManifest(y.apk.value).Ok?)
  }

  ghost predicate SameBuild(d: Digests, x: BuildInputs, y: ImageInputs) {
    && Normal(y.expectedCommit) == Normal(x.sourceCommit) && !Unbound(Normal(x.sourceCommit))
    && Normal(y.expectedBase) == Normal(x.baseDigest)
    && d.sha256(y.manifest.bytes) == d.sha256(x.manifest.bytes)
    && Records(d, x.builderDependencies, y.builderDependencies)
    && Records(d, x.apk, y.apk)
  }

  lemma RunChecksExactly(d: Digests, fields: map<Key, Json>, e: Expectations, y: ImageInputs,
                         commit: string, base: string, manifest: seq<Byte>, builder: Option<File>, apk: Option<File>)
    requires Holds(d, fields, commit, base, manifest, builder, apk)
    ensures RunChecks(d, fields, e, y).Ok? && RunChecks(d, fields, e, y).value.All()
            <==> && e.commit == commit && !Unbound(commit) && e.base == base
                 && d.sha256(y.manifest.bytes) == d.sha256(manifest)
                 && (y.builderDependencies.Some? ==> ReadHashedManifest(y.builderDependencies.value).Ok?)
                 && (y.apk.Some? ==> ReadApkManifest(y.apk.value).Ok?)
                 && Records(d, builder, y.builderDependencies) && Records(d, apk, y.apk)
  {
    BuilderCheckExactly(d, fields, y.builderDependencies, builder);
    ApkCheckExactly(d, fields, y.apk, apk);
    assert "unbound"[0] != "pass"[0];
  }

  lemma BuilderCheckExactly(d: Digests, fields: map<Key, Json>, presented: Option<File>, recorded: Option<File>)
    requires NestedSha(fields, BuilderDependencyManifest, Null) == RecordedSha(d, recorded)
    ensures BuilderCheck(d, fields, presented).Ok? && BuilderCheck(d, fields, presented).value != Some(false)
            <==> (presented.Some? ==> ReadHashedManifest(presented.value).Ok?) && Records(d, recorded, presented)
    ensures presented.Some? && ReadHashedManifest(presented.value).Ok? && recorded.None?
            ==> BuilderCheck(d, fields, presented) == Err(AttributeError)
  {
  }

  lemma ApkCheckExactly(d: Digests, fields: map<Key, Json>, presented: Option<File>, recorded: Option<File>)
    requires NestedSha(fields, RuntimeSystemManifest, Null) == RecordedSha(d, recorded)
    ensures ApkCheck(d, fields, presented).Ok? && ApkCheck(d, fields, presented).value != Some(false)
            <==> (presented.Some? ==> ReadApkManifest(presented.value).Ok?) && Records(d, recorded, presented)
    ensures presented.Some? && ReadApkManifest(presented.value).Ok? && recorded.None?
            ==> ApkCheck(d, fields, presented) == Err(AttributeError)
  {
  }

  /** An image report on a record that `build_provenance` wrote passes exactly when the inputs are
      readable and agree: same non-zero commit, same base, same digests, and every optional
      manifest presented now was recorded then. */
  lemma PassesExactly(d: Digests, x: BuildInputs, y: ImageInputs)
    requires HexDigests(d) && BuildProvenance(d, x).Ok?
    ensures Passes(d, Obj(BuildProvenance(d, x).value), y) <==> Readable(y) && SameBuild(d, x, y)
  {
    var fields := BuildProvenance(d, x).value;
    BuiltRecordHolds(d, x);
    if RequireExpectations(y).Ok? {
      RunChecksExactly(d, fields, RequireExpectations(y).value, y, Normal(x.sourceCommit), Normal(x.baseDigest),
                       x.manifest.bytes, x.builderDependencies, x.apk);
    }
  }

  /** The inputs of a build, presented again for verification. */
  function Same(x: BuildInputs, imageDigest: string): ImageInputs {
    ImageInputs(x.manifest, x.sourceCommit, x.baseDigest, imageDigest, x.apk, x.builderDependencies)
  }

  lemma BuildThenVerifyPasses(d: Digests, x: BuildInputs, imageDigest: string)
    requires HexDigests(d) && BuildProvenance(d, x).Ok?
    requires !Unbound(Normal(x.sourceCommit)) && RequireDigest(imageDigest).Ok?
    ensures Passes(d, Obj(BuildProvenance(d, x).value), Same(x, imageDigest))
  {
    BuiltRecordHolds(d, x);
    PassesExactly(d, x, Same(x, imageDigest));
  }

  /** An optional manifest is presented that was recorded as absent. */
  ghost predicate PresentsUnrecorded(x: BuildInputs, y: ImageInputs) {
    (x.builderDependencies.None? && y.builderDependencies.Some?) || (x.apk.None? && y.apk.Some?)
  }

  lemma ChecksRaiseExactly(
    d: Digests, fields: map<Key, Json>, e: Expectations, y: ImageInputs, builder: Option<File>, apk: Option<File>)
    requires NestedSha(fields, DependencyManifest, Null).Ok? && NestedSha(fields, Wheel, Str("")).Ok?
    requires NestedSha(fields, BuilderDependencyManifest, Null) == RecordedSha(d, builder)
    requires NestedSha(fields, RuntimeSystemManifest, Null) == RecordedSha(d, apk)
    requires y.builderDependencies.Some? ==> ReadHashedManifest(y.builderDependencies.value).Ok?
    requires y.apk.Some? ==> ReadApkManifest(y.apk.value).Ok?
    ensures var raises := (builder.None? && y.builderDependencies.Some?) || (apk.None? && y.apk.Some?);
            && (RunChecks(d, fields, e, y) == Err(AttributeError) <==> raises)
            && (RunChecks(d, fields, e, y).Ok? <==> !raises)
  {
    BuilderCheckExactly(d, fields, y.builderDependencies, builder);
    ApkCheckExactly(d, fields, y.apk, apk);
  }

  /** On readable inputs the report on a built record raises exactly when an optional manifest is
      presented that was recorded as absent. */
  lemma RaisesExactly(d: Digests, x: BuildInputs, y: ImageInputs)
    requires HexDigests(d) && BuildProvenance(d, x).Ok? && Readable(y)
    ensures BuildImageReport(d, Obj(BuildProvenance(d, x).value), y) == Err(AttributeError)
            <==> PresentsUnrecorded(x, y)
    ensures BuildImageReport(d, Obj(BuildProvenance(d, x).value), y).Ok? <==> !PresentsUnrecorded(x, y)
  {
    var fields := BuildProvenance(d, x).value;
    BuiltRecordHolds(d, x);
    ChecksRaiseExactly(d, fields, RequireExpectations(y).value, y, x.builderDependencies, x.apk);
  }

  // ---- Records of any origin ----

  /** The digest a record carries for an optional manifest that is presented. */
  ghost predicate AgreesOn(d: Digests, fields: map<Key, Json>, key: Key, file: Option<File>) {
    file.Some? ==> NestedSha(fields, key, Null) == Ok(Str(d.sha256(file.value.bytes)))
  }

  /** The record claims to have passed, is sealed, and names the expected commit, base and contents. */
  ghost predicate Agrees(d: Digests, fields: map<Key, Json>, y: ImageInputs) {
    && Get(fields, Status, Null) == Str("pass") && DigestIsValid(d, fields)
    && Get(fields, SourceCommit, Null) == Str(Normal(y.expectedCommit))
    && Get(fields, BaseImageDigest, Null) == Str(Normal(y.expectedBase))
    && AgreesOn(d, fields, DependencyManifest, Some(y.manifest))
    && NestedSha(fields, Wheel, Str("")).Ok? && IsHexString(PyStr(NestedSha(fields, Wheel, Str("")).value), 64)
    && AgreesOn(d, fields, BuilderDependencyManifest, y.builderDependencies)
    && AgreesOn(d, fields, RuntimeSystemManifest, y.apk)
  }

  lemma BuilderCheckOnAny(d: Digests, fields: map<Key, Json>, file: Option<File>)
    ensures BuilderCheck(d, fields, file).Ok? && BuilderCheck(d, fields, file).value != Some(false)
            <==> (file.Some? ==> ReadHashedManifest(file.value).Ok?)
                 && AgreesOn(d, fields, BuilderDependencyManifest, file)
  {
  }

  lemma ApkCheckOnAny(d: Digests, fields: map<Key, Json>, file: Option<File>)
    ensures ApkCheck(d, fields, file).Ok? && ApkCheck(d, fields, file).value != Some(false)
            <==> (file.Some? ==> ReadApkManifest(file.value).Ok?) && AgreesOn(d, fields, RuntimeSystemManifest, file)
  {
  }

  lemma RunChecksOnAny(d: Digests, fields: map<Key, Json>, y: ImageInputs)
    requires RequireExpectations(y).Ok?
    ensures var r := RunChecks(d, fields, RequireExpectations(y).value, y);
            r.Ok? && r.value.All()
            <==> && Agrees(d, fields, y)
                 && (y.builderDependencies.Some? ==> ReadHashedManifest(y.builderDependencies.value).Ok?)
                 && (y.apk.Some? ==> ReadApkManifest(y.apk.value).Ok?)
  {
    BuilderCheckOnAny(d, fields, y.builderDependencies);
    ApkCheckOnAny(d, fields, y.apk);
  }

  /** Any JSON value passes exactly when it is an object that agrees with readable inputs. */
  lemma RecordPassesExactly(d: Digests, provenance: Json, y: ImageInputs)
    ensures Passes(d, provenance, y) <==> provenance.Obj? && Readable(y) && Agrees(d, provenance.fields, y)
  {
    if RequireExpectations(y).Ok? && provenance.Obj? {
      RunChecksOnAny(d, provenance.fields, y);
    }
  }

  /** A record that `build_provenance` wrote claims to have passed exactly when its commit is bound. */
  lemma BuiltStatusExactly(d: Digests, x: BuildInputs)
    requires HexDigests(d) && BuildProvenance(d, x).Ok?
    ensures var fields := BuildProvenance(d, x).value;
            && Get(fields, SourceCommit, Null) == Str(Normal(x.sourceCommit))
            && (Get(fields, Status, Null) == Str("pass") <==> !Unbound(Normal(x.sourceCommit)))
  {
    BuiltRecordHolds(d, x);
    assert "unbound"[0] != "pass"[0];
  }

  /** So the all-zero commit verifies exactly when a record of another origin claims it: one that
      agrees on everything, and that no build wrote. */
  lemma UnboundPassesExactly(d: Digests, fields: map<Key, Json>, y: ImageInputs)
    requires HexDigests(d) && Unbound(Normal(y.expectedCommit))
    ensures Passes(d, Obj(fields), y)
            <==> Readable(y) && Agrees(d, fields, y) && forall x :: BuildProvenance(d, x) != Ok(fields)
  {
    RecordPassesExactly(d, Obj(fields), y);
    if Agrees(d, fields, y) {
      forall x | BuildProvenance(d, x) == Ok(fields) ensures false {
        BuiltStatusExactly(d, x);
      }
    }
  }

  function ShaObject(sha: string): Json {
    Obj(map[Sha256 := Str(sha)])
  }

  /** The fields a report reads, written down without a build. */
  function Claim(d: Digests, y: ImageInputs): map<Key, Json> {
    map[
      Status := Str("pass"),
      SourceCommit := Str(Normal(y.expectedCommit)),
      BaseImageDigest := Str(Normal(y.expectedBase)),
      DependencyManifest := ShaObject(d.sha256(y.manifest.bytes)),
      Wheel := ShaObject(d.sha256([]))
    ]
  }

  function SealedClaim(d: Digests, y: ImageInputs): map<Key, Json> {
    Claim(d, y)[EvidenceDigest := Str(RecordDigest(d, Claim(d, y)))]
  }

  lemma SealedClaimAgrees(d: Digests, y: ImageInputs, seal: Json)
    requires HexDigests(d) && y.builderDependencies.None? && y.apk.None?
    requires DigestIsValid(d, Claim(d, y)[EvidenceDigest := seal])
    ensures Agrees(d, Claim(d, y)[EvidenceDigest := seal], y)
  {
  }

  /** There is such a record for every commit, the all-zero one included. */
  lemma SealedClaimPasses(d: Digests, y: ImageInputs)
    requires HexDigests(d) && Readable(y) && y.builderDependencies.None? && y.apk.None?
    ensures Passes(d, Obj(SealedClaim(d, y)), y)
  {
    EvidenceIsValid(d, Claim(d, y));
    SealedClaimAgrees(d, y, Str(RecordDigest(d, Claim(d, y))));
    RecordPassesExactly(d, Obj(SealedClaim(d, y)), y);
  }

  // ---- From digests to contents ----

  /** SHA-256 separates these particular inputs. */
  ghost predicate CollisionFree(d: Digests, inputs: set<seq<Byte>>) {
    forall a, b | a in inputs && b in inputs :: d.sha256(a) == d.sha256(b) ==> a == b
  }

  ghost predicate SameOptional(recorded: Option<File>, presented: Option<File>) {
    presented.Some? ==> recorded.Some? && presented.value.bytes == recorded.value.bytes
  }

  function Bytes(file: Option<File>): set<seq<Byte>> {
    if file.Some? then {file.value.bytes} else {}
  }

  function Files(x: BuildInputs, y: ImageInputs): set<seq<Byte>> {
    {x.manifest.bytes, y.manifest.bytes} + Bytes(x.apk) + Bytes(y.apk)
    + Bytes(x.builderDependencies) + Bytes(y.builderDependencies)
  }

  ghost predicate SameContents(x: BuildInputs, y: ImageInputs) {
    && Normal(y.expectedCommit) == Normal(x.sourceCommit) && !Unbound(Normal(x.sourceCommit))
    && Normal(y.expectedBase) == Normal(x.baseDigest)
    && y.manifest.bytes == x.manifest.bytes
    && SameOptional(x.apk, y.apk) && SameOptional(x.builderDependencies, y.builderDependencies)
  }

  lemma SameDigestsSameContents(d: Digests, x: BuildInputs, y: ImageInputs)
    requires SameBuild(d, x, y) && CollisionFree(d, Files(x, y))
    ensures SameContents(x, y)
  {
  }

  /** Without a collision among the files at hand and between the two records, a passing report
      that names the digest of a build's record was made from that very record, commit, base and
      manifest bytes. */
  lemma PassingReportBindsBuild(d: Digests, x: BuildInputs, built: map<Key, Json>, seen: map<Key, Json>, y: ImageInputs)
    requires HexDigests(d) && BuildProvenance(d, x) == Ok(built) && Passes(d, Obj(seen), y)
    requires Get(seen, EvidenceDigest, Null) == Get(built, EvidenceDigest, Null)
    requires forall a, b :: d.canonical(a) == d.canonical(b) ==> a == b
    requires CollisionFree(d, {SealedBytes(d, built), SealedBytes(d, seen)}) && CollisionFree(d, Files(x, y))
    ensures seen == built && SameContents(x, y)
  {
    BuiltRecordHolds(d, x);
    PassingRecordIsValid(d, seen, y);
    SameDigestSameRecord(d, built, seen);
    PassesExactly(d, x, y);
    SameDigestsSameContents(d, x, y);
  }

  /** The bytes a record's own digest is taken over. */
  function SealedBytes(d: Digests, fields: map<Key, Json>): seq<Byte> {
    d.canonical(Obj(fields - {EvidenceDigest}))
  }

  lemma PassingRecordIsValid(d: Digests, fields: map<Key, Json>, y: ImageInputs)
    requires Passes(d, Obj(fields), y)
    ensures DigestIsValid(d, fields)
  {
  }

  lemma SameDigestSameRecord(d: Digests, a: map<Key, Json>, b: map<Key, Json>)
    requires DigestIsValid(d, a) && DigestIsValid(d, b) && EvidenceDigest in a
    requires Get(a, EvidenceDigest, Null) == Get(b, EvidenceDigest, Null)
    requires forall x, y :: d.canonical(x) == d.canonical(y) ==> x == y
    requires CollisionFree(d, {SealedBytes(d, a), SealedBytes(d, b)})
    ensures a == b
  {
    var pa, pb := a - {EvidenceDigest}, b - {EvidenceDigest};
    assert EvidenceDigest in b by { assert PyStr(Null) != PyStr(a[EvidenceDigest]); }
    assert PyStr(Get(a, EvidenceDigest, Str(""))) == PyStr(Get(b, EvidenceDigest, Str("")));
    assert SealedBytes(d, a) == SealedBytes(d, b);
    assert Obj(pa) == Obj(pb);
    assert a == pa[EvidenceDigest := a[EvidenceDigest]] && b == pb[EvidenceDigest := b[EvidenceDigest]];
  }

  // ---- From a rendered manifest to a verified image ----

  lemma HexIsNormal(s: string, n: nat)
    requires IsHexString(s, n)
    ensures Normal(s) == s
  {
  }

  lemma RenderedIsReadable(file: File, rs: seq<LockedRequirement>)
    requires rs != [] && (forall r <- rs :: ValidLocked(r) && MarkerHasNoHash(r.pin))
    requires forall i, j | 0 <= i < j < |rs| :: rs[i].pin != rs[j].pin
    requires file.bytes == Encode(Render(rs))
    ensures ReadHashedManifest(file) == Ok(Shown(rs))
  {
    DecodeStrictInvertsEncode(Render(rs));
    ParseInvertsRender(rs);
  }

  /** The manifest is the rendering of distinct pins, its digest is the expected one, and every other
      input of the build is accepted, the optional manifests included. */
  ghost predicate Rendered(d: Digests, x: BuildInputs, rs: seq<LockedRequirement>) {
    && rs != [] && (forall r <- rs :: ValidLocked(r) && MarkerHasNoHash(r.pin))
    && (forall i, j | 0 <= i < j < |rs| :: rs[i].pin != rs[j].pin)
    && x.manifest.bytes == Encode(Render(rs)) && x.expectedManifest == d.sha256(x.manifest.bytes)
    && RequireCommit(x.sourceCommit).Ok? && RequireDigest(x.baseDigest).Ok? && ToolchainEvidence(x).Ok?
    && BuilderEvidence(d, x).Ok? && ApkEvidence(d, x).Ok? && EnvironmentEvidence(d, x).Ok?
  }

  lemma RenderedBuilds(d: Digests, x: BuildInputs, rs: seq<LockedRequirement>)
    requires HexDigests(d) && Rendered(d, x, rs)
    ensures BuildProvenance(d, x).Ok?
  {
    RenderedIsReadable(x.manifest, rs);
    HexIsNormal(x.expectedManifest, 64);
    assert CheckIdentity(d, x).Ok?;
  }

  /** The whole chain: distinct pins, rendered and encoded as the manifest, build a provenance record
      that verifies, whatever the digest function, the tools and the optional manifests. */
  lemma RenderedManifestVerifies(d: Digests, x: BuildInputs, rs: seq<LockedRequirement>, imageDigest: string)
    requires HexDigests(d) && Rendered(d, x, rs)
    requires !Unbound(Normal(x.sourceCommit)) && RequireDigest(imageDigest).Ok?
    ensures BuildProvenance(d, x).Ok? && Passes(d, Obj(BuildProvenance(d, x).value), Same(x, imageDigest))
  {
    RenderedBuilds(d, x, rs);
    BuildThenVerifyPasses(d, x, imageDigest);
  }

  /** Presenting the dependency manifest also as the builder's, which was recorded as absent, raises. */
  lemma UnrecordedManifestRaises(d: Digests, x: BuildInputs, rs: seq<LockedRequirement>, imageDigest: string)
    requires HexDigests(d) && Rendered(d, x, rs) && x.builderDependencies.None? && RequireDigest(imageDigest).Ok?
    ensures BuildProvenance(d, x).Ok?
    ensures BuildImageReport(d, Obj(BuildProvenance(d, x).value),
                             Same(x, imageDigest).(builderDependencies := Some(x.manifest))) == Err(AttributeError)
  {
    RenderedBuilds(d, x, rs);
    BuiltRecordHolds(d, x);
    RenderedIsReadable(x.manifest, rs);
    RaisesExactly(d, x, Same(x, imageDigest).(builderDependencies := Some(x.manifest)));
  }

  // ---- An example of such inputs ----

  function Repeat(n: nat, c: char): (s: string)
    ensures |s| == n && forall i | 0 <= i < n :: s[i] == c
  {
    if n == 0 then "" else [c] + Repeat(n - 1, c)
  }

  function ExamplePin(): LockedRequirement {
    Locked(Pin("a", "1", None), [Repeat(64, '0')])
  }

  /** One pin, a bound commit, and no optional manifest. */
  function ExampleBuild(d: Digests): BuildInputs {
    var bytes := Encode(Render([ExamplePin()]));
    var tool := Tool("1", Repeat(64, '0'));
    BuildInputs(Repeat(40, '1'), "sha256:" + Repeat(64, '0'), File("requirements.txt", bytes), d.sha256(bytes),
                File("a.whl", []), tool, tool, tool, None, None, None, None, None)
  }

  lemma ExampleDigest()
    ensures RequireDigest("sha256:" + Repeat(64, '0')).Ok?
  {
  }

  lemma ExampleToolchain(d: Digests)
    ensures ToolchainEvidence(ExampleBuild(d)).Ok?
  {
    HexIsNormal(Repeat(64, '0'), 64);
  }

  lemma ExampleCommit()
    ensures RequireCommit(Repeat(40, '1')).Ok? && !Unbound(Normal(Repeat(40, '1')))
  {
    HexIsNormal(Repeat(40, '1'), 40);
    assert Repeat(40, '1')[0] == '1';
  }

  lemma ExamplePinIsValid()
    ensures ValidLocked(ExamplePin()) && MarkerHasNoHash(ExamplePin().pin)
  {
  }

  lemma ExampleOptionals(d: Digests)
    ensures var x := ExampleBuild(d);
            BuilderEvidence(d, x).Ok? && ApkEvidence(d, x).Ok? && EnvironmentEvidence(d, x).Ok?
  {
  }

  lemma ExampleFields(d: Digests)
    ensures var x := ExampleBuild(d);
            && x.manifest.bytes == Encode(Render([ExamplePin()])) && x.expectedManifest == d.sha256(x.manifest.bytes)
            && x.sourceCommit == Repeat(40, '1') && x.baseDigest == "sha256:" + Repeat(64, '0')
  {
  }

  lemma RenderedFromOne(d: Digests, x: BuildInputs, r: LockedRequirement)
    requires ValidLocked(r) && MarkerHasNoHash(r.pin)
    requires x.manifest.bytes == Encode(Render([r])) && x.expectedManifest == d.sha256(x.manifest.bytes)
    requires RequireCommit(x.sourceCommit).Ok? && RequireDigest(x.baseDigest).Ok? && ToolchainEvidence(x).Ok?
    requires BuilderEvidence(d, x).Ok? && ApkEvidence(d, x).Ok? && EnvironmentEvidence(d, x).Ok?
    ensures Rendered(d, x, [r])
  {
  }

  /** The premises of the lemmas above can be met, for every digest function. */
  lemma ExampleIsRendered(d: Digests)
    ensures Rendered(d, ExampleBuild(d), [ExamplePin()]) && !Unbound(Normal(ExampleBuild(d).sourceCommit))
  {
    ExampleFields(d);
    ExampleCommit();
    ExampleDigest();
    ExampleToolchain(d);
    ExampleOptionals(d);
    ExamplePinIsValid();
    RenderedFromOne(d, ExampleBuild(d), ExamplePin());
  }
}

/** When a build is accepted, which error refuses it, and what its record says: stated over the inputs,
    with the alphabets spelled out. */
module BuildRules {
  import opened Wrappers
  import opened Utf8
  import opened Text
  import Manifest
  import opened Requirements
  import opened Provenance
  import SemVer
  import Versions
  import L = PinLanguage

  const HEX := "0123456789abcdef"
  const APK_MARKS := "+_.-"

  // ---- Digests and commits ----

  ghost predicate HexText(s: string, n: nat) {
    |s| == n && forall c <- s :: c in HEX
  }

  lemma HexDigitExactly(c: char)
    ensures c in HEX <==> IsLowerHex(c)
  {
  }

  lemma HexTextExactly(s: string, n: nat)
    ensures HexText(s, n) <==> IsHexString(s, n)
  {
    forall c ensures c in HEX <==> IsLowerHex(c) { HexDigitExactly(c); }
  }

  /** Trimmed and in lower case, `v` is a full commit, or a bare or a prefixed SHA-256. */
  ghost predicate CommitText(v: string) {
    HexText(Normal(v), 40)
  }

  ghost predicate ShaText(v: string) {
    HexText(Normal(v), 64)
  }

  ghost predicate DigestText(v: string) {
    exists h :: HexText(h, 64) && Normal(v) == "sha256:" + h
  }

  lemma DigestExactly(s: string)
    ensures IsDigest(s) <==> exists h :: HexText(h, 64) && s == "sha256:" + h
  {
    if IsDigest(s) {
      HexTextExactly(s[7..], 64);
      assert s == "sha256:" + s[7..];
    }
    forall h | HexText(h, 64) && s == "sha256:" + h ensures IsDigest(s) {
      HexTextExactly(h, 64);
      assert s[7..] == h && s[..7] == "sha256:";
    }
  }

  lemma RequireExactly(v: string)
    ensures RequireCommit(v) == if CommitText(v) then Ok(Normal(v)) else Err(InvalidCommit)
    ensures RequireSha256(v) == if ShaText(v) then Ok(Normal(v)) else Err(InvalidSha256)
    ensures RequireDigest(v) == if DigestText(v) then Ok(Normal(v)) else Err(InvalidDigest)
  {
    HexTextExactly(Normal(v), 40);
    HexTextExactly(Normal(v), 64);
    DigestExactly(Normal(v));
  }

  /** The commit that stands for an unknown source. */
  lemma UnboundExactly(v: string)
    ensures Unbound(v) <==> |v| == 40 && forall c <- v :: c == '0'
  {
    assert forall i | 0 <= i < |v| :: v[i] in v;
  }

  // ---- Manifests ----

  /** The file is the text of a manifest with these requirements. */
  ghost predicate ManifestOf(file: File, requirements: seq<string>) {
    exists text :: Encode(text) == file.bytes && ParseManifest(text) == Ok(requirements)
  }

  ghost predicate IsManifest(file: File) {
    exists requirements :: ManifestOf(file, requirements)
  }

  lemma ManifestReadExactly(file: File, requirements: seq<string>)
    ensures ReadHashedManifest(file) == Ok(requirements) <==> ManifestOf(file, requirements)
  {
    forall text ensures DecodeStrict(file.bytes) == Some(text) <==> Encode(text) == file.bytes {
      DecodeStrictExactly(file.bytes, text);
    }
  }

  lemma ManifestIsRead(file: File)
    ensures ReadHashedManifest(file).Ok? <==> IsManifest(file)
  {
    if ReadHashedManifest(file).Ok? { ManifestReadExactly(file, ReadHashedManifest(file).value); }
    forall requirements | ManifestOf(file, requirements) ensures ReadHashedManifest(file).Ok? {
      ManifestReadExactly(file, requirements);
    }
  }

  ghost predicate ApkName(s: string) {
    s != "" && L.Alnum(s[0]) && forall c <- s :: L.Alnum(c) || c in APK_MARKS
  }

  ghost predicate ApkPin(s: string) {
    exists name, version :: ApkName(name) && ApkName(version) && s == name + ("=" + version)
  }

  lemma ApkNameExactly(s: string)
    ensures ApkName(s) <==> IsApkName(s)
  {
    forall c ensures (L.Alnum(c) <==> IsAlnum(c)) && (L.Alnum(c) || c in APK_MARKS <==> IsNameChar(c) || c == '+') {
      L.AlnumExactly(c);
    }
  }

  lemma ApkPinSplits(s: string, k: nat)
    requires k < |s| && s[k] == '='
    ensures s == s[..k] + ("=" + s[k + 1..])
  {
  }

  lemma ApkPinIsRead(name: string, version: string)
    requires IsApkName(name) && IsApkName(version)
    ensures IsApkPin(name + ("=" + version))
  {
    var s := name + ("=" + version);
    assert s[..|name|] == name && s[|name| + 1..] == version && s[|name|] == '=';
  }

  lemma ApkPinExactly(s: string)
    ensures ApkPin(s) <==> IsApkPin(s)
  {
    if IsApkPin(s) {
      var k :| 0 <= k < |s| && s[k] == '=' && IsApkName(s[..k]) && IsApkName(s[k + 1..]);
      ApkNameExactly(s[..k]);
      ApkNameExactly(s[k + 1..]);
      ApkPinSplits(s, k);
    }
    forall name, version | ApkName(name) && ApkName(version) && s == name + ("=" + version) ensures IsApkPin(s) {
      ApkNameExactly(name);
      ApkNameExactly(version);
      ApkPinIsRead(name, version);
    }
  }

  /** The lines that are not blank and no comments, trimmed, in order. */
  lemma {:induction false} ApkLinesExactly(a: seq<string>, b: seq<string>)
    ensures ApkLines(a + b) == ApkLines(a) + ApkLines(b)
    ensures forall line: string ::
              ApkLines([line]) == if Strip(line) == "" || Strip(line)[0] == '#' then [] else [Strip(line)]
  {
    if a == [] {
      assert a + b == b;
    } else {
      assert (a + b)[1..] == a[1..] + b;
      ApkLinesExactly(a[1..], b);
    }
  }

  ghost predicate ApkManifestOf(file: File, packages: seq<string>) {
    exists text ::
      && Encode(text) == file.bytes && packages == ApkLines(SplitLines(text))
      && packages != [] && Distinct(packages) && forall p <- packages :: ApkPin(p)
  }

  ghost predicate IsApkManifest(file: File) {
    exists packages :: ApkManifestOf(file, packages)
  }

  lemma ApkReadExactly(file: File, packages: seq<string>)
    ensures ReadApkManifest(file) == Ok(packages) <==> ApkManifestOf(file, packages)
  {
    forall text ensures DecodeStrict(file.bytes) == Some(text) <==> Encode(text) == file.bytes {
      DecodeStrictExactly(file.bytes, text);
    }
    forall p ensures ApkPin(p) <==> IsApkPin(p) { ApkPinExactly(p); }
  }

  lemma ApkIsRead(file: File)
    ensures ReadApkManifest(file).Ok? <==> IsApkManifest(file)
  {
    if ReadApkManifest(file).Ok? { ApkReadExactly(file, ReadApkManifest(file).value); }
    forall packages | ApkManifestOf(file, packages) ensures ReadApkManifest(file).Ok? {
      ApkReadExactly(file, packages);
    }
  }

  // ---- Which builds are accepted ----

  /** The commit, the base digest, the expected digest and the three tools are well formed. */
  ghost predicate IdentityForm(x: BuildInputs) {
    && CommitText(x.sourceCommit) && DigestText(x.baseDigest) && ShaText(x.expectedManifest)
    && ShaText(x.python.sha256) && ShaText(x.maturin.sha256) && ShaText(x.uv.sha256)
  }

  /** The manifest is one, and it has the expected digest. */
  ghost predicate ManifestHolds(d: Digests, x: BuildInputs) {
    IsManifest(x.manifest) && Normal(x.expectedManifest) == d.sha256(x.manifest.bytes)
  }

  ghost predicate Expected(d: Digests, expected: Option<string>, file: File) {
    expected.Some? && ShaText(expected.value) && Normal(expected.value) == d.sha256(file.bytes)
  }

  ghost predicate BuilderHolds(d: Digests, x: BuildInputs) {
    match x.builderDependencies
    case None => x.expectedBuilderDependencies.None?
    case Some(file) => IsManifest(file) && Expected(d, x.expectedBuilderDependencies, file)
  }

  /** An expected digest without a manifest is accepted here. */
  ghost predicate ApkHolds(d: Digests, x: BuildInputs) {
    x.apk.Some? ==> IsApkManifest(x.apk.value) && Expected(d, x.expectedApk, x.apk.value)
  }

  ghost predicate EnvironmentHolds(x: BuildInputs) {
    x.builderEnvironment.Some? ==> exists text :: Encode(text) == x.builderEnvironment.value.bytes
  }

  lemma ToolExactly(tool: Tool)
    ensures ToolEvidence(tool)
            == if ShaText(tool.sha256) then
                 Ok(Obj(map[Version := Str(Strip(tool.version)), Sha256 := Str(Normal(tool.sha256))]))
               else Err(InvalidSha256)
  {
    RequireExactly(tool.sha256);
  }

  lemma ToolchainExactly(x: BuildInputs)
    ensures ToolchainEvidence(x).Ok? <==> ShaText(x.python.sha256) && ShaText(x.maturin.sha256) && ShaText(x.uv.sha256)
    ensures ToolchainEvidence(x).Err? ==> ToolchainEvidence(x).error == InvalidSha256
  {
    ToolExactly(x.python);
    ToolExactly(x.maturin);
    ToolExactly(x.uv);
  }

  /** The identity is accepted exactly when its parts are well formed and the manifest holds; a wrong
      digest of a well-formed build is the mismatch error. */
  lemma IdentityExactly(d: Digests, x: BuildInputs)
    ensures CheckIdentity(d, x).Ok? <==> IdentityForm(x) && ManifestHolds(d, x)
    ensures CheckIdentity(d, x) == Err(ManifestMismatch)
            <==> IdentityForm(x) && IsManifest(x.manifest) && Normal(x.expectedManifest) != d.sha256(x.manifest.bytes)
  {
    RequireExactly(x.sourceCommit);
    RequireExactly(x.baseDigest);
    RequireExactly(x.expectedManifest);
    ToolchainExactly(x);
    ManifestIsRead(x.manifest);
  }

  lemma BuilderOf(d: Digests, x: BuildInputs, file: File)
    requires x.builderDependencies == Some(file)
    ensures BuilderEvidence(d, x).Ok? <==> IsManifest(file) && Expected(d, x.expectedBuilderDependencies, file)
    ensures IsManifest(file) && x.expectedBuilderDependencies.None?
            ==> BuilderEvidence(d, x) == Err(BuilderDigestRequired)
    ensures IsManifest(file) && x.expectedBuilderDependencies.Some? && ShaText(x.expectedBuilderDependencies.value)
            && !Expected(d, x.expectedBuilderDependencies, file) ==>
              BuilderEvidence(d, x) == Err(BuilderMismatch)
  {
    ManifestIsRead(file);
    if x.expectedBuilderDependencies.Some? { RequireExactly(x.expectedBuilderDependencies.value); }
  }

  lemma BuilderExactly(d: Digests, x: BuildInputs)
    ensures BuilderEvidence(d, x).Ok? <==> BuilderHolds(d, x)
    ensures x.builderDependencies.None? && x.expectedBuilderDependencies.Some? ==>
              BuilderEvidence(d, x) == Err(BuilderManifestRequired)
  {
    if x.builderDependencies.Some? { BuilderOf(d, x, x.builderDependencies.value); }
  }

  lemma ApkExactly(d: Digests, x: BuildInputs)
    ensures ApkEvidence(d, x).Ok? <==> ApkHolds(d, x)
    ensures x.apk.Some? && IsApkManifest(x.apk.value) ==>
              && (ApkEvidence(d, x) == Err(ApkDigestRequired) <==> x.expectedApk.None?)
              && (ApkEvidence(d, x) == Err(ApkMismatch)
                  <==> x.expectedApk.Some? && ShaText(x.expectedApk.value) && !Expected(d, x.expectedApk, x.apk.value))
  {
    if x.apk.Some? { ApkIsRead(x.apk.value); }
    if x.expectedApk.Some? { RequireExactly(x.expectedApk.value); }
  }

  lemma EnvironmentExactly(d: Digests, x: BuildInputs)
    ensures EnvironmentEvidence(d, x).Ok? <==> EnvironmentHolds(x)
  {
    if x.builderEnvironment.Some? {
      var bytes := x.builderEnvironment.value.bytes;
      forall text ensures DecodeStrict(bytes) == Some(text)
        <==> Encode(text) == bytes { DecodeStrictExactly(bytes, text); }
    }
  }

  /** A build is accepted exactly when its identity is well formed and every manifest that is presented
      is one and has the digest that was expected of it. */
  lemma BuildsExactly(d: Digests, x: BuildInputs)
    ensures BuildProvenance(d, x).Ok?
            <==> && IdentityForm(x) && ManifestHolds(d, x) && BuilderHolds(d, x) && ApkHolds(d, x)
                 && EnvironmentHolds(x)
  {
    IdentityExactly(d, x);
    BuilderExactly(d, x);
    ApkExactly(d, x);
    EnvironmentExactly(d, x);
    AcceptedIs(d, x);
  }

  lemma AcceptedIs(d: Digests, x: BuildInputs)
    ensures BuildProvenance(d, x).Ok?
            <==> && CheckIdentity(d, x).Ok? && BuilderEvidence(d, x).Ok? && ApkEvidence(d, x).Ok?
                 && EnvironmentEvidence(d, x).Ok?
    ensures CheckIdentity(d, x).Err? ==> BuildProvenance(d, x) == Err(CheckIdentity(d, x).error)
    ensures CheckIdentity(d, x).Ok? && BuilderEvidence(d, x).Err? ==>
              BuildProvenance(d, x) == Err(BuilderEvidence(d, x).error)
    ensures CheckIdentity(d, x).Ok? && BuilderEvidence(d, x).Ok? && ApkEvidence(d, x).Err? ==>
              BuildProvenance(d, x) == Err(ApkEvidence(d, x).error)
  {
    FirstErrorIs(CheckIdentity(d, x), BuilderEvidence(d, x), ApkEvidence(d, x), EnvironmentEvidence(d, x));
  }

  lemma FirstErrorIs(
    id: Result<BuildIdentity, ProvenanceError>, builder: Result<Json, ProvenanceError>,
    apk: Result<Json, ProvenanceError>, environment: Result<Json, ProvenanceError>)
    ensures var r := FirstError(id, builder, apk, environment);
            && (id.Err? ==> r == Err(id.error))
            && (id.Ok? && builder.Err? ==> r == Err(builder.error))
            && (id.Ok? && builder.Ok? && apk.Err? ==> r == Err(apk.error))
  {
  }

  /** Which error a wrong or missing digest gives, each one when everything before it is in order. */
  lemma MismatchErrors(d: Digests, x: BuildInputs)
    ensures IdentityForm(x) && IsManifest(x.manifest) && Normal(x.expectedManifest) != d.sha256(x.manifest.bytes) ==>
              BuildProvenance(d, x) == Err(ManifestMismatch)
    ensures IdentityForm(x) && ManifestHolds(d, x) && x.builderDependencies.Some?
            && IsManifest(x.builderDependencies.value) && x.expectedBuilderDependencies.Some?
            && ShaText(x.expectedBuilderDependencies.value)
            && !Expected(d, x.expectedBuilderDependencies, x.builderDependencies.value) ==>
              BuildProvenance(d, x) == Err(BuilderMismatch)
    ensures IdentityForm(x) && ManifestHolds(d, x) && BuilderHolds(d, x) && x.apk.Some? && IsApkManifest(x.apk.value)
            && x.expectedApk.Some? && ShaText(x.expectedApk.value) && !Expected(d, x.expectedApk, x.apk.value) ==>
              BuildProvenance(d, x) == Err(ApkMismatch)
  {
    IdentityExactly(d, x);
    BuilderExactly(d, x);
    if x.builderDependencies.Some? { BuilderOf(d, x, x.builderDependencies.value); }
    ApkExactly(d, x);
    AcceptedIs(d, x);
  }

  lemma RequiredErrors(d: Digests, x: BuildInputs)
    requires IdentityForm(x) && ManifestHolds(d, x)
    ensures x.builderDependencies.None? && x.expectedBuilderDependencies.Some? ==>
              BuildProvenance(d, x) == Err(BuilderManifestRequired)
    ensures x.builderDependencies.Some? && IsManifest(x.builderDependencies.value)
            && x.expectedBuilderDependencies.None? ==>
              BuildProvenance(d, x) == Err(BuilderDigestRequired)
    ensures BuilderHolds(d, x) && x.apk.Some? && IsApkManifest(x.apk.value) && x.expectedApk.None? ==>
              BuildProvenance(d, x) == Err(ApkDigestRequired)
  {
    IdentityExactly(d, x);
    BuilderExactly(d, x);
    if x.builderDependencies.Some? { BuilderOf(d, x, x.builderDependencies.value); }
    ApkExactly(d, x);
    AcceptedIs(d, x);
  }

  // ---- What the record says ----

  ghost predicate IsNumber(j: Json, n: nat) {
    j.Number? && SemVer.Decimal(j.text, n)
  }

  /** Name, digest and size of a file, and maybe more. */
  ghost predicate Describes(d: Digests, j: Json, file: File) {
    && j.Obj? && {Filename, Sha256, SizeBytes} <= j.fields.Keys
    && j.fields[Filename] == Str(file.name) && j.fields[Sha256] == Str(d.sha256(file.bytes))
    && IsNumber(j.fields[SizeBytes], |file.bytes|)
  }

  ghost predicate DescribesTool(j: Json, tool: Tool) {
    j == Obj(map[Version := Str(Strip(tool.version)), Sha256 := Str(Normal(tool.sha256))])
  }

  ghost predicate Lists(j: Json, items: seq<string>) {
    j.Arr? && |j.items| == |items| && forall i | 0 <= i < |items| :: j.items[i] == Str(items[i])
  }

  ghost predicate SaysIdentity(d: Digests, r: map<Key, Json>, x: BuildInputs) {
    && {SchemaVersion, SourceCommit, BaseImageDigest, DependencyManifest, Wheel, Toolchain} <= r.Keys
    && r[SchemaVersion] == Number("1")
    && r[SourceCommit] == Str(Normal(x.sourceCommit)) && r[BaseImageDigest] == Str(Normal(x.baseDigest))
    && Describes(d, r[DependencyManifest], x.manifest) && Describes(d, r[Wheel], x.wheel)
    && r[Toolchain].Obj? && {PythonTool, MaturinTool, UvTool} <= r[Toolchain].fields.Keys
    && DescribesTool(r[Toolchain].fields[PythonTool], x.python)
    && DescribesTool(r[Toolchain].fields[MaturinTool], x.maturin)
    && DescribesTool(r[Toolchain].fields[UvTool], x.uv)
  }

  ghost predicate SaysStatus(r: map<Key, Json>, x: BuildInputs) {
    var unknown := forall c <- Normal(x.sourceCommit) :: c == '0';
    && {Status, SourceBound} <= r.Keys
    && r[Status] == Str(if unknown then "unbound" else "pass") && r[SourceBound] == Bool(!unknown)
  }

  ghost predicate SaysBuilder(d: Digests, r: map<Key, Json>, x: BuildInputs) {
    && BuilderDependencyManifest in r
    && match x.builderDependencies
       case None => r[BuilderDependencyManifest] == Null
       case Some(file) =>
         && Describes(d, r[BuilderDependencyManifest], file) && RequirementList in r[BuilderDependencyManifest].fields
         && exists rs :: ManifestOf(file, rs) && Lists(r[BuilderDependencyManifest].fields[RequirementList], rs)
  }

  ghost predicate SaysApk(d: Digests, r: map<Key, Json>, x: BuildInputs) {
    && RuntimeSystemManifest in r
    && match x.apk
       case None => r[RuntimeSystemManifest] == Null
       case Some(file) =>
         var j := r[RuntimeSystemManifest];
         && j.Obj? && {Filename, Sha256, Packages} <= j.fields.Keys
         && j.fields[Filename] == Str(file.name) && j.fields[Sha256] == Str(d.sha256(file.bytes))
         && exists ps :: ApkManifestOf(file, ps) && Lists(j.fields[Packages], ps)
  }

  /** The number of lines that are not empty. */
  ghost predicate CountsLines(j: Json, text: string) {
    var lines := SplitLines(text);
    IsNumber(j, |Filled(lines, |lines|)|)
  }

  ghost predicate SaysEnvironment(d: Digests, r: map<Key, Json>, x: BuildInputs) {
    && BuilderEnvironment in r
    && match x.builderEnvironment
       case None => r[BuilderEnvironment] == Null
       case Some(file) =>
         var j := r[BuilderEnvironment];
         && j.Obj? && {Filename, Sha256, PackageCount} <= j.fields.Keys
         && j.fields[Filename] == Str(file.name) && j.fields[Sha256] == Str(d.sha256(file.bytes))
         && exists text :: Encode(text) == file.bytes && CountsLines(j.fields[PackageCount], text)
  }

  lemma DigitsShow(n: nat)
    ensures IsNumber(Number(Versions.Digits(n)), n)
  {
    SemVer.DecimalExactly(Versions.Digits(n), n);
  }

  lemma {:induction false} NonEmptyAppend(lines: seq<string>, line: string)
    ensures NonEmpty(lines + [line]) == NonEmpty(lines) + (if line == "" then 0 else 1)
  {
    if lines == [] {
      assert [] + [line] == [line] && [line][1..] == [];
    } else {
      assert (lines + [line])[1..] == lines[1..] + [line];
      NonEmptyAppend(lines[1..], line);
    }
  }

  function Filled(lines: seq<string>, k: nat): set<int>
    requires k <= |lines|
  {
    set i | 0 <= i < k && lines[i] != ""
  }

  lemma FilledStep(lines: seq<string>, k: nat)
    requires k < |lines|
    ensures |Filled(lines, k + 1)| == |Filled(lines, k)| + if lines[k] == "" then 0 else 1
  {
    assert Filled(lines, k + 1) == Filled(lines, k) + if lines[k] == "" then {} else {k};
  }

  lemma {:induction false} NonEmptyExactly(lines: seq<string>, k: nat)
    requires k <= |lines|
    ensures NonEmpty(lines[..k]) == |Filled(lines, k)|
  {
    if k > 0 {
      NonEmptyExactly(lines, k - 1);
      FilledStep(lines, k - 1);
      assert lines[..k] == lines[..k - 1] + [lines[k - 1]];
      NonEmptyAppend(lines[..k - 1], lines[k - 1]);
    }
  }

  lemma FileDescribed(d: Digests, file: File)
    ensures Describes(d, Obj(FileEvidence(d, file)), file)
  {
    DigitsShow(|file.bytes|);
  }

  lemma TextsList(items: seq<string>)
    ensures Lists(Texts(items), items)
  {
  }

  lemma BuilderValue(d: Digests, x: BuildInputs, file: File)
    requires BuilderEvidence(d, x).Ok? && x.builderDependencies == Some(file)
    ensures ReadHashedManifest(file).Ok?
    ensures BuilderEvidence(d, x).value == BuilderRecord(d, file, ReadHashedManifest(file).value)
  {
  }

  lemma BuilderSays(d: Digests, x: BuildInputs)
    requires BuilderEvidence(d, x).Ok?
    ensures SaysBuilder(d, map[BuilderDependencyManifest := BuilderEvidence(d, x).value], x)
  {
    if x.builderDependencies.Some? {
      var file := x.builderDependencies.value;
      BuilderValue(d, x, file);
      BuilderRecordSays(d, x, file, ReadHashedManifest(file).value);
    }
  }

  lemma BuilderRecordSays(d: Digests, x: BuildInputs, file: File, rs: seq<string>)
    requires x.builderDependencies == Some(file) && ReadHashedManifest(file) == Ok(rs)
    ensures SaysBuilder(d, map[BuilderDependencyManifest := BuilderRecord(d, file, rs)], x)
  {
    ManifestReadExactly(file, rs);
    TextsList(rs);
    RecordDescribed(d, file, rs);
  }

  lemma RecordDescribed(d: Digests, file: File, rs: seq<string>)
    ensures var j := BuilderRecord(d, file, rs);
            Describes(d, j, file) && RequirementList in j.fields && j.fields[RequirementList] == Texts(rs)
  {
    FileDescribed(d, file);
  }

  lemma ApkSays(d: Digests, x: BuildInputs)
    requires ApkEvidence(d, x).Ok?
    ensures SaysApk(d, map[RuntimeSystemManifest := ApkEvidence(d, x).value], x)
  {
    if x.apk.Some? {
      var file := x.apk.value;
      assert ReadApkManifest(file).Ok?;
      var ps := ReadApkManifest(file).value;
      ApkReadExactly(file, ps);
      TextsList(ps);
    }
  }

  lemma EnvironmentSays(d: Digests, x: BuildInputs)
    requires EnvironmentEvidence(d, x).Ok?
    ensures SaysEnvironment(d, map[BuilderEnvironment := EnvironmentEvidence(d, x).value], x)
  {
    if x.builderEnvironment.Some? {
      var file := x.builderEnvironment.value;
      assert DecodeStrict(file.bytes).Some?;
      var text := DecodeStrict(file.bytes).value;
      DecodeStrictExactly(file.bytes, text);
      NonEmptyExactly(SplitLines(text), |SplitLines(text)|);
      assert SplitLines(text)[..|SplitLines(text)|] == SplitLines(text);
      DigitsShow(NonEmpty(SplitLines(text)));
    }
  }

  lemma ToolchainSays(x: BuildInputs)
    requires ToolchainEvidence(x).Ok?
    ensures var j := ToolchainEvidence(x).value;
            && j.Obj? && {PythonTool, MaturinTool, UvTool} <= j.fields.Keys
            && DescribesTool(j.fields[PythonTool], x.python) && DescribesTool(j.fields[MaturinTool], x.maturin)
            && DescribesTool(j.fields[UvTool], x.uv)
  {
    ToolExactly(x.python);
    ToolExactly(x.maturin);
    ToolExactly(x.uv);
  }

  lemma FactsOf(d: Digests, x: BuildInputs)
    requires BuildProvenance(d, x).Ok?
    ensures CheckBuild(d, x).Ok? && CheckIdentity(d, x).Ok? && ToolchainEvidence(x).Ok?
    ensures var f := CheckBuild(d, x).value;
            && f.id.commit == Normal(x.sourceCommit) && f.id.base == Normal(x.baseDigest)
            && Ok(f.id.toolchain) == ToolchainEvidence(x)
            && Ok(f.builder) == BuilderEvidence(d, x) && Ok(f.apk) == ApkEvidence(d, x)
  {
    CheckedBuild(d, x);
    CheckedIdentity(d, x);
  }

  lemma EnvironmentOf(d: Digests, x: BuildInputs)
    requires CheckBuild(d, x).Ok?
    ensures Ok(CheckBuild(d, x).value.environment) == EnvironmentEvidence(d, x)
  {
    EnvironmentIs(CheckIdentity(d, x), BuilderEvidence(d, x), ApkEvidence(d, x), EnvironmentEvidence(d, x));
  }

  lemma EnvironmentIs(
    id: Result<BuildIdentity, ProvenanceError>, builder: Result<Json, ProvenanceError>,
    apk: Result<Json, ProvenanceError>, environment: Result<Json, ProvenanceError>)
    requires FirstError(id, builder, apk, environment).Ok?
    ensures Ok(FirstError(id, builder, apk, environment).value.environment) == environment
  {
  }

  lemma PayloadIdentity(d: Digests, x: BuildInputs, f: BuildFacts, seal: Json)
    ensures var r := Payload(d, x, f)[EvidenceDigest := seal];
            && {SchemaVersion, SourceCommit, BaseImageDigest, DependencyManifest, Wheel, Toolchain} <= r.Keys
            && r[SchemaVersion] == Number("1")
            && r[SourceCommit] == Str(f.id.commit) && r[BaseImageDigest] == Str(f.id.base)
            && r[DependencyManifest] == Obj(FileEvidence(d, x.manifest)) && r[Wheel] == Obj(FileEvidence(d, x.wheel))
            && r[Toolchain] == f.id.toolchain
  {
  }

  lemma IdentitySaid(d: Digests, x: BuildInputs, f: BuildFacts, seal: Json)
    requires f.id.commit == Normal(x.sourceCommit) && f.id.base == Normal(x.baseDigest)
    requires ToolchainEvidence(x) == Ok(f.id.toolchain)
    ensures SaysIdentity(d, Payload(d, x, f)[EvidenceDigest := seal], x)
  {
    PayloadIdentity(d, x, f, seal);
    FileDescribed(d, x.manifest);
    FileDescribed(d, x.wheel);
    ToolchainSays(x);
  }

  lemma StatusSaid(d: Digests, x: BuildInputs, f: BuildFacts, seal: Json)
    requires f.id.commit == Normal(x.sourceCommit) && |f.id.commit| == 40
    ensures SaysStatus(Payload(d, x, f)[EvidenceDigest := seal], x)
  {
    UnboundExactly(f.id.commit);
  }

  lemma PayloadFields(d: Digests, x: BuildInputs, f: BuildFacts, seal: Json)
    ensures var r := Payload(d, x, f)[EvidenceDigest := seal];
            && {BuilderDependencyManifest, RuntimeSystemManifest, BuilderEnvironment} <= r.Keys
            && r[BuilderDependencyManifest] == f.builder && r[RuntimeSystemManifest] == f.apk
            && r[BuilderEnvironment] == f.environment
  {
  }

  /** The record of an accepted build, field by field: commit, base, status, the digests and sizes of the
      manifest and of the wheel, the tools, the optional manifests, and the environment. */
  lemma RecordExactly(d: Digests, x: BuildInputs)
    requires BuildProvenance(d, x).Ok?
    ensures var r := BuildProvenance(d, x).value;
            && SaysIdentity(d, r, x) && SaysStatus(r, x)
            && SaysBuilder(d, r, x) && SaysApk(d, r, x) && SaysEnvironment(d, r, x)
  {
    FactsOf(d, x);
    var f := CheckBuild(d, x).value;
    var seal := Str(RecordDigest(d, Payload(d, x, f)));
    EnvironmentOf(d, x);
    RequireExactly(x.sourceCommit);
    CheckedIdentity(d, x);
    IdentitySaid(d, x, f, seal);
    StatusSaid(d, x, f, seal);
    PayloadFields(d, x, f, seal);
    BuilderSays(d, x);
    ApkSays(d, x);
    EnvironmentSays(d, x);
  }

  // ---- What an image report reads ----

  lemma NestedExactly(fields: map<Key, Json>, key: Key, default: Json)
    ensures NestedSha(fields, key, default)
            == if key !in fields then Ok(default)
               else if !fields[key].Obj? then Err(AttributeError)
               else Ok(if Sha256 in fields[key].fields then fields[key].fields[Sha256] else default)
  {
  }

  /** What a value prints as, if that can be a digest. */
  ghost predicate Prints(j: Json, s: string) {
    j == Str(s) || j == Number(s)
  }

  lemma OnlyTextsPrintDigests(j: Json)
    requires IsHexString(PyStr(j), 64)
    ensures Prints(j, PyStr(j))
  {
  }

  lemma SealExactly(d: Digests, fields: map<Key, Json>)
    ensures DigestIsValid(d, fields)
            <==> && EvidenceDigest in fields
                 && exists s :: Prints(fields[EvidenceDigest], s) && HexText(s, 64)
                                && s == d.sha256(d.canonical(Obj(fields - {EvidenceDigest})))
  {
    if EvidenceDigest in fields {
      HexTextExactly(PyStr(fields[EvidenceDigest]), 64);
      if IsHexString(PyStr(fields[EvidenceDigest]), 64) { OnlyTextsPrintDigests(fields[EvidenceDigest]); }
      forall s | Prints(fields[EvidenceDigest], s) ensures PyStr(fields[EvidenceDigest]) == s {
      }
    }
  }

  /** The checks of a report, one by one, and what it names. */
  lemma ReportExactly(d: Digests, fields: map<Key, Json>, y: ImageInputs, r: ImageReport)
    requires BuildImageReport(d, Obj(fields), y) == Ok(r)
    ensures r.checks.base <==> Get(fields, BaseImageDigest, Null) == Str(Normal(y.expectedBase))
    ensures r.checks.commit <==> Get(fields, SourceCommit, Null) == Str(Normal(y.expectedCommit))
    ensures r.checks.manifest <==> AgreesOn(d, fields, DependencyManifest, Some(y.manifest))
    ensures r.checks.provenance <==> Get(fields, Status, Null) == Str("pass") && DigestIsValid(d, fields)
    ensures r.checks.builder
            == if y.builderDependencies.None? then None
               else Some(AgreesOn(d, fields, BuilderDependencyManifest, y.builderDependencies))
    ensures r.checks.apk
            == if y.apk.None? then None else Some(AgreesOn(d, fields, RuntimeSystemManifest, y.apk))
    ensures r.passed <==> r.checks.base && r.checks.commit && r.checks.manifest && r.checks.provenance && r.checks.wheel
                          && r.checks.builder != Some(false) && r.checks.apk != Some(false)
    ensures r.expectations == Expectations(Normal(y.expectedCommit), Normal(y.expectedBase), Normal(y.imageDigest))
    ensures r.manifestSha == d.sha256(y.manifest.bytes) && r.provenanceDigest == Get(fields, EvidenceDigest, Str(""))
  {
    var e := RequireExpectations(y);
    assert e.Ok?;
    ChecksExactly(d, fields, e.value, y);
  }

  lemma BuilderCheckIs(d: Digests, fields: map<Key, Json>, file: Option<File>)
    requires BuilderCheck(d, fields, file).Ok?
    ensures BuilderCheck(d, fields, file).value
            == if file.None? then None else Some(AgreesOn(d, fields, BuilderDependencyManifest, file))
  {
  }

  lemma ApkCheckIs(d: Digests, fields: map<Key, Json>, file: Option<File>)
    requires ApkCheck(d, fields, file).Ok?
    ensures ApkCheck(d, fields, file).value
            == if file.None? then None else Some(AgreesOn(d, fields, RuntimeSystemManifest, file))
  {
  }

  /** The checks are put together from these parts. */
  lemma ChecksAre(d: Digests, fields: map<Key, Json>, e: Expectations, y: ImageInputs)
    requires RunChecks(d, fields, e, y).Ok?
    ensures NestedSha(fields, DependencyManifest, Null).Ok?
    ensures BuilderCheck(d, fields, y.builderDependencies).Ok? && ApkCheck(d, fields, y.apk).Ok?
    ensures var c := RunChecks(d, fields, e, y).value;
            && c.base == (Get(fields, BaseImageDigest, Null) == Str(e.base))
            && c.commit == (Get(fields, SourceCommit, Null) == Str(e.commit))
            && c.manifest == (NestedSha(fields, DependencyManifest, Null).value == Str(d.sha256(y.manifest.bytes)))
            && c.provenance == (Get(fields, Status, Null) == Str("pass") && DigestIsValid(d, fields))
            && c.builder == BuilderCheck(d, fields, y.builderDependencies).value
            && c.apk == ApkCheck(d, fields, y.apk).value
  {
  }

  lemma ChecksExactly(d: Digests, fields: map<Key, Json>, e: Expectations, y: ImageInputs)
    requires RunChecks(d, fields, e, y).Ok?
    ensures var c := RunChecks(d, fields, e, y).value;
            && (c.base <==> Get(fields, BaseImageDigest, Null) == Str(e.base))
            && (c.commit <==> Get(fields, SourceCommit, Null) == Str(e.commit))
            && (c.manifest <==> AgreesOn(d, fields, DependencyManifest, Some(y.manifest)))
            && (c.provenance <==> Get(fields, Status, Null) == Str("pass") && DigestIsValid(d, fields))
            && c.builder == (if y.builderDependencies.None? then None
                             else Some(AgreesOn(d, fields, BuilderDependencyManifest, y.builderDependencies)))
            && c.apk == (if y.apk.None? then None else Some(AgreesOn(d, fields, RuntimeSystemManifest, y.apk)))
  {
    ChecksAre(d, fields, e, y);
    BuilderCheckIs(d, fields, y.builderDependencies);
    ApkCheckIs(d, fields, y.apk);
  }
}

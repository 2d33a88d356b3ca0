/** Exact requirement pins, their normal form, and the manifest parser that enforces them. */
module Requirements {
  import opened Wrappers
  import opened Text
  import opened Manifest

  // ---- Pins ----

  predicate IsAlnum(c: char) {
    'a' <= c <= 'z' || 'A' <= c <= 'Z' || '0' <= c <= '9'
  }

  predicate IsNameChar(c: char) {
    IsAlnum(c) || c == '_' || c == '.' || c == '-'
  }

  function NameEnd(s: string): (k: nat)
    ensures k <= |s|
    ensures forall i | 0 <= i < k :: IsNameChar(s[i])
  {
    if s == "" || !IsNameChar(s[0]) then 0 else 1 + NameEnd(s[1..])
  }

  /** `\[[A-Za-z0-9_,.-]+\]` */
  predicate IsExtras(s: string) {
    && |s| >= 3 && s[0] == '[' && s[|s| - 1] == ']'
    && forall i | 0 < i < |s| - 1 :: IsNameChar(s[i]) || s[i] == ','
  }

  predicate IsPackage(s: string) {
    s != "" && IsAlnum(s[0]) && (NameEnd(s) == |s| || IsExtras(s[NameEnd(s)..]))
  }

  predicate IsVersion(s: string) {
    && s != "" && IsAlnum(s[0])
    && forall i | 0 <= i < |s| :: IsNameChar(s[i]) || s[i] == '+' || s[i] == '!'
  }

  datatype Pin = Pin(package: string, version: string, marker: Option<string>)

  predicate ValidPin(pin: Pin) {
    && IsPackage(pin.package) && IsVersion(pin.version)
    && (pin.marker.Some? ==> pin.marker.value != "" && Trimmed(pin.marker.value))
  }

  function Base(pin: Pin): string {
    pin.package + "==" + pin.version
  }

  /** The normal form of a requirement. */
  function Show(pin: Pin): string {
    if pin.marker.Some? then Base(pin) + " ; " + pin.marker.value else Base(pin)
  }

  // ---- Normalization ----

  function MarkerIndex(s: string): (k: nat)
    ensures k <= |s|
    ensures k < |s| ==> s[k] == ';'
    ensures forall i | 0 <= i < k :: s[i] != ';'
  {
    if s == "" || s[0] == ';' then 0 else 1 + MarkerIndex(s[1..])
  }

  /** `s.count("==")`. */
  function CountPins(s: string): nat {
    if |s| < 2 then 0
    else if s[0] == '=' && s[1] == '=' then 1 + CountPins(s[2..])
    else CountPins(s[1..])
  }

  function PinIndex(s: string): (k: nat)
    requires CountPins(s) > 0
    ensures k + 2 <= |s|
  {
    if s[0] == '=' && s[1] == '=' then 0 else 1 + PinIndex(s[1..])
  }

  predicate HasUrl(s: string) {
    exists i | 0 <= i < |s| - 2 :: s[i] == ' ' && s[i + 1] == '@' && s[i + 2] == ' '
  }

  /** The package and version of a requirement without its marker. */
  function ParseExact(requirement: string): Result<(string, string), ManifestError> {
    if HasUrl(requirement) then Err(DirectUrl)
    else if CountPins(requirement) != 1 then Err(NotPinned)
    else
      var i := PinIndex(requirement);
      var package, version := requirement[..i], requirement[i + 2..];
      if !IsPackage(package) || !IsVersion(version) then Err(NotPinned) else Ok((package, version))
  }

  function ParsePin(value: string): Result<Pin, ManifestError> {
    var k := MarkerIndex(value);
    match ParseExact(Strip(value[..k]))
    case Err(e) => Err(e)
    case Ok((package, version)) =>
      if k == |value| then Ok(Pin(package, version, None))
      else
        var marker := Strip(value[k + 1..]);
        if marker == "" then Err(EmptyMarker) else Ok(Pin(package, version, Some(marker)))
  }

  /** `_normalize_exact_requirement`. */
  function Normalize(value: string): Result<string, ManifestError> {
    match ParsePin(value)
    case Ok(pin) => Ok(Show(pin))
    case Err(e) => Err(e)
  }

  /** The characters a package and a version are made of: none is special to the parser. */
  predicate IsPinChar(c: char) {
    IsNameChar(c) || c == '[' || c == ']' || c == ',' || c == '+' || c == '!'
  }

  lemma PinCharIsPlain(c: char)
    requires IsPinChar(c)
    ensures !IsSpace(c) && c != ';' && c != '=' && c != ':' && c != '#' && c != '\\'
  {
  }

  lemma {:induction false} NoPins(s: string)
    requires forall i | 0 <= i < |s| :: s[i] != '='
    ensures CountPins(s) == 0
  {
    if |s| >= 2 { NoPins(s[1..]); }
  }

  lemma {:induction false} OnePin(p: string, v: string)
    requires (forall i | 0 <= i < |p| :: p[i] != '=') && (forall i | 0 <= i < |v| :: v[i] != '=')
    ensures CountPins(p + "==" + v) == 1 && PinIndex(p + "==" + v) == |p|
  {
    var s := p + "==" + v;
    if p == "" {
      assert s[2..] == v;
      NoPins(v);
    } else {
      assert s[1..] == p[1..] + "==" + v;
      OnePin(p[1..], v);
    }
  }

  lemma BaseChars(pin: Pin)
    requires ValidPin(pin)
    ensures var b := Base(pin);
            && IsToken(b) && Trimmed(b) && IsAlnum(b[0])
            && forall i | 0 <= i < |b| :: b[i] != ';' && (IsPinChar(b[i]) || b[i] == '=')
  {
  }

  lemma BaseParses(pin: Pin)
    requires ValidPin(pin)
    ensures ParseExact(Base(pin)) == Ok((pin.package, pin.version))
  {
    var b := Base(pin);
    BaseChars(pin);
    var p, v := pin.package, pin.version;
    forall i | 0 <= i < |p| ensures p[i] != '=' { PinCharIsPlain(p[i]); }
    forall i | 0 <= i < |v| ensures v[i] != '=' { PinCharIsPlain(v[i]); }
    OnePin(p, v);
    assert IsSpace(' ');
    assert b[..|p|] == p && b[|p| + 2..] == v;
  }

  lemma MarkerIndexOf(b: string, rest: string)
    requires (forall i | 0 <= i < |b| :: b[i] != ';') && (rest != "" ==> rest[0] == ';')
    ensures MarkerIndex(b + rest) == |b|
  {
    var s := b + rest;
    assert forall i | 0 <= i < |b| :: s[i] == b[i];
    assert rest != "" ==> s[|b|] == ';';
  }

  lemma ParsePinFrom(value: string, pin: Pin)
    requires ValidPin(pin)
    requires var k := MarkerIndex(value);
             && Strip(value[..k]) == Base(pin)
             && (k == |value| <==> pin.marker.None?)
             && (k < |value| ==> pin.marker == Some(Strip(value[k + 1..])))
    ensures ParsePin(value) == Ok(pin)
  {
    BaseParses(pin);
  }

  /** Reading back a normal form gives the pin it shows. */
  lemma ParsePinInvertsShow(pin: Pin)
    requires ValidPin(pin)
    ensures ParsePin(Show(pin)) == Ok(pin)
  {
    BaseChars(pin);
    if pin.marker.None? {
    } else {
      MarkerSplits(Base(pin), pin.marker.value);
    }
    ParsePinFrom(Show(pin), pin);
  }

  lemma MarkerSplits(b: string, m: string)
    requires IsToken(b) && Trimmed(b) && Trimmed(m) && (forall i | 0 <= i < |b| :: b[i] != ';')
    ensures var s := b + " ; " + m;
            && MarkerIndex(s) == |b| + 1 < |s|
            && Strip(s[..|b| + 1]) == b && Strip(s[|b| + 2..]) == m
  {
    var s := b + " ; " + m;
    MarkerIndexOf(b + " ", "; " + m);
    assert s == (b + " ") + ("; " + m);
    assert s[..|b| + 1] == b + " " && s[|b| + 2..] == " " + m;
    StripPadded(b);
    StripPadded(m);
  }

  lemma ParsePinIsValid(value: string)
    requires ParsePin(value).Ok?
    ensures ValidPin(ParsePin(value).value)
  {
    var k := MarkerIndex(value);
    if k < |value| { StripResult(value[k + 1..]); }
  }

  /** The fixed points of normalization are exactly the normal forms of valid pins. */
  lemma NormalFormsExactly(value: string)
    ensures Normalize(value) == Ok(value) <==> exists pin :: ValidPin(pin) && Show(pin) == value
  {
    if Normalize(value) == Ok(value) {
      ParsePinIsValid(value);
    }
    forall pin | ValidPin(pin) && Show(pin) == value ensures Normalize(value) == Ok(value) {
      ParsePinInvertsShow(pin);
    }
  }

  lemma NormalizeIsIdempotent(value: string)
    requires Normalize(value).Ok?
    ensures Normalize(Normalize(value).value) == Normalize(value)
  {
    ParsePinIsValid(value);
    ParsePinInvertsShow(ParsePin(value).value);
  }

  lemma ShowIsInjective(a: Pin, b: Pin)
    requires ValidPin(a) && ValidPin(b) && Show(a) == Show(b)
    ensures a == b
  {
    ParsePinInvertsShow(a);
    ParsePinInvertsShow(b);
  }

  // ---- The parser ----

  predicate LowerPrefix(prefix: string, s: string) {
    |prefix| <= |s| && forall i | 0 <= i < |prefix| :: Lower(s[i]) == prefix[i]
  }

  predicate IsLocal(line: string) {
    LowerPrefix("-e ", line) || LowerPrefix("--editable ", line) || LowerPrefix(".", line) || LowerPrefix("file:", line)
  }

  function ParseLine(line: string): Result<string, ManifestError> {
    if IsLocal(line) then Err(LocalRequirement)
    else
      match Normalize(Join(Split(RemoveHashes(line, true))))
      case Err(e) => Err(e)
      case Ok(n) => if FindHashes(line, true) == [] then Err(MissingHashes) else Ok(n)
  }

  /** `f` on every element in order, up to the first error. */
  function Traverse<A, B>(f: A -> Result<B, ManifestError>, xs: seq<A>): Result<seq<B>, ManifestError> {
    if xs == [] then Ok([])
    else
      match f(xs[0])
      case Err(e) => Err(e)
      case Ok(y) => Prepend([y], Traverse(f, xs[1..]))
  }

  predicate Distinct<T(==)>(xs: seq<T>) {
    forall i, j | 0 <= i < j < |xs| :: xs[i] != xs[j]
  }

  function ParseManifest(text: string): Result<seq<string>, ManifestError> {
    match Fold(SplitLines(text), "")
    case Err(e) => Err(e)
    case Ok(lines) =>
      match Traverse(ParseLine, lines)
      case Err(e) => Err(e)
      case Ok(requirements) =>
        if requirements == [] then Err(EmptyManifest)
        else if !Distinct(requirements) then Err(DuplicateRequirements)
        else Ok(requirements)
  }

  method ParseHashedManifest(text: string) returns (r: Result<seq<string>, ManifestError>)
    ensures r == ParseManifest(text)
  {
    var folded := LogicalLines(text);
    if folded.Err? {
      return Err(folded.error);
    }
    var lines := folded.value;
    var requirements: seq<string> := [];
    PrependTwice(requirements, requirements, Traverse(ParseLine, lines));
    assert lines[0..] == lines;
    for i := 0 to |lines|
      invariant Prepend(requirements, Traverse(ParseLine, lines[i..])) == Traverse(ParseLine, lines)
    {
      assert lines[i..][1..] == lines[i + 1..];
      var line := lines[i];
      if IsLocal(line) {
        return Err(LocalRequirement);
      }
      var hashes := FindHashes(line, true);
      var requirement := Join(Split(RemoveHashes(line, true)));
      var normalized := Normalize(requirement);
      if normalized.Err? {
        return Err(normalized.error);
      }
      if hashes == [] {
        return Err(MissingHashes);
      }
      PrependTwice(requirements, [normalized.value], Traverse(ParseLine, lines[i + 1..]));
      requirements := requirements + [normalized.value];
    }
    assert requirements + [] == requirements;
    if requirements == [] {
      return Err(EmptyManifest);
    }
    if !Distinct(requirements) {
      return Err(DuplicateRequirements);
    }
    return Ok(requirements);
  }

  lemma {:induction false} TraversePointwise<A, B>(f: A -> Result<B, ManifestError>, xs: seq<A>, out: seq<B>)
    ensures Traverse(f, xs) == Ok(out)
            <==> |out| == |xs| && forall i | 0 <= i < |xs| :: f(xs[i]) == Ok(out[i])
  {
    if xs != [] && out != [] {
      TraversePointwise(f, xs[1..], out[1..]);
      assert out == [out[0]] + out[1..];
      assert |out| == |xs| ==> forall i | 0 < i < |xs| :: xs[i] == xs[1..][i - 1] && out[i] == out[1..][i - 1];
    }
  }

  /** The error is that of the first element that has one. */
  lemma {:induction false} TraverseFirstError<A(!new), B(!new)>(
    f: A -> Result<B, ManifestError>, xs: seq<A>, e: ManifestError)
    ensures Traverse(f, xs) == Err(e)
            <==> exists i :: 0 <= i < |xs| && f(xs[i]) == Err(e) && forall k | 0 <= k < i :: f(xs[k]).Ok?
  {
    if xs != [] {
      TraverseFirstError(f, xs[1..], e);
      assert forall i | 0 <= i < |xs| - 1 :: xs[1..][i] == xs[i + 1];
      if f(xs[0]).Ok? && Traverse(f, xs[1..]) == Err(e) {
        var i :| 0 <= i < |xs| - 1 && f(xs[1..][i]) == Err(e) && forall k | 0 <= k < i :: f(xs[1..][k]).Ok?;
        assert forall k | 0 <= k < i + 1 :: f(xs[k]).Ok?;
      }
    }
  }

  /** A manifest is accepted exactly when its lines fold, each of them is accepted, and they are some and
      distinct; the result lists them in order. */
  lemma ManifestExactly(text: string, requirements: seq<string>)
    ensures ParseManifest(text) == Ok(requirements)
            <==> && Fold(SplitLines(text), "").Ok? && requirements != [] && Distinct(requirements)
                 && var lines := Fold(SplitLines(text), "").value;
                 && |lines| == |requirements|
                 && forall i | 0 <= i < |lines| :: ParseLine(lines[i]) == Ok(requirements[i])
  {
    if Fold(SplitLines(text), "").Ok? {
      TraversePointwise(ParseLine, Fold(SplitLines(text), "").value, requirements);
    }
  }

  /** Every accepted manifest lists distinct exact pins, and each came with a SHA-256 hash. */
  lemma AcceptedManifest(text: string, requirements: seq<string>)
    requires ParseManifest(text) == Ok(requirements)
    ensures requirements != [] && Distinct(requirements)
    ensures Fold(SplitLines(text), "").Ok?
    ensures var lines := Fold(SplitLines(text), "").value;
            && |lines| == |requirements|
            && forall i | 0 <= i < |lines| ::
                 && (exists w <- Split(lines[i]) :: IsHashToken(w))
                 && (exists pin :: ValidPin(pin) && requirements[i] == Show(pin))
                 && Normalize(requirements[i]) == Ok(requirements[i])
  {
    var lines := Fold(SplitLines(text), "").value;
    TraversePointwise(ParseLine, lines, requirements);
    forall i | 0 <= i < |lines|
      ensures exists w <- Split(lines[i]) :: IsHashToken(w)
      ensures exists pin :: ValidPin(pin) && requirements[i] == Show(pin)
      ensures Normalize(requirements[i]) == Ok(requirements[i])
    {
      assert ParseLine(lines[i]) == Ok(requirements[i]);
      var value := Join(Split(RemoveHashes(lines[i], true)));
      NormalizeIsIdempotent(value);
      ParsePinIsValid(value);
      RemoveHashesFilters(lines[i]);
      SomeHashToken(Split(lines[i]));
    }
  }

  lemma {:induction false} SomeHashToken(tokens: seq<string>)
    requires HashesOf(tokens) != []
    ensures exists w <- tokens :: IsHashToken(w)
  {
    if !IsHashToken(tokens[0]) { SomeHashToken(tokens[1..]); }
  }
}

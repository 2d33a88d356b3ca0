/** Which names, versions and hashes the manifest parser accepts, over alphabets that are spelled out. */
module PinLanguage {
  import opened Wrappers
  import opened Sequences
  import opened Text
  import opened Manifest
  import opened Requirements

  const DIGITS := "0123456789"
  const HEX_LETTERS := "abcdefABCDEF"
  const NAME_MARKS := "._-"
  const VERSION_MARKS := "._+!-"
  const EXTRA_MARKS := "_,.-"

  predicate Alnum(c: char) {
    c in UPPER || c in LOWER || c in DIGITS
  }

  /** A name without extras. */
  ghost predicate PlainName(s: string) {
    s != "" && Alnum(s[0]) && forall c <- s :: Alnum(c) || c in NAME_MARKS
  }

  ghost predicate Extras(s: string) {
    s != "" && forall c <- s :: Alnum(c) || c in EXTRA_MARKS
  }

  ghost predicate Name(s: string) {
    PlainName(s) || exists base, extras :: PlainName(base) && Extras(extras) && s == base + ("[" + extras + "]")
  }

  ghost predicate Version(s: string) {
    s != "" && Alnum(s[0]) && forall c <- s :: Alnum(c) || c in VERSION_MARKS
  }

  ghost predicate Hash(s: string) {
    |s| == 64 && forall c <- s :: c in DIGITS || c in HEX_LETTERS
  }

  // ---- The parser's classes are these ----

  lemma DigitExactly(c: char)
    ensures c in DIGITS <==> '0' <= c <= '9'
  {
    if '0' <= c <= '9' { assert DIGITS[c as int - '0' as int] == c; }
  }

  lemma LowerCaseExactly(c: char)
    ensures c in LOWER <==> 'a' <= c <= 'z'
  {
    if 'a' <= c <= 'z' { assert LOWER[c as int - 'a' as int] == c; }
  }

  lemma AlnumExactly(c: char)
    ensures Alnum(c) <==> IsAlnum(c)
  {
    UpperExactly(c);
    LowerCaseExactly(c);
    DigitExactly(c);
  }

  lemma HexExactly(c: char)
    ensures c in DIGITS || c in HEX_LETTERS <==> IsHex(c)
  {
    DigitExactly(c);
  }

  lemma HashExactly(s: string)
    ensures Hash(s) <==> IsHash(s)
  {
    forall c ensures c in DIGITS || c in HEX_LETTERS <==> IsHex(c) { HexExactly(c); }
  }

  lemma MarksExactly(c: char)
    ensures IsNameChar(c) <==> Alnum(c) || c in NAME_MARKS
    ensures IsNameChar(c) || c == ',' <==> Alnum(c) || c in EXTRA_MARKS
    ensures IsNameChar(c) || c == '+' || c == '!' <==> Alnum(c) || c in VERSION_MARKS
  {
    AlnumExactly(c);
  }

  lemma VersionExactly(s: string)
    ensures Version(s) <==> IsVersion(s)
  {
    forall c ensures (IsAlnum(c) <==> Alnum(c))
             && (IsNameChar(c) || c == '+' || c == '!' <==> Alnum(c) || c in VERSION_MARKS) {
      AlnumExactly(c);
      MarksExactly(c);
    }
  }

  lemma PlainExactly(s: string)
    ensures PlainName(s) <==> s != "" && IsAlnum(s[0]) && forall c <- s :: IsNameChar(c)
  {
    forall c ensures (IsAlnum(c) <==> Alnum(c)) && (IsNameChar(c) <==> Alnum(c) || c in NAME_MARKS) {
      AlnumExactly(c);
      MarksExactly(c);
    }
  }

  lemma ExtrasExactly(s: string)
    ensures IsExtras("[" + s + "]") <==> Extras(s)
  {
    var b := "[" + s + "]";
    forall c ensures IsNameChar(c) || c == ',' <==> Alnum(c) || c in EXTRA_MARKS { MarksExactly(c); }
    assert forall i | 0 < i < |b| - 1 :: b[i] == s[i - 1];
    assert forall i | 0 <= i < |s| :: s[i] == b[i + 1];
  }

  lemma {:induction false} NameEndAt(base: string, rest: string)
    requires (forall c <- base :: IsNameChar(c)) && (rest != "" ==> !IsNameChar(rest[0]))
    ensures NameEnd(base + rest) == |base|
  {
    if base == "" {
      assert base + rest == rest;
    } else {
      TailOfConcat(base, rest);
      NameEndAt(base[1..], rest);
    }
  }

  lemma BracketParts(rest: string) returns (extras: string)
    requires IsExtras(rest)
    ensures rest == "[" + extras + "]"
  {
    extras := rest[1..|rest| - 1];
  }

  lemma PackageParts(s: string)
    requires IsPackage(s)
    ensures Name(s)
  {
    var base, rest := s[..NameEnd(s)], s[NameEnd(s)..];
    SplitAt(s, NameEnd(s));
    PlainExactly(base);
    if rest == "" {
      assert base == s;
    } else {
      var extras := BracketParts(rest);
      ExtrasExactly(extras);
      BaseIsPlain(s);
      Associative("[", extras, "]");
    }
  }

  lemma BaseIsPlain(s: string)
    requires IsPackage(s)
    ensures PlainName(s[..NameEnd(s)])
  {
    var base := s[..NameEnd(s)];
    assert NameEnd(s) > 0 && base[0] == s[0];
    PlainExactly(base);
  }

  lemma PlainIsPackage(s: string)
    requires PlainName(s)
    ensures IsPackage(s)
  {
    PlainExactly(s);
    NameEndAt(s, "");
    assert s + "" == s;
  }

  lemma BeforeBracket(base: string, rest: string)
    requires base != "" && (forall c <- base :: IsNameChar(c)) && IsExtras(rest)
    ensures NameEnd(base + rest) == |base| && (base + rest)[|base|..] == rest && (base + rest)[0] == base[0]
  {
    NameEndAt(base, rest);
  }

  lemma BracketedIsPackage(base: string, extras: string)
    requires PlainName(base) && Extras(extras)
    ensures IsPackage(base + ("[" + extras + "]"))
  {
    PlainExactly(base);
    ExtrasExactly(extras);
    BeforeBracket(base, "[" + extras + "]");
  }

  lemma PackageExactly(s: string)
    ensures Name(s) <==> IsPackage(s)
  {
    if IsPackage(s) { PackageParts(s); }
    if PlainName(s) { PlainIsPackage(s); }
    forall base, extras | PlainName(base) && Extras(extras) && s == base + ("[" + extras + "]") ensures IsPackage(s) {
      BracketedIsPackage(base, extras);
    }
  }

  // ---- One line ----

  /** The only two equals signs stand where they were put. */
  lemma NoEqualsElsewhere(p: string, v: string, i: nat)
    requires (forall c <- p :: c != '=') && (forall c <- v :: c != '=')
    requires i < |p + ("==" + v)| && i != |p| && i != |p| + 1
    ensures (p + ("==" + v))[i] != '='
  {
    var a := p + ("==" + v);
    if i < |p| {
      assert a[i] == p[i] && p[i] in p;
    } else {
      assert a[i] == v[i - |p| - 2] && v[i - |p| - 2] in v;
    }
  }

  lemma SameSplit(p: string, v: string, name: string, version: string)
    requires p + ("==" + v) == name + ("==" + version)
    requires (forall c <- p :: c != '=') && (forall c <- v :: c != '=')
    ensures p == name && v == version
  {
    var a, b := p + ("==" + v), name + ("==" + version);
    assert b[|name|] == '=' && b[|name| + 1] == '=';
    if |name| != |p| && |name| != |p| + 1 { NoEqualsElsewhere(p, v, |name|); }
    if |name| + 1 != |p| && |name| != |p| { NoEqualsElsewhere(p, v, |name| + 1); }
    assert a[..|p|] == p && b[..|p|] == name && a[|p| + 2..] == v && b[|p| + 2..] == version;
  }

  lemma PinTextHasNoEquals(p: string, v: string)
    requires IsPackage(p) && IsVersion(v)
    ensures (forall c <- p :: c != '=') && (forall c <- v :: c != '=')
  {
    var k := NameEnd(p);
    forall i | 0 <= i < |p| ensures p[i] != '=' {
      if i >= k { assert p[i] == p[k..][i - k]; }
    }
  }

  /** A text without white space is normal exactly when it is a pin without a marker. */
  lemma NormalizeExactly(name: string, version: string)
    requires !HasSpace(name) && !HasSpace(version)
    ensures var r := name + ("==" + version);
            Normalize(r) == Ok(r) <==> IsPackage(name) && IsVersion(version)
  {
    var r := name + ("==" + version);
    if IsPackage(name) && IsVersion(version) {
      var pin := Pin(name, version, None);
      assert Show(pin) == name + "==" + version == r;
      ParsePinInvertsShow(pin);
    }
    if Normalize(r) == Ok(r) { NormalIsPin(name, version); }
  }

  lemma NormalIsPin(name: string, version: string)
    requires !HasSpace(name) && !HasSpace(version)
    requires var r := name + ("==" + version); Normalize(r) == Ok(r)
    ensures IsPackage(name) && IsVersion(version)
  {
    var r := name + ("==" + version);
    var pin := ParsePin(r).value;
    ParsePinIsValid(r);
    NoBlankInPin(name, version, pin);
    assert Show(pin) == pin.package + ("==" + pin.version);
    PinTextHasNoEquals(pin.package, pin.version);
    SameSplit(pin.package, pin.version, name, version);
  }

  lemma MarkerShowsBlank(pin: Pin)
    requires pin.marker.Some?
    ensures HasSpace(Show(pin))
  {
    assert Show(pin)[|Base(pin)|] == ' ' && IsSpace(' ');
  }

  lemma NoBlankInPin(name: string, version: string, pin: Pin)
    requires !HasSpace(name) && !HasSpace(version) && Show(pin) == name + ("==" + version)
    ensures pin.marker.None?
  {
    RequirementIsToken(name, version);
    if pin.marker.Some? { MarkerShowsBlank(pin); }
  }

  lemma HashOptionEquals(w: string, k: nat)
    requires IsHashToken(w) && k + 1 < |w|
    ensures w[k] != '=' || w[k + 1] != '='
  {
    assert forall i | 0 <= i < 14 :: w[i] == HASH_PREFIX[i];
    assert forall i | 14 <= i < 78 :: IsHex(w[14..][i - 14]) && w[i] == w[14..][i - 14];
  }

  lemma NotHashOption(name: string, version: string)
    ensures !IsHashToken(name + ("==" + version))
  {
    var w := name + ("==" + version);
    assert w[|name|] == '=' && w[|name| + 1] == '=';
    if IsHashToken(w) { HashOptionEquals(w, |name|); }
  }

  lemma HashOptionExactly(h: string)
    ensures IsHashToken("--hash=sha256:" + h) <==> IsHash(h)
  {
    var w := "--hash=sha256:" + h;
    assert w[14..] == h && HASH_PREFIX <= w;
  }

  lemma OptionIsToken(h: string)
    requires !HasSpace(h)
    ensures IsToken("--hash=sha256:" + h)
  {
    var w, p := "--hash=sha256:" + h, "--hash=sha256:";
    assert forall i | 0 <= i < 14 :: !IsSpace(p[i]) && w[i] == p[i];
    assert forall i | 14 <= i < |w| :: w[i] == h[i - 14];
  }

  lemma RequirementIsToken(name: string, version: string)
    requires !HasSpace(name) && !HasSpace(version)
    ensures IsToken(name + ("==" + version))
  {
    var w, v := name + ("==" + version), "==" + version;
    assert forall i | 0 <= i < |name| :: w[i] == name[i];
    assert forall i | |name| <= i < |w| :: w[i] == v[i - |name|];
    assert forall i | 2 <= i < |v| :: v[i] == version[i - 2];
  }

  lemma TwoTokens(a: string, b: string)
    requires IsToken(a) && IsToken(b)
    ensures Split(a + (" " + b)) == [a, b]
  {
    var rest := " " + b;
    assert AtBoundary(rest) && rest[1..] == b;
    SplitToken(a, rest);
    SplitSingle(b);
    assert Split(rest) == Split(b);
  }

  lemma FilterTwo(a: string, b: string)
    requires !IsHashToken(a)
    ensures OtherTokens([a, b]) == (if IsHashToken(b) then [a] else [a, b])
    ensures HashesOf([a, b]) == (if IsHashToken(b) then [b[14..]] else [])
  {
    assert [a, b][1..] == [b] && [b][1..] == [];
    assert OtherTokens([b]) == if IsHashToken(b) then [] else [b];
    assert HashesOf([b]) == if IsHashToken(b) then [b[14..]] else [];
  }

  lemma PackageChar(s: string, i: nat)
    requires IsPackage(s) && i < |s|
    ensures IsPinChar(s[i])
  {
    var k := NameEnd(s);
    if i >= k { assert s[i] == s[k..][i - k]; }
  }

  lemma NamesAreNotLocal(name: string, rest: string)
    requires IsPackage(name) && rest != "" && rest[0] == '='
    ensures !IsLocal(name + rest)
  {
    var line := name + rest;
    var i := if |name| < 5 then |name| else 4;
    assert line[|name|] == '=' && line[0] == name[0];
    if |name| >= 5 {
      PackageChar(name, 4);
      PinCharIsPlain(name[4]);
      assert line[4] == name[4];
    }
    NotFile(line, i);
  }

  lemma FilePrefixAt(line: string, i: nat)
    requires LowerPrefix("file:", line) && i < 5
    ensures if i == 4 then line[i] == ':' else line[i] != '='
  {
    var p := "file:";
    assert Lower(line[i]) == p[i];
  }

  lemma NotFile(line: string, i: nat)
    requires i < 5 && i < |line| && IsAlnum(line[0]) && (if i == 4 then line[4] != ':' else line[i] == '=')
    ensures !IsLocal(line)
  {
    if LowerPrefix("file:", line) { FilePrefixAt(line, i); }
  }

  /** What the parser makes of a requirement and an option behind it. */
  lemma LineOfTwo(r: string, w: string)
    requires IsToken(r) && IsToken(w) && !IsHashToken(r) && !IsLocal(r + (" " + w))
    ensures ParseLine(r + (" " + w))
            == if !IsHashToken(w) then
                 (if Normalize(Join([r, w])).Ok? then Err(MissingHashes) else Err(Normalize(Join([r, w])).error))
               else Normalize(r)
  {
    TwoTokens(r, w);
    FilterTwo(r, w);
    RemoveHashesFilters(r + (" " + w));
    assert Join([r]) == r;
  }

  /** A line with a requirement and one option is accepted as that pin exactly when the name, the
      version and the hash are spelled over the alphabets above. */
  lemma PinnedLineExactly(name: string, version: string, h: string)
    requires !HasSpace(name) && !HasSpace(version) && !HasSpace(h)
    ensures var pin := name + ("==" + version);
            ParseLine(pin + (" " + ("--hash=sha256:" + h))) == Ok(pin) <==> Name(name) && Version(version) && Hash(h)
  {
    var pin, w := name + ("==" + version), "--hash=sha256:" + h;
    PackageExactly(name);
    VersionExactly(version);
    HashExactly(h);
    RequirementIsToken(name, version);
    OptionIsToken(h);
    NotHashOption(name, version);
    HashOptionExactly(h);
    NormalizeExactly(name, version);
    if IsPackage(name) {
      Associative(name, "==" + version, " " + w);
      NamesAreNotLocal(name, ("==" + version) + (" " + w));
    }
    if !IsLocal(pin + (" " + w)) { LineOfTwo(pin, w); }
  }

  // ---- Lines that name a place ----

  /** `c` is `small` or its capital. */
  predicate SameLetter(c: char, small: char) {
    c == small || ('a' <= small <= 'z' && 'A' <= c <= 'Z' && c as int - 'A' as int == small as int - 'a' as int)
  }

  ghost predicate StartsLike(line: string, start: string) {
    |start| <= |line| && forall i | 0 <= i < |start| :: SameLetter(line[i], start[i])
  }

  lemma StartsExactly(line: string, start: string)
    requires forall i | 0 <= i < |start| :: !('A' <= start[i] <= 'Z')
    ensures LowerPrefix(start, line) <==> StartsLike(line, start)
  {
    forall i | 0 <= i < |start| && i < |line| ensures Lower(line[i]) == start[i] <==> SameLetter(line[i], start[i]) {
      LowerExactly(line[i]);
    }
  }

  /** Editable and local requirements are refused, in small and capital letters. */
  lemma LocalExactly(line: string)
    ensures ParseLine(line) == Err(LocalRequirement)
            <==> || StartsLike(line, "-e ") || StartsLike(line, "--editable ") || StartsLike(line, ".")
                 || StartsLike(line, "file:")
  {
    StartsExactly(line, "-e ");
    StartsExactly(line, "--editable ");
    StartsExactly(line, ".");
    StartsExactly(line, "file:");
  }

  // ---- Any requirement, any line ----

  /** The text, without the blanks around it, is the pin without its marker. */
  ghost predicate Spells(text: string, pin: Pin) {
    Name(pin.package) && Version(pin.version) && Strip(text) == pin.package + ("==" + pin.version)
  }

  ghost predicate ShowsUrl(text: string) {
    exists i | 0 <= i < |text| - 2 :: text[i] == ' ' && text[i + 1] == '@' && text[i + 2] == ' '
  }

  lemma {:induction false} PinIndexAt(s: string)
    requires CountPins(s) > 0
    ensures s[PinIndex(s)] == '=' && s[PinIndex(s) + 1] == '='
  {
    if !(s[0] == '=' && s[1] == '=') { PinIndexAt(s[1..]); }
  }

  lemma Halves(r: string, i: nat)
    requires i + 2 <= |r| && r[i] == '=' && r[i + 1] == '='
    ensures r == r[..i] + ("==" + r[i + 2..])
  {
    ThreeParts(r, i, i + 2);
    assert r[i..i + 2] == "==";
  }

  lemma ExactParts(r: string)
    requires ParseExact(r).Ok?
    ensures var (p, v) := ParseExact(r).value;
            IsPackage(p) && IsVersion(v) && r == p + ("==" + v)
  {
    PinIndexAt(r);
    Halves(r, PinIndex(r));
  }

  lemma PartsParse(p: string, v: string)
    requires IsPackage(p) && IsVersion(v)
    ensures ParseExact(p + ("==" + v)) == Ok((p, v))
  {
    BaseParses(Pin(p, v, None));
    Associative(p, "==", v);
  }

  /** A requirement without a marker is accepted exactly when it spells that pin. */
  lemma ExactlySpelled(r: string, p: string, v: string)
    ensures ParseExact(r) == Ok((p, v)) <==> Name(p) && Version(v) && r == p + ("==" + v)
  {
    PackageExactly(p);
    VersionExactly(v);
    if ParseExact(r) == Ok((p, v)) { ExactParts(r); }
    if IsPackage(p) && IsVersion(v) { PartsParse(p, v); }
  }

  lemma PartsOf(left: string, right: string)
    requires forall c <- left :: c != ';'
    ensures MarkerIndex(left) == |left|
    ensures MarkerIndex(left + (";" + right)) == |left|
    ensures (left + (";" + right))[..|left|] == left && (left + (";" + right))[|left| + 1..] == right
  {
    assert forall i | 0 <= i < |left| :: left[i] in left;
    MarkerIndexOf(left, "");
    MarkerIndexOf(left, ";" + right);
    assert left + "" == left;
  }

  lemma ParsedParts(left: string, right: string)
    requires forall c <- left :: c != ';'
    ensures match ParseExact(Strip(left))
            case Err(e) => ParsePin(left) == Err(e) && ParsePin(left + (";" + right)) == Err(e)
            case Ok((p, v)) =>
              && ParsePin(left) == Ok(Pin(p, v, None))
              && ParsePin(left + (";" + right))
                 == if Strip(right) == "" then Err(EmptyMarker) else Ok(Pin(p, v, Some(Strip(right))))
  {
    PartsOf(left, right);
    assert left[..|left|] == left;
  }

  /** A requirement is a pin, shows a URL, or is not pinned. */
  lemma ExactErrors(left: string)
    ensures var r := ParseExact(Strip(left));
            && (r == Err(DirectUrl) <==> ShowsUrl(Strip(left)))
            && (r == Err(NotPinned) <==> !ShowsUrl(Strip(left)) && forall q :: !Spells(left, q))
            && (r.Ok? <==> exists q :: Spells(left, q))
            && forall q :: Spells(left, q) <==> r == Ok((q.package, q.version))
  {
    var r := ParseExact(Strip(left));
    forall q ensures Spells(left, q) <==> r == Ok((q.package, q.version)) {
      ExactlySpelled(Strip(left), q.package, q.version);
    }
    if r.Ok? {
      assert Spells(left, Pin(r.value.0, r.value.1, None));
    }
  }

  /** Every text is a requirement, or a requirement, the first semicolon and a marker.  It is accepted as
      a pin exactly when the requirement spells it and a marker that is there is not blank. */
  lemma PinExactly(left: string, right: string, pin: Pin)
    requires forall c <- left :: c != ';'
    ensures ParsePin(left) == Ok(pin) <==> Spells(left, pin) && pin.marker == None
    ensures ParsePin(left + (";" + right)) == Ok(pin)
            <==> Spells(left, pin) && Strip(right) != "" && pin.marker == Some(Strip(right))
  {
    ParsedParts(left, right);
    ExactErrors(left);
  }

  /** Each error has its own cause. */
  lemma PinErrorsExactly(left: string, right: string)
    requires forall c <- left :: c != ';'
    ensures ParsePin(left) == Err(DirectUrl) <==> ShowsUrl(Strip(left))
    ensures ParsePin(left + (";" + right)) == Err(DirectUrl) <==> ShowsUrl(Strip(left))
    ensures ParsePin(left) == Err(NotPinned) <==> !ShowsUrl(Strip(left)) && forall q :: !Spells(left, q)
    ensures ParsePin(left + (";" + right)) == Err(NotPinned)
            <==> !ShowsUrl(Strip(left)) && forall q :: !Spells(left, q)
    ensures ParsePin(left + (";" + right)) == Err(EmptyMarker) <==> Strip(right) == "" && exists q :: Spells(left, q)
  {
    ParsedParts(left, right);
    ExactErrors(left);
  }

  ghost predicate IsOption(w: string) {
    exists h :: Hash(h) && w == "--hash=sha256:" + h
  }

  lemma OptionExactly(w: string)
    ensures IsOption(w) <==> IsHashToken(w)
  {
    forall h ensures Hash(h) <==> IsHash(h) { HashExactly(h); }
    forall h ensures IsHashToken("--hash=sha256:" + h) <==> IsHash(h) { HashOptionExactly(h); }
    if IsHashToken(w) {
      SplitAt(w, 14);
      assert w == "--hash=sha256:" + w[14..];
    }
  }

  /** Options are left out of the other parts of a line, one by one. */
  lemma OtherExactly(w: string)
    ensures OtherTokens([w]) == if IsOption(w) then [] else [w]
  {
    OptionExactly(w);
  }

  lemma {:induction false} HashesExactly(tokens: seq<string>)
    ensures HashesOf(tokens) != [] <==> exists w <- tokens :: IsOption(w)
  {
    if tokens != [] {
      HashesExactly(tokens[1..]);
      OptionExactly(tokens[0]);
      assert forall w :: w in tokens <==> w == tokens[0] || w in tokens[1..];
    }
  }

  /** A line that names no place is accepted as the normal form of its other parts when one part is an
      option; without one that is its own error. */
  lemma LineExactly(line: string, r: string)
    requires ParseLine(line) != Err(LocalRequirement)
    ensures var normal := Normalize(Join(OtherTokens(Split(line))));
            && (ParseLine(line) == Ok(r) <==> normal == Ok(r) && exists w <- Split(line) :: IsOption(w))
            && (ParseLine(line) == Err(MissingHashes) <==> normal.Ok? && forall w <- Split(line) :: !IsOption(w))
            && (normal.Err? ==> ParseLine(line) == normal)
  {
    RemoveHashesFilters(line);
    HashesExactly(Split(line));
  }
}

/** Rendering pinned requirements in the continuation-line style of the committed manifests, and
    reading them back. */
module ManifestRendering {
  import opened Wrappers
  import opened Text
  import opened Manifest
  import opened Requirements
  import opened Sequences

  datatype LockedRequirement = Locked(pin: Pin, hashes: seq<string>)

  /** A valid pin whose marker has its words separated by single blanks. */
  predicate NormalPin(pin: Pin) {
    ValidPin(pin) && (pin.marker.Some? ==> WhitespaceNormal(pin.marker.value))
  }

  predicate ValidLocked(r: LockedRequirement) {
    NormalPin(r.pin) && r.hashes != [] && forall h <- r.hashes :: IsHash(h)
  }

  function HashToken(h: string): string {
    HASH_PREFIX + h
  }

  function HashTokens(hashes: seq<string>): seq<string> {
    if hashes == [] then [] else [HashToken(hashes[0])] + HashTokens(hashes[1..])
  }

  /** Indented words, one a line, each but the last continued. */
  function WordLines(words: seq<string>): seq<string> {
    if words == [] then []
    else if |words| == 1 then ["    " + words[0]]
    else ["    " + words[0] + " \\"] + WordLines(words[1..])
  }

  function RenderLines(rs: seq<LockedRequirement>): seq<string> {
    if rs == [] then []
    else [Show(rs[0].pin) + " \\"] + (WordLines(HashTokens(rs[0].hashes)) + RenderLines(rs[1..]))
  }

  function Render(rs: seq<LockedRequirement>): string {
    Lines(RenderLines(rs))
  }

  function Shown(rs: seq<LockedRequirement>): seq<string> {
    seq(|rs|, i requires 0 <= i < |rs| => Show(rs[i].pin))
  }

  /** No word of the marker reads as a hash option. */
  predicate MarkerHasNoHash(pin: Pin) {
    pin.marker.Some? ==> forall w <- Split(pin.marker.value) :: !IsHashToken(w)
  }

  // ---- Folding a rendered requirement gives one logical line ----

  function WordSuffix(words: seq<string>): string {
    if words == [] then "" else " " + words[0] + WordSuffix(words[1..])
  }

  function FullLine(r: LockedRequirement): string {
    Show(r.pin) + WordSuffix(HashTokens(r.hashes))
  }

  lemma HashTokenIsOne(h: string)
    requires IsHash(h)
    ensures IsHashToken(HashToken(h)) && IsToken(HashToken(h)) && HashToken(h)[0] == '-'
    ensures Trimmed(HashToken(h)) && !HasLineBreak(HashToken(h)) && !Continues(HashToken(h))
  {
  }

  lemma StripIndent(w: string)
    requires w != "" && Trimmed(w)
    ensures Strip("    " + w) == w
  {
    StripBlank("   " + w);
    StripBlank("  " + w);
    StripBlank(" " + w);
    StripBlank(w);
    assert "    " + w == " " + ("   " + w) && "   " + w == " " + ("  " + w) && "  " + w == " " + (" " + w);
  }

  lemma StripBlank(s: string)
    ensures Strip(" " + s) == Strip(s)
  {
  }

  lemma DropContinuation(s: string)
    requires s != "" && !IsSpace(s[|s| - 1])
    ensures Continues(s + " \\") && DropBackslash(s + " \\") == s
  {
    var c := s + " \\";
    assert c[..|c| - 1] == s + " ";
    RStripBlank(s);
  }

  lemma RStripBlank(s: string)
    requires s != "" && !IsSpace(s[|s| - 1])
    ensures RStrip(s + " ") == s
  {
  }

  /** One step of the fold over a line that continues. */
  lemma FoldContinues(line: string, rest: seq<string>, current: string, s: string)
    requires s != "" && !IsSpace(s[|s| - 1])
    requires !Skipped(Strip(line)) && Extend(current, Strip(line)) == s + " \\"
    ensures Fold([line] + rest, current) == Fold(rest, s)
  {
    DropContinuation(s);
    assert ([line] + rest)[1..] == rest;
  }

  /** One step of the fold over a line that completes a logical line. */
  lemma FoldEnds(line: string, rest: seq<string>, current: string)
    requires !Skipped(Strip(line)) && !Continues(Extend(current, Strip(line)))
    ensures Fold([line] + rest, current) == Prepend([Extend(current, Strip(line))], Fold(rest, ""))
  {
  }

  /** A word that can stand on a continued line of its own. */
  predicate LineWord(w: string) {
    w != "" && Trimmed(w) && w[0] != '#' && !Continues(w) && !HasLineBreak(w)
  }

  lemma FoldWordContinues(w: string, rest: seq<string>, current: string)
    requires LineWord(w) && current != ""
    ensures Fold(["    " + w + " \\"] + rest, current) == Fold(rest, current + " " + w)
  {
    var continued := w + " \\";
    assert "    " + w + " \\" == "    " + continued;
    assert Trimmed(continued) by { assert !IsSpace('\\'); }
    StripIndent(continued);
    assert Extend(current, continued) == current + " " + w + " \\";
    FoldContinues("    " + continued, rest, current, current + " " + w);
  }

  lemma {:induction false} FoldWordLines(words: seq<string>, current: string, rest: seq<string>)
    requires words != [] && (forall w <- words :: LineWord(w)) && current != ""
    ensures Fold(WordLines(words) + rest, current) == Prepend([current + WordSuffix(words)], Fold(rest, ""))
    decreases words
  {
    var w := words[0];
    assert w in words;
    var next := current + " " + w;
    assert current + WordSuffix(words) == next + WordSuffix(words[1..]);
    if |words| == 1 {
      StripIndent(w);
      FoldEnds("    " + w, rest, current);
      assert words[1..] == [] && next + "" == next;
    } else {
      assert WordLines(words) + rest == ["    " + w + " \\"] + (WordLines(words[1..]) + rest);
      FoldWordContinues(w, WordLines(words[1..]) + rest, current);
      FoldWordLines(words[1..], next, rest);
    }
  }

  lemma {:induction false} HashTokensAreWords(hashes: seq<string>)
    requires forall h <- hashes :: IsHash(h)
    ensures |HashTokens(hashes)| == |hashes|
    ensures forall w <- HashTokens(hashes) :: LineWord(w) && IsToken(w)
  {
    if hashes != [] {
      assert hashes[0] in hashes;
      HashTokenIsOne(hashes[0]);
      HashTokensAreWords(hashes[1..]);
    }
  }

  function FullLines(rs: seq<LockedRequirement>): seq<string> {
    seq(|rs|, i requires 0 <= i < |rs| => FullLine(rs[i]))
  }

  lemma FoldRenderedOne(r: LockedRequirement, rest: seq<string>)
    requires ValidLocked(r)
    ensures Fold([Show(r.pin) + " \\"] + (WordLines(HashTokens(r.hashes)) + rest), "")
            == Prepend([FullLine(r)], Fold(rest, ""))
  {
    var head := Show(r.pin) + " \\";
    assert Trimmed(head) by { assert !IsSpace('\\'); }
    FoldContinues(head, WordLines(HashTokens(r.hashes)) + rest, "", Show(r.pin));
    HashTokensAreWords(r.hashes);
    FoldWordLines(HashTokens(r.hashes), Show(r.pin), rest);
  }

  lemma FullLinesHead(rs: seq<LockedRequirement>)
    requires rs != []
    ensures FullLines(rs) == [FullLine(rs[0])] + FullLines(rs[1..])
  {
  }

  lemma {:induction false} FoldRendered(rs: seq<LockedRequirement>)
    requires forall r <- rs :: ValidLocked(r)
    ensures Fold(RenderLines(rs), "") == Ok(FullLines(rs))
  {
    if rs != [] {
      assert rs[0] in rs;
      FoldRendered(rs[1..]);
      FoldRenderedOne(rs[0], RenderLines(rs[1..]));
      FullLinesHead(rs);
    } else {
      assert FullLines(rs) == [];
    }
  }

  lemma {:induction false} WordLinesHaveNoBreak(words: seq<string>)
    requires forall w <- words :: LineWord(w)
    ensures forall l <- WordLines(words) :: !HasLineBreak(l)
  {
    if words != [] {
      assert words[0] in words;
      WordLinesHaveNoBreak(words[1..]);
      assert !IsLineBreak(' ') && !IsLineBreak('\\');
    }
  }

  lemma ShownHasNoBreak(pin: Pin)
    requires NormalPin(pin)
    ensures !HasLineBreak(Show(pin)) && !HasLineBreak(Show(pin) + " \\")
  {
    BaseChars(pin);
    TokenText(Base(pin));
    if pin.marker.Some? { NormalText(pin.marker.value); }
    assert !IsLineBreak(' ') && !IsLineBreak(';') && !IsLineBreak('\\');
  }

  lemma {:induction false} RenderedHasNoBreak(rs: seq<LockedRequirement>)
    requires forall r <- rs :: ValidLocked(r)
    ensures forall l <- RenderLines(rs) :: !HasLineBreak(l)
  {
    if rs != [] {
      assert rs[0] in rs;
      ShownHasNoBreak(rs[0].pin);
      HashTokensAreWords(rs[0].hashes);
      WordLinesHaveNoBreak(HashTokens(rs[0].hashes));
      RenderedHasNoBreak(rs[1..]);
    }
  }

  // ---- Parsing that line ----

  lemma WordSuffixBoundary(words: seq<string>)
    ensures AtBoundary(WordSuffix(words))
  {
  }

  lemma {:induction false} SplitWordSuffix(words: seq<string>)
    requires forall w <- words :: IsToken(w)
    ensures Split(WordSuffix(words)) == words
  {
    if words != [] {
      var w, rest := words[0], WordSuffix(words[1..]);
      assert w in words;
      SplitWordSuffix(words[1..]);
      WordSuffixBoundary(words[1..]);
      Associative([' '], w, rest);
      TailOfConcat([' '], w + rest);
      assert Split(WordSuffix(words)) == Split(w + rest);
      SplitToken(w, rest);
    }
  }

  lemma {:induction false} HashTokensFilter(hashes: seq<string>)
    requires forall h <- hashes :: IsHash(h)
    ensures OtherTokens(HashTokens(hashes)) == [] && HashesOf(HashTokens(hashes)) == hashes
  {
    if hashes != [] {
      assert hashes[0] in hashes;
      HashTokenIsOne(hashes[0]);
      HashTokensFilter(hashes[1..]);
      assert HashToken(hashes[0])[14..] == hashes[0];
    }
  }

  lemma {:induction false} OtherTokensConcat(a: seq<string>, b: seq<string>)
    ensures OtherTokens(a + b) == OtherTokens(a) + OtherTokens(b)
    ensures HashesOf(a + b) == HashesOf(a) + HashesOf(b)
  {
    if a == [] {
      assert a + b == b;
    } else {
      TailOfConcat(a, b);
      OtherTokensConcat(a[1..], b);
      Associative(if IsHashToken(a[0]) then [] else [a[0]], OtherTokens(a[1..]), OtherTokens(b));
      Associative(if IsHashToken(a[0]) then [a[0][14..]] else [], HashesOf(a[1..]), HashesOf(b));
    }
  }

  lemma {:induction false} OtherTokensKeepsAll(ts: seq<string>)
    ensures |OtherTokens(ts)| <= |ts|
    ensures OtherTokens(ts) == ts <==> forall w <- ts :: !IsHashToken(w)
    ensures forall w <- OtherTokens(ts) :: w in ts
  {
    if ts != [] { OtherTokensKeepsAll(ts[1..]); }
  }

  function ShownTokens(pin: Pin): seq<string> {
    if pin.marker.Some? then [Base(pin), ";"] + Split(pin.marker.value) else [Base(pin)]
  }

  lemma ShownIsJoined(pin: Pin)
    requires NormalPin(pin)
    ensures Show(pin) == Join(ShownTokens(pin)) && Split(Show(pin)) == ShownTokens(pin)
  {
    BaseChars(pin);
    if pin.marker.Some? {
      SplitTokens(pin.marker.value);
    }
    SplitInvertsJoin(ShownTokens(pin));
  }

  /** What the hash filter leaves of a requirement's tokens. */
  function KeptTokens(pin: Pin): seq<string> {
    if pin.marker.Some? then [Base(pin), ";"] + OtherTokens(Split(pin.marker.value)) else [Base(pin)]
  }

  lemma NotHashToken(w: string)
    requires w != "" && w[0] != '-'
    ensures !IsHashToken(w)
  {
  }

  lemma SplitShown(pin: Pin)
    requires NormalPin(pin)
    ensures OtherTokens(Split(Show(pin))) == KeptTokens(pin)
  {
    ShownIsJoined(pin);
    BaseChars(pin);
    NotHashToken(Base(pin));
    NotHashToken(";");
    if pin.marker.Some? {
      var words := Split(pin.marker.value);
      assert ShownTokens(pin)[1..] == [";"] + words && ([";"] + words)[1..] == words;
      assert OtherTokens([";"] + words) == [";"] + OtherTokens(words);
      assert [Base(pin)] + ([";"] + OtherTokens(words)) == KeptTokens(pin);
    }
  }

  lemma SplitLine(s: string, words: seq<string>)
    requires forall w <- words :: IsToken(w)
    ensures Split(s + WordSuffix(words)) == Split(s) + words
  {
    WordSuffixBoundary(words);
    SplitConcat(s, WordSuffix(words));
    SplitWordSuffix(words);
  }

  lemma LineTokens(r: LockedRequirement)
    requires ValidLocked(r)
    ensures OtherTokens(Split(FullLine(r))) == KeptTokens(r.pin)
    ensures HashesOf(Split(FullLine(r))) != []
  {
    var words := HashTokens(r.hashes);
    HashTokensAreWords(r.hashes);
    HashTokensFilter(r.hashes);
    SplitLine(Show(r.pin), words);
    OtherTokensConcat(Split(Show(r.pin)), words);
    SplitShown(r.pin);
    assert KeptTokens(r.pin) + [] == KeptTokens(r.pin);
  }

  lemma NotLocal(r: LockedRequirement)
    requires ValidLocked(r)
    ensures !IsLocal(FullLine(r))
  {
    var line, p := FullLine(r), r.pin.package;
    assert IsAlnum(line[0]);
    assert line[|p|] == '=';
    if |p| < 5 {
      assert Lower(line[|p|]) == '=';
    } else {
      PinCharIsPlain(p[4]);
      assert line[4] == p[4] && Lower(line[4]) != ':';
    }
    NotFilePrefix(line, if |p| < 5 then |p| else 4);
  }

  lemma NotFilePrefix(line: string, i: nat)
    requires i < 5 && i < |line| && Lower(line[i]) != "file:"[i]
    ensures !LowerPrefix("file:", line)
  {
  }

  lemma ParseKept(pin: Pin)
    requires NormalPin(pin)
    ensures Normalize(Join(KeptTokens(pin))) == Ok(Show(pin)) <==> MarkerHasNoHash(pin)
  {
    if pin.marker.None? {
      ParsePinInvertsShow(pin);
    } else {
      var words := Split(pin.marker.value);
      OtherTokensKeepsAll(words);
      if OtherTokens(words) == [] {
        MarkerDropped(pin);
      } else {
        MarkerThinned(pin);
      }
    }
  }

  /** A marker that keeps some words is read as those words. */
  lemma MarkerThinned(pin: Pin)
    requires NormalPin(pin) && pin.marker.Some? && OtherTokens(Split(pin.marker.value)) != []
    ensures Normalize(Join(KeptTokens(pin))) == Ok(Show(pin))
            <==> OtherTokens(Split(pin.marker.value)) == Split(pin.marker.value)
  {
    var m := pin.marker.value;
    var kept := OtherTokens(Split(m));
    SplitTokens(m);
    OtherTokensKeepsAll(Split(m));
    JoinTrimmed(kept);
    SplitInvertsJoin(kept);
    var other := pin.(marker := Some(Join(kept)));
    ShownIsJoined(other);
    assert ShownTokens(other) == KeptTokens(pin);
    ParsePinInvertsShow(other);
    if other != pin { ShowDiffers(other, pin); }
  }

  /** A marker made of hash options only is read as empty. */
  lemma MarkerDropped(pin: Pin)
    requires ValidPin(pin) && pin.marker.Some? && OtherTokens(Split(pin.marker.value)) == []
    ensures Normalize(Join(KeptTokens(pin))) == Err(EmptyMarker)
    ensures Split(pin.marker.value) != []
  {
    var b := Base(pin);
    assert KeptTokens(pin) == [b, ";"] && [b, ";"][1..] == [";"];
    assert Join([b, ";"]) == b + " " + ";" == b + " ;";
    NormalizeLone(pin);
    assert !IsSpace(pin.marker.value[0]);
  }

  lemma NormalizeLone(pin: Pin)
    requires ValidPin(pin)
    ensures Normalize(Base(pin) + " ;") == Err(EmptyMarker)
  {
    BaseChars(pin);
    LoneSeparator(Base(pin));
    BaseParses(pin);
  }

  lemma LoneSeparator(b: string)
    requires IsToken(b) && Trimmed(b) && forall i | 0 <= i < |b| :: b[i] != ';'
    ensures var v := b + " ;";
            MarkerIndex(v) == |b| + 1 && Strip(v[..|b| + 1]) == b && v[|b| + 2..] == "" && Strip("") == ""
  {
    var v := b + " ;";
    MarkerIndexOf(b + " ", ";");
    assert v == (b + " ") + ";" && v[..|b| + 1] == b + " ";
    StripPadded(b);
  }

  lemma ParseRenderedLine(r: LockedRequirement)
    requires ValidLocked(r)
    ensures ParseLine(FullLine(r)) == Ok(Show(r.pin)) <==> MarkerHasNoHash(r.pin)
  {
    NotLocal(r);
    RemoveHashesFilters(FullLine(r));
    LineTokens(r);
    ParseKept(r.pin);
  }

  lemma ShowDiffers(a: Pin, b: Pin)
    requires ValidPin(a) && ValidPin(b) && a != b
    ensures Show(a) != Show(b)
  {
    if Show(a) == Show(b) { ShowIsInjective(a, b); }
  }

  lemma ShownAreDistinct(rs: seq<LockedRequirement>)
    requires forall r <- rs :: ValidLocked(r)
    requires forall i, j | 0 <= i < j < |rs| :: rs[i].pin != rs[j].pin
    ensures Distinct(Shown(rs))
  {
    forall i, j | 0 <= i < j < |rs| ensures Show(rs[i].pin) != Show(rs[j].pin) {
      assert rs[i] in rs && rs[j] in rs;
      ShowDiffers(rs[i].pin, rs[j].pin);
    }
  }

  lemma TraverseRendered(rs: seq<LockedRequirement>)
    requires forall r <- rs :: ValidLocked(r)
    ensures Traverse(ParseLine, FullLines(rs)) == Ok(Shown(rs)) <==> forall r <- rs :: MarkerHasNoHash(r.pin)
  {
    var f, lines, out := ParseLine, FullLines(rs), Shown(rs);
    TraversePointwise(f, lines, out);
    forall i | 0 <= i < |rs| ensures f(lines[i]) == Ok(out[i]) <==> MarkerHasNoHash(rs[i].pin) {
      ParseRenderedLine(rs[i]);
    }
  }

  lemma ManifestFrom(text: string, lines: seq<string>, out: seq<string>)
    requires Fold(SplitLines(text), "") == Ok(lines) && out != [] && Distinct(out)
    ensures ParseManifest(text) == Ok(out) <==> Traverse(ParseLine, lines) == Ok(out)
  {
  }

  /** Rendering distinct locked requirements and parsing the text returns their normal forms in
      order, if and only if no marker holds a word that reads as a hash option. */
  lemma ParseInvertsRender(rs: seq<LockedRequirement>)
    requires rs != [] && (forall r <- rs :: ValidLocked(r))
    requires forall i, j | 0 <= i < j < |rs| :: rs[i].pin != rs[j].pin
    ensures ParseManifest(Render(rs)) == Ok(Shown(rs)) <==> forall r <- rs :: MarkerHasNoHash(r.pin)
  {
    RenderedHasNoBreak(rs);
    SplitLinesInvertsLines(RenderLines(rs));
    FoldRendered(rs);
    TraverseRendered(rs);
    ShownAreDistinct(rs);
    ManifestFrom(Render(rs), FullLines(rs), Shown(rs));
  }

  const SPOILED := Locked(Pin("a", "1", Some(HashToken(seq(64, _ => '0')))), [seq(64, _ => '0')])

  /** The excluded case exists: a valid requirement the parser does not return. */
  lemma SpoiledMarker()
    ensures ValidLocked(SPOILED) && ParseManifest(Render([SPOILED])) != Ok(Shown([SPOILED]))
  {
    var h := seq(64, _ => '0');
    var m := HashToken(h);
    HashTokenIsOne(h);
    SplitSingle(m);
    assert m in Split(m);
    assert NameEnd("a") == 1;
    assert SPOILED in [SPOILED];
    ParseInvertsRender([SPOILED]);
  }
}

/** `bounded_log` and `bounded_error`: secrets are replaced left to right, one secret after the
    other, and the UTF-8 bytes are then cut at a limit. */
module BoundedText {
  import opened Utf8

  const REDACTED_WORD := "REDACTED"
  const LOG_WORD := "truncated"
  const ERROR_WORD := "truncated build output"
  const REDACTED := "[" + REDACTED_WORD + "]"
  const LOG_TRAILER := "\n...[" + LOG_WORD + "]\n"
  const ERROR_MARKER := "...[" + ERROR_WORD + "]\n"

  ghost predicate Contains(text: string, word: string) {
    exists i | 0 <= i <= |text| :: word <= text[i..]
  }

  /** `text.replace(secret, mark)` for a non-empty secret. */
  function Replace(text: string, secret: string, mark: string): string
    requires secret != ""
    decreases |text|
  {
    if text == "" then ""
    else if secret <= text then mark + Replace(text[|secret|..], secret, mark)
    else [text[0]] + Replace(text[1..], secret, mark)
  }

  function RedactOne(text: string, secret: string): string {
    if secret == "" then text else Replace(text, secret, REDACTED)
  }

  function Redact(text: string, secrets: seq<string>): string
    decreases secrets
  {
    if secrets == [] then text
    else Redact(RedactOne(text, secrets[0]), secrets[1..])
  }

  /** Python's `bs[:stop]` and `bs[start:]`, where a negative bound counts from the end. */
  function SliceBound(n: nat, bound: int): (k: nat)
    ensures k <= n
  {
    if bound < 0 then (if n + bound < 0 then 0 else n + bound) else if bound > n then n else bound
  }

  /** Keeps the start of `s` and announces the cut with `trailer`. */
  function KeepHead(s: string, limit: int, trailer: string): string {
    var encoded := Encode(s);
    if |encoded| <= limit then s
    else DecodeIgnore(encoded[..SliceBound(|encoded|, limit)]) + trailer
  }

  /** Keeps the end of `s` after `marker`, which is counted against the limit. */
  function KeepTail(s: string, limit: int, marker: string): string {
    var encoded := Encode(s);
    if |encoded| <= limit then s
    else marker + KeptTail(s, limit, |Encode(marker)|)
  }

  function KeptTail(s: string, limit: int, markerSize: nat): string {
    var encoded := Encode(s);
    DecodeIgnore(encoded[SliceBound(|encoded|, -(limit - markerSize))..])
  }

  function BoundedLogText(text: string, secrets: seq<string>, limit: int): string {
    KeepHead(Redact(text, secrets), limit, LOG_TRAILER)
  }

  function BoundedErrorText(text: string, secrets: seq<string>, limit: int): string {
    KeepTail(Redact(text, secrets), limit, ERROR_MARKER)
  }

  method BoundedLog(text: string, secrets: seq<string>, limit: int) returns (r: string)
    ensures r == BoundedLogText(text, secrets, limit)
  {
    var redacted := RedactAll(text, secrets);
    var encoded := Encode(redacted);
    if |encoded| <= limit {
      return redacted;
    }
    var prefix := DecodeIgnore(encoded[..SliceBound(|encoded|, limit)]);
    return prefix + LOG_TRAILER;
  }

  method BoundedError(text: string, secrets: seq<string>, limit: int) returns (r: string)
    ensures r == BoundedErrorText(text, secrets, limit)
  {
    var redacted := RedactAll(text, secrets);
    var encoded := Encode(redacted);
    if |encoded| <= limit {
      return redacted;
    }
    var marker := ERROR_MARKER;
    var tail := DecodeIgnore(encoded[SliceBound(|encoded|, -(limit - |Encode(marker)|))..]);
    return marker + tail;
  }

  /** The redaction loop the two entry points share. */
  method RedactAll(text: string, secrets: seq<string>) returns (redacted: string)
    ensures redacted == Redact(text, secrets)
  {
    redacted := text;
    for i := 0 to |secrets|
      invariant Redact(redacted, secrets[i..]) == Redact(text, secrets)
    {
      assert secrets[i..][1..] == secrets[i + 1..];
      if secrets[i] != "" {
        redacted := Replace(redacted, secrets[i], REDACTED);
      }
    }
  }

  // ---- Occurrences ----

  lemma ContainsAt(text: string, word: string, i: nat)
    requires i <= |text| && word <= text[i..]
    ensures Contains(text, word)
  {
  }

  lemma ContainsTake(text: string, k: nat, p: string)
    requires k <= |text| && Contains(text[..k], p)
    ensures Contains(text, p)
  {
    var i :| 0 <= i <= k && p <= text[..k][i..];
    assert text[i..][..|p|] == text[..k][i..][..|p|] == p;
    ContainsAt(text, p, i);
  }

  lemma ContainsInPart(a: string, b: string, c: string, p: string)
    requires Contains(b, p)
    ensures Contains(a + b + c, p)
  {
    var whole := a + b + c;
    assert whole[|a|..][..|b|] == b;
    ContainsTake(whole[|a|..], |b|, p);
  }

  lemma ContainsInHead(head: string, rest: string, p: string)
    requires Contains(head, p)
    ensures Contains(head + rest, p)
  {
    assert (head + rest)[..|head|] == head;
    ContainsTake(head + rest, |head|, p);
  }

  lemma StopsBefore(p: string, t: string, i: nat, k: nat)
    requires i <= k < |t| && p <= t[i..] && t[k] !in p
    ensures i + |p| <= k
  {
    assert forall j | i <= j < i + |p| :: t[j] == p[j - i];
  }

  lemma OccurrenceBefore(a: string, b: string, p: string, i: nat)
    requires i <= |a| < |a + b| && p <= (a + b)[i..] && b[0] !in p
    ensures Contains(a, p)
  {
    StopsBefore(p, a + b, i, |a|);
    assert a[i..i + |p|] == (a + b)[i..][..|p|];
    ContainsAt(a, p, i);
  }

  lemma OccurrenceAfter(a: string, b: string, p: string, i: nat)
    requires |a| <= i <= |a + b| && p <= (a + b)[i..]
    ensures Contains(b, p)
  {
    assert b[i - |a|..] == (a + b)[i..];
    ContainsAt(b, p, i - |a|);
  }

  /** An occurrence cannot touch a character it does not hold. */
  lemma ContainsAround(a: string, c: char, b: string, p: string)
    requires p != "" && c !in p && Contains(a + [c] + b, p)
    ensures Contains(a, p) || Contains(b, p)
  {
    var t := a + [c] + b;
    var i :| 0 <= i <= |t| && p <= t[i..];
    assert t[i] == p[0] && t[|a|] == c;
    if i <= |a| {
      assert t == a + ([c] + b) && ([c] + b)[0] == c;
      OccurrenceBefore(a, [c] + b, p, i);
    } else {
      OccurrenceAfter(a + [c], b, p, i);
    }
  }

  lemma {:induction false} ContainsAroundAll(a: string, sep: string, b: string, p: string)
    requires sep != "" && p != "" && (forall c <- sep :: c !in p) && Contains(a + sep + b, p)
    ensures Contains(a, p) || Contains(b, p)
    decreases |sep|
  {
    var rest := sep[1..];
    assert sep[0] in sep && a + sep + b == a + [sep[0]] + (rest + b);
    ContainsAround(a, sep[0], rest + b, p);
    if !Contains(a, p) && rest != "" {
      assert rest + b == "" + rest + b && forall c <- rest :: c in sep;
      ContainsAroundAll("", rest, b, p);
    }
    if rest == "" { assert rest + b == b; }
  }

  // ---- No secret survives ----

  /** A secret over an alphabet that shares no character with the marker punctuation. */
  ghost predicate PlainSecret(p: string) {
    p != "" && '[' !in p && ']' !in p && '.' !in p && '\n' !in p
  }

  /** `mark` is `word` in brackets. */
  ghost predicate Bracketed(mark: string, word: string) {
    mark == ['['] + word + [']']
  }

  /** A bracketed word that does not hold `p` does not help to form it. */
  lemma PastMark(mark: string, word: string, tail: string, p: string)
    requires Bracketed(mark, word) && PlainSecret(p) && !Contains(word, p) && Contains(mark + tail, p)
    ensures Contains(tail, p)
  {
    assert mark + tail == "" + ['['] + (word + [']'] + tail);
    ContainsAround("", '[', word + [']'] + tail, p);
    ContainsAround(word, ']', tail, p);
  }

  /** A prefix without the mark's first character was already a prefix of the text. */
  lemma {:induction false} PlainPrefixIsOld(text: string, secret: string, mark: string, p: string)
    requires secret != "" && p != "" && mark != "" && mark[0] !in p && p <= Replace(text, secret, mark)
    ensures p <= text && !(secret <= text)
  {
    var r := Replace(text, secret, mark);
    assert p[0] == r[0] && text != "";
    if |p| > 1 {
      assert r[1..] == Replace(text[1..], secret, mark) && p[1..] <= r[1..];
      PlainPrefixIsOld(text[1..], secret, mark, p[1..]);
      assert p == [p[0]] + p[1..];
    }
  }

  /** What a replacement leaves in was there before, and is not what it replaced. */
  lemma {:induction false} ReplaceAddsNothing(text: string, secret: string, mark: string, word: string, p: string)
    requires secret != "" && Bracketed(mark, word) && PlainSecret(p) && !Contains(word, p)
    requires Contains(Replace(text, secret, mark), p)
    ensures Contains(text, p) && p != secret
    decreases |text|
  {
    if text == "" {
    } else if secret <= text {
      PastMark(mark, word, Replace(text[|secret|..], secret, mark), p);
      ReplaceAddsNothing(text[|secret|..], secret, mark, word, p);
    } else {
      ReplaceStepAddsNothing(text, secret, mark, p);
      if !(p <= text) {
        ReplaceAddsNothing(text[1..], secret, mark, word, p);
      } else {
        ContainsAt(text, p, 0);
      }
    }
  }

  /** Past a character that is kept, the occurrence is at the front or in the rest. */
  lemma ReplaceStepAddsNothing(text: string, secret: string, mark: string, p: string)
    requires secret != "" && text != "" && !(secret <= text) && p != "" && mark != "" && mark[0] !in p
    requires Contains(Replace(text, secret, mark), p)
    ensures p <= text || Contains(Replace(text[1..], secret, mark), p)
  {
    var r, rest := Replace(text, secret, mark), Replace(text[1..], secret, mark);
    var i :| 0 <= i <= |r| && p <= r[i..];
    assert r == [text[0]] + rest;
    if i == 0 {
      PlainPrefixIsOld(text, secret, mark, p);
    } else {
      assert r[i..] == rest[i - 1..];
      ContainsAt(rest, p, i - 1);
    }
  }

  lemma {:induction false} RedactAddsNothing(text: string, secrets: seq<string>, p: string)
    requires PlainSecret(p) && !Contains(REDACTED_WORD, p)
    requires Contains(Redact(text, secrets), p)
    ensures Contains(text, p) && p !in secrets
    decreases secrets
  {
    if secrets != [] {
      RedactAddsNothing(RedactOne(text, secrets[0]), secrets[1..], p);
      if secrets[0] != "" {
        ReplaceAddsNothing(text, secrets[0], REDACTED, REDACTED_WORD, p);
      }
    }
  }

  lemma TrailerHoldsNothing(prefix: string, p: string)
    requires PlainSecret(p) && !Contains(LOG_WORD, p) && Contains(prefix + LOG_TRAILER, p)
    ensures Contains(prefix, p)
  {
    assert prefix + LOG_TRAILER == prefix + "\n...[" + (LOG_WORD + "]\n" + "");
    ContainsAroundAll(prefix, "\n...[", LOG_WORD + "]\n" + "", p);
    if !Contains(prefix, p) { ContainsAroundAll(LOG_WORD, "]\n", "", p); }
  }

  lemma MarkerHoldsNothing(tail: string, p: string)
    requires PlainSecret(p) && !Contains(ERROR_WORD, p) && Contains(ERROR_MARKER + tail, p)
    ensures Contains(tail, p)
  {
    assert ERROR_MARKER + tail == "" + "...[" + (ERROR_WORD + "]\n" + tail);
    ContainsAroundAll("", "...[", ERROR_WORD + "]\n" + tail, p);
    ContainsAroundAll(ERROR_WORD, "]\n", tail, p);
  }

  /** Whatever the log shows of a plain word is in the redacted text. */
  lemma LogAddsNothing(s: string, limit: int, p: string)
    requires PlainSecret(p) && !Contains(LOG_WORD, p) && Contains(KeepHead(s, limit, LOG_TRAILER), p)
    ensures Contains(s, p)
  {
    var encoded := Encode(s);
    if |encoded| > limit {
      var n := SliceBound(|encoded|, limit);
      CutPrefix(s, n);
      var prefix := DecodeIgnore(encoded[..n]);
      TrailerHoldsNothing(prefix, p);
      assert s[..|prefix|] == prefix;
      ContainsTake(s, |prefix|, p);
    }
  }

  lemma ErrorAddsNothing(s: string, limit: int, p: string)
    requires PlainSecret(p) && !Contains(ERROR_WORD, p) && Contains(KeepTail(s, limit, ERROR_MARKER), p)
    ensures Contains(s, p)
  {
    var encoded := Encode(s);
    if |encoded| > limit {
      var k := SliceBound(|encoded|, -(limit - |Encode(ERROR_MARKER)|));
      CutSuffix(s, k);
      var tail := DecodeIgnore(encoded[k..]);
      MarkerHoldsNothing(tail, p);
    }
  }

  /** Whatever the text, the other secrets and the limit, the log shows no listed secret. */
  lemma LogHidesSecret(text: string, secrets: seq<string>, limit: int, p: string)
    requires p in secrets && PlainSecret(p)
    requires !Contains(REDACTED_WORD, p) && !Contains(LOG_WORD, p)
    ensures !Contains(BoundedLogText(text, secrets, limit), p)
  {
    if Contains(BoundedLogText(text, secrets, limit), p) {
      LogAddsNothing(Redact(text, secrets), limit, p);
      RedactAddsNothing(text, secrets, p);
    }
  }

  /** The same for the error text, which keeps the end instead of the start. */
  lemma ErrorHidesSecret(text: string, secrets: seq<string>, limit: int, p: string)
    requires p in secrets && PlainSecret(p)
    requires !Contains(REDACTED_WORD, p) && !Contains(ERROR_WORD, p)
    ensures !Contains(BoundedErrorText(text, secrets, limit), p)
  {
    if Contains(BoundedErrorText(text, secrets, limit), p) {
      ErrorAddsNothing(Redact(text, secrets), limit, p);
      RedactAddsNothing(text, secrets, p);
    }
  }

  // ---- What a short log can show ----

  function Cut(s: string, n: nat): string {
    if |s| <= n then s else s[..n]
  }

  /** A replacement leaves the text alone up to the first occurrence, and puts the mark there. */
  lemma {:induction false} ReplaceHead(text: string, secret: string, mark: string) returns (k: nat, tail: string)
    requires secret != ""
    ensures k <= |text| && forall i | 0 <= i < k :: !(secret <= text[i..])
    ensures Replace(text, secret, mark) == if k == |text| then text else text[..k] + mark + tail
    decreases |text|
  {
    if text == "" {
      k, tail := 0, "";
    } else if secret <= text {
      k, tail := 0, Replace(text[|secret|..], secret, mark);
      assert text[0..] == text && text[..0] + mark + tail == mark + tail;
    } else {
      var rest := text[1..];
      k, tail := ReplaceHead(rest, secret, mark);
      assert forall i | 0 <= i < k :: rest[i..] == text[i + 1..];
      assert text[0..] == text && [text[0]] + rest == text;
      assert k < |rest| ==> [text[0]] + (rest[..k] + mark + tail) == text[..k + 1] + mark + tail;
      k := k + 1;
      forall i | 0 <= i < k ensures !(secret <= text[i..]) {
        if i > 0 { assert rest[i - 1..] == text[i..]; }
      }
    }
  }

  lemma OccursBefore(text: string, k: nat, secret: string)
    requires secret != "" && k <= |text| && Contains(text[..k], secret)
    ensures exists i | 0 <= i < k :: secret <= text[i..]
  {
    var i :| 0 <= i <= k && secret <= text[..k][i..];
    assert text[i..][..|secret|] == text[..k][i..][..|secret|];
    assert secret <= text[i..];
  }

  lemma NotBeforeFirst(text: string, secret: string, k: nat)
    requires secret != "" && k <= |text| && forall i | 0 <= i < k :: !(secret <= text[i..])
    ensures !Contains(text[..k], secret)
  {
    if Contains(text[..k], secret) { OccursBefore(text, k, secret); }
  }

  lemma ContainsPrefix(s: string, t: string, p: string)
    requires s <= t && Contains(s, p)
    ensures Contains(t, p)
  {
    assert t[..|s|] == s;
    ContainsTake(t, |s|, p);
  }

  /** A mark that begins inside the first `n` characters shows there no more than its own start. */
  lemma CutMark(head: string, mark: string, tail: string, n: nat, p: string)
    requires |head| < n && n - |head| <= |mark| && p != "" && mark[0] !in p
    requires Contains(Cut(head + mark + tail, n), p)
    ensures Contains(head, p) || Contains(mark[..n - |head|], p)
  {
    var shown := mark[..n - |head|];
    assert Cut(head + mark + tail, n) == head + [mark[0]] + shown[1..];
    ContainsAround(head, mark[0], shown[1..], p);
  }

  /** Before the first occurrence. */
  lemma ShortBefore(text: string, secret: string, k: nat, n: nat, p: string)
    requires k <= |text| && !Contains(text[..k], secret) && (k == |text| || n <= k)
    requires Contains(Cut(text, n), p)
    ensures p != secret
  {
    assert Cut(text, n) <= text[..k];
    ContainsPrefix(Cut(text, n), text[..k], p);
  }

  /** Around the first occurrence. */
  lemma ShortAt(text: string, secret: string, mark: string, tail: string, k: nat, n: nat, p: string)
    requires k < |text| && k < n <= |mark| && !Contains(text[..k], secret) && p != "" && mark[0] !in p
    requires Contains(Cut(text[..k] + mark + tail, n), p)
    ensures Contains(mark[..n], p) || (p != secret && Contains(Cut(text, n), p))
  {
    CutMark(text[..k], mark, tail, n, p);
    if Contains(text[..k], p) {
      assert text[..k] <= Cut(text, n);
      ContainsPrefix(text[..k], Cut(text, n), p);
    } else {
      assert mark[..n - k] <= mark[..n];
      ContainsPrefix(mark[..n - k], mark[..n], p);
    }
  }

  /** In its first characters a replacement shows no plain word that the text or the mark does not. */
  lemma ShortReplace(text: string, secret: string, mark: string, n: nat, p: string)
    requires secret != "" && p != "" && n <= |mark| && mark != "" && mark[0] !in p
    requires Contains(Cut(Replace(text, secret, mark), n), p)
    ensures Contains(mark[..n], p) || (p != secret && Contains(Cut(text, n), p))
  {
    var k, tail := ReplaceHead(text, secret, mark);
    NotBeforeFirst(text, secret, k);
    if k == |text| || n <= k {
      assert Cut(Replace(text, secret, mark), n) == Cut(text, n);
      ShortBefore(text, secret, k, n, p);
    } else {
      ShortAt(text, secret, mark, tail, k, n, p);
    }
  }

  /** Whatever the secrets, the first characters of the redacted text show a listed plain secret only
      inside the start of a replacement. */
  lemma {:induction false} ShortRedact(text: string, secrets: seq<string>, n: nat, p: string)
    requires PlainSecret(p) && n <= |REDACTED| && Contains(Cut(Redact(text, secrets), n), p)
    ensures Contains(REDACTED[..n], p) || (p !in secrets && Contains(Cut(text, n), p))
    decreases secrets
  {
    if secrets != [] {
      var s := secrets[0];
      assert secrets == [s] + secrets[1..];
      ShortRedact(RedactOne(text, s), secrets[1..], n, p);
      if s != "" && !Contains(REDACTED[..n], p) {
        ShortReplace(text, s, REDACTED, n, p);
      }
    }
  }

  /** With a limit below the length of a replacement. */
  lemma ShortLogShows(text: string, secrets: seq<string>, limit: nat, p: string)
    requires p in secrets && PlainSecret(p) && limit < |REDACTED| && !Contains(LOG_WORD, p)
    requires Contains(BoundedLogText(text, secrets, limit), p)
    ensures Contains(REDACTED[..limit], p)
  {
    ShortHead(Redact(text, secrets), limit, p);
    ShortRedact(text, secrets, limit, p);
  }

  lemma ShortHead(s: string, limit: nat, p: string)
    requires PlainSecret(p) && !Contains(LOG_WORD, p) && Contains(KeepHead(s, limit, LOG_TRAILER), p)
    ensures Contains(Cut(s, limit), p)
  {
    var encoded := Encode(s);
    EncodeAtLeastLength(s);
    if |encoded| > limit {
      CutPrefix(s, limit);
      var prefix := DecodeIgnore(encoded[..limit]);
      EncodeAtLeastLength(prefix);
      TrailerHoldsNothing(prefix, p);
      ContainsPrefix(prefix, Cut(s, limit), p);
    }
  }

  // ---- The marker words are the exact obstacle ----

  function Pad(n: nat): string {
    seq(n, _ => 'x')
  }

  lemma {:induction false} NothingToReplace(text: string, p: string, mark: string)
    requires p != "" && forall i | 0 <= i < |text| :: text[i] != p[0]
    ensures Replace(text, p, mark) == text
  {
    if text != "" {
      NothingToReplace(text[1..], p, mark);
      assert text == [text[0]] + text[1..];
    }
  }

  lemma FirstCharInWord(word: string, p: string)
    requires p != "" && Contains(word, p)
    ensures p[0] in word
  {
    var i :| 0 <= i <= |word| && p <= word[i..];
    assert p[0] == word[i];
  }

  lemma {:induction false} ReplacePastPad(n: nat, rest: string, p: string, mark: string)
    requires p != "" && p[0] != 'x'
    ensures Replace(Pad(n) + rest, p, mark) == Pad(n) + Replace(rest, p, mark)
  {
    if n == 0 {
      assert Pad(0) + rest == rest && Pad(0) + Replace(rest, p, mark) == Replace(rest, p, mark);
    } else {
      PadCons(n, rest);
      PadCons(n, Replace(rest, p, mark));
      ReplacePastPad(n - 1, rest, p, mark);
    }
  }

  lemma PadCons(n: nat, rest: string)
    requires n > 0
    ensures Pad(n) + rest == ['x'] + (Pad(n - 1) + rest)
  {
  }

  lemma ReplacePadded(p: string, before: nat, after: nat, mark: string)
    requires p != "" && p[0] != 'x'
    ensures Replace(Pad(before) + (p + Pad(after)), p, mark) == Pad(before) + (mark + Pad(after))
  {
    ReplacePastPad(before, p + Pad(after), p, mark);
    NothingToReplace(Pad(after), p, mark);
  }

  /** Among ASCII characters a byte cut is a character cut. */
  lemma AsciiCut(a: string, b: string)
    requires Ascii(a)
    ensures |Encode(a + b)| == |a| + |Encode(b)|
    ensures DecodeIgnore(Encode(a + b)[..|a|]) == a && DecodeIgnore(Encode(a + b)[|a|..]) == b
  {
    EncodeConcat(a, b);
    EncodeAscii(a);
    assert Encode(a + b)[..|a|] == Encode(a) && Encode(a + b)[|a|..] == Encode(b);
    DecodeIgnoreInvertsEncode(a);
    DecodeIgnoreInvertsEncode(b);
  }

  lemma PadIsAscii(n: nat)
    ensures Ascii(Pad(n)) && |Encode(Pad(n))| == n
  {
    EncodeAscii(Pad(n));
  }

  // ---- What a log shows ----

  /** How much of a replacement a log of this limit can show: a limit below its ten characters cuts
      it, and a negative one takes bytes off the end instead. */
  function Room(limit: int, mark: string): (n: nat)
    ensures n <= |mark|
  {
    if 0 <= limit < |mark| then limit else |mark|
  }

  /** The padding a negative limit takes off. */
  function Surplus(limit: int): nat {
    if limit < 0 then -limit else 0
  }

  lemma KeepHeadCuts(head: string, rest: string, limit: int, trailer: string)
    requires Ascii(head)
    requires var n := |head| + |Encode(rest)|; n <= limit || SliceBound(n, limit) == |head|
    ensures KeepHead(head + rest, limit, trailer)
            == if |head| + |Encode(rest)| <= limit then head + rest else head + trailer
  {
    var s := head + rest;
    AsciiCut(head, rest);
    assert SliceBound(|Encode(s)|, limit) == |head| || |Encode(s)| <= limit;
  }

  /** A cut right after an ASCII head shows all of it. */
  lemma HeadShows(head: string, rest: string, limit: int, trailer: string, p: string)
    requires Ascii(head) && Contains(head, p)
    requires var n := |head| + |Encode(rest)|; n <= limit || SliceBound(n, limit) == |head|
    ensures Contains(KeepHead(head + rest, limit, trailer), p)
  {
    ContainsInHead(head, rest, p);
    ContainsInHead(head, trailer, p);
    KeepHeadCuts(head, rest, limit, trailer);
  }

  lemma AsciiConcat(a: string, b: string)
    requires Ascii(a) && Ascii(b)
    ensures |Encode(a + b)| == |a| + |b|
  {
    EncodeConcat(a, b);
    EncodeAscii(a);
    EncodeAscii(b);
  }

  /** A log shows as much of a mark at the start as it has room for. */
  lemma MarkShowsAtStart(mark: string, limit: int, trailer: string, p: string)
    requires Ascii(mark) && Contains(mark[..Room(limit, mark)], p)
    ensures Contains(KeepHead(mark + Pad(Surplus(limit)), limit, trailer), p)
  {
    var n, pad := Room(limit, mark), Pad(Surplus(limit));
    PadIsAscii(Surplus(limit));
    AsciiConcat(mark[n..], pad);
    assert mark + pad == mark[..n] + (mark[n..] + pad);
    HeadShows(mark[..n], mark[n..] + pad, limit, trailer, p);
  }

  lemma LogShowsReplacement(p: string, limit: int)
    requires p != "" && p[0] != 'x' && Contains(REDACTED[..Room(limit, REDACTED)], p)
    ensures Contains(BoundedLogText(Pad(0) + (p + Pad(Surplus(limit))), [p], limit), p)
  {
    var text := Pad(0) + (p + Pad(Surplus(limit)));
    MarkShowsAtStart(REDACTED, limit, LOG_TRAILER, p);
    ReplacePadded(p, 0, Surplus(limit), REDACTED);
    assert Redact(text, [p]) == REDACTED + Pad(Surplus(limit));
  }

  /** A text of padding that is over the limit. */
  function Long(limit: int): nat {
    if limit < 0 then 0 else limit + 1
  }

  lemma RedactPad(p: string, n: nat)
    requires p != "" && p[0] != 'x'
    ensures Redact(Pad(n), [p]) == Pad(n) && |Encode(Pad(n))| == n
  {
    NothingToReplace(Pad(n), p, REDACTED);
    PadIsAscii(n);
  }

  lemma LongHead(limit: int, before: string, word: string, after: string, p: string)
    requires Contains(word, p)
    ensures Contains(KeepHead(Pad(Long(limit)), limit, before + word + after), p)
  {
    var text := Pad(Long(limit));
    PadIsAscii(Long(limit));
    var prefix := DecodeIgnore(Encode(text)[..SliceBound(|Encode(text)|, limit)]);
    ContainsInPart(before, word, after, p);
    assert prefix + (before + word + after) + "" == prefix + (before + word + after);
    ContainsInPart(prefix, before + word + after, "", p);
  }

  lemma LogShowsTrailer(p: string, limit: int)
    requires p != "" && p[0] != 'x' && Contains(LOG_WORD, p)
    ensures Contains(BoundedLogText(Pad(Long(limit)), [p], limit), p)
  {
    RedactPad(p, Long(limit));
    assert LOG_TRAILER == "\n...[" + LOG_WORD + "]\n";
    LongHead(limit, "\n...[", LOG_WORD, "]\n", p);
  }

  lemma WordInMark(mark: string, word: string, p: string)
    requires Bracketed(mark, word) && PlainSecret(p)
    ensures Contains(word, p) <==> Contains(mark, p)
  {
    if Contains(word, p) { ContainsInPart(['['], word, [']'], p); }
    if Contains(mark, p) && !Contains(word, p) {
      assert mark + "" == mark;
      PastMark(mark, word, "", p);
    }
  }

  lemma NoPaddingInWords(p: string)
    requires p != "" && (Contains(REDACTED, p) || Contains(LOG_WORD, p) || Contains(ERROR_WORD, p))
    ensures p[0] != 'x'
  {
    if Contains(REDACTED, p) {
      FirstCharInWord(REDACTED, p);
    } else if Contains(LOG_WORD, p) {
      FirstCharInWord(LOG_WORD, p);
    } else {
      FirstCharInWord(ERROR_WORD, p);
    }
  }

  ghost predicate LogHides(p: string, limit: int) {
    forall text, secrets | p in secrets :: !Contains(BoundedLogText(text, secrets, limit), p)
  }

  /** The marker words are the exact obstacle, for every limit: the log hides a plain secret in every
      text and among all other secrets if and only if neither the part of a replacement it has room
      for nor the trailer's word holds it. */
  lemma LogSafeExactly(p: string, limit: int)
    requires PlainSecret(p)
    ensures LogHides(p, limit) <==> !Contains(REDACTED[..Room(limit, REDACTED)], p) && !Contains(LOG_WORD, p)
  {
    assert p in [p];
    if Contains(REDACTED[..Room(limit, REDACTED)], p) {
      ContainsTake(REDACTED, Room(limit, REDACTED), p);
      NoPaddingInWords(p);
      LogShowsReplacement(p, limit);
    } else if Contains(LOG_WORD, p) {
      NoPaddingInWords(p);
      LogShowsTrailer(p, limit);
    } else {
      forall text, secrets | p in secrets ensures !Contains(BoundedLogText(text, secrets, limit), p) {
        LogHidesListed(text, secrets, limit, p);
      }
    }
  }

  lemma LogHidesListed(text: string, secrets: seq<string>, limit: int, p: string)
    requires p in secrets && PlainSecret(p)
    requires !Contains(REDACTED[..Room(limit, REDACTED)], p) && !Contains(LOG_WORD, p)
    ensures !Contains(BoundedLogText(text, secrets, limit), p)
  {
    if 0 <= limit < |REDACTED| {
      if Contains(BoundedLogText(text, secrets, limit), p) { ShortLogShows(text, secrets, limit, p); }
    } else {
      assert REDACTED[..|REDACTED|] == REDACTED;
      WordInMark(REDACTED, REDACTED_WORD, p);
      LogHidesSecret(text, secrets, limit, p);
    }
  }

  // ---- What an error text shows ----

  lemma LongTail(limit: int, before: string, word: string, after: string, p: string)
    requires Contains(word, p)
    ensures Contains(KeepTail(Pad(Long(limit)), limit, before + word + after), p)
  {
    var marker := before + word + after;
    PadIsAscii(Long(limit));
    ContainsInPart(before, word, after, p);
    ContainsInHead(marker, KeptTail(Pad(Long(limit)), limit, |Encode(marker)|), p);
  }

  lemma ErrorShowsMarker(p: string, limit: int)
    requires p != "" && p[0] != 'x' && Contains(ERROR_WORD, p)
    ensures Contains(BoundedErrorText(Pad(Long(limit)), [p], limit), p)
  {
    RedactPad(p, Long(limit));
    assert ERROR_MARKER == "...[" + ERROR_WORD + "]\n";
    LongTail(limit, "...[", ERROR_WORD, "]\n", p);
  }

  lemma KeptTailIs(head: string, tail: string, limit: int, size: nat)
    requires Ascii(head) && |head| == size - limit
    ensures KeptTail(head + tail, limit, size) == tail
  {
    AsciiCut(head, tail);
  }

  /** A cut that drops exactly the head shows all of the tail. */
  lemma TailShows(head: string, tail: string, limit: int, marker: string, p: string)
    requires Ascii(head) && Ascii(tail) && Ascii(marker) && Contains(tail, p)
    requires limit < |tail| && |head| == |marker| - limit
    ensures Contains(KeepTail(head + tail, limit, marker), p)
  {
    EncodeAscii(marker);
    AsciiConcat(head, tail);
    KeptTailIs(head, tail, limit, |marker|);
    assert marker + tail + "" == marker + tail;
    ContainsInPart(marker, tail, "", p);
  }

  /** Below the length of a replacement the cut drops bytes from the start, so padding saves it. */
  function Lead(limit: int, mark: string, marker: string): nat
    requires |mark| <= |marker|
  {
    if limit < |mark| then |marker| - limit else 0
  }

  lemma MarkShowsAtEnd(mark: string, limit: int, marker: string, p: string)
    requires Ascii(mark) && Ascii(marker) && |mark| <= |marker| && Contains(mark, p)
    ensures Contains(KeepTail(Pad(Lead(limit, mark, marker)) + mark, limit, marker), p)
  {
    if limit < |mark| {
      PadIsAscii(Lead(limit, mark, marker));
      TailShows(Pad(Lead(limit, mark, marker)), mark, limit, marker, p);
    } else {
      assert Pad(0) + mark == mark;
      EncodeAscii(mark);
    }
  }

  lemma RedactLed(p: string, n: nat)
    requires p != "" && p[0] != 'x'
    ensures Redact(Pad(n) + (p + Pad(0)), [p]) == Pad(n) + REDACTED
  {
    ReplacePadded(p, n, 0, REDACTED);
    assert REDACTED + Pad(0) == REDACTED;
  }

  lemma ErrorShowsReplacement(p: string, limit: int, mark: string, marker: string)
    requires p != "" && p[0] != 'x' && Contains(mark, p)
    requires mark == REDACTED && marker == ERROR_MARKER && Ascii(mark) && Ascii(marker) && |mark| <= |marker|
    ensures Contains(BoundedErrorText(Pad(Lead(limit, mark, marker)) + (p + Pad(0)), [p], limit), p)
  {
    MarkShowsAtEnd(mark, limit, marker, p);
    RedactLed(p, Lead(limit, mark, marker));
  }

  ghost predicate ErrorHides(p: string, limit: int) {
    forall text, secrets | p in secrets :: !Contains(BoundedErrorText(text, secrets, limit), p)
  }

  /** The same for the error text, which can always show a whole replacement. */
  lemma ErrorSafeExactly(p: string, limit: int)
    requires PlainSecret(p)
    ensures ErrorHides(p, limit) <==> !Contains(REDACTED_WORD, p) && !Contains(ERROR_WORD, p)
  {
    assert p in [p];
    MarkerSizes();
    WordInMark(REDACTED, REDACTED_WORD, p);
    if Contains(REDACTED_WORD, p) {
      NoPaddingInWords(p);
      ErrorShowsReplacement(p, limit, REDACTED, ERROR_MARKER);
    } else if Contains(ERROR_WORD, p) {
      NoPaddingInWords(p);
      ErrorShowsMarker(p, limit);
    } else {
      forall text, secrets | p in secrets ensures !Contains(BoundedErrorText(text, secrets, limit), p) {
        ErrorHidesSecret(text, secrets, limit, p);
      }
    }
  }

  // ---- The cut is the longest whole-character cut ----

  ghost predicate Ascii(s: string) {
    forall i | 0 <= i < |s| :: s[i] as int < 0x80
  }

  /** A text over the limit becomes its longest whole-character prefix within the limit, plus the
      trailer; the trailer comes on top of the limit. */
  lemma HeadIsLongestPrefix(s: string, limit: int, trailer: string)
    requires Ascii(trailer) && |Encode(s)| > limit
    ensures var r := KeepHead(s, limit, trailer);
            && |r| >= |trailer|
            && var prefix := r[..|r| - |trailer|];
            && r == prefix + trailer
            && LongestPrefix(s, SliceBound(|Encode(s)|, limit), prefix)
            && (|Encode(r)| <= limit + |trailer| <==> limit >= 0)
  {
    var encoded := Encode(s);
    var n := SliceBound(|encoded|, limit);
    CutPrefix(s, n);
    var prefix := DecodeIgnore(encoded[..n]);
    EncodeConcat(prefix, trailer);
    EncodeAscii(trailer);
    assert (prefix + trailer)[..|prefix|] == prefix;
  }

  lemma KeptTailIsLongest(s: string, limit: int, size: nat)
    requires limit > size && |Encode(s)| > limit
    ensures LongestSuffix(s, limit - size, KeptTail(s, limit, size))
  {
    var k := |Encode(s)| - (limit - size);
    assert SliceBound(|Encode(s)|, -(limit - size)) == k;
    CutSuffix(s, k);
  }

  /** The total stays within the limit exactly when the limit exceeds the marker: at or below it
      the slice start is not negative, and Python then keeps all of the text or the wrong end. */
  lemma TailIsLongestSuffix(s: string, limit: int, marker: string)
    requires Ascii(marker) && |Encode(s)| > limit
    ensures var r := KeepTail(s, limit, marker);
            && marker <= r
            && (|Encode(r)| <= limit <==> limit > |marker|)
            && (limit > |marker| ==> LongestSuffix(s, limit - |marker|, r[|marker|..]))
  {
    EncodeAscii(marker);
    var tail := KeptTail(s, limit, |marker|);
    EncodeConcat(marker, tail);
    assert (marker + tail)[|marker|..] == tail;
    if limit > |marker| {
      KeptTailIsLongest(s, limit, |marker|);
    }
  }

  lemma MarkerSizes()
    ensures Ascii(LOG_TRAILER) && |LOG_TRAILER| == 16
    ensures Ascii(ERROR_MARKER) && |ERROR_MARKER| == 28
  {
  }

  /** A negative limit is an index from the end, so only then the size is unbounded. */
  lemma LogKeepsLongestPrefix(text: string, secrets: seq<string>, limit: int)
    requires |Encode(Redact(text, secrets))| > limit
    ensures var s := Redact(text, secrets);
            var r := BoundedLogText(text, secrets, limit);
            && |r| >= 16 && r[|r| - 16..] == LOG_TRAILER
            && LongestPrefix(s, SliceBound(|Encode(s)|, limit), r[..|r| - 16])
            && (|Encode(r)| <= limit + 16 <==> limit >= 0)
  {
    MarkerSizes();
    HeadIsLongestPrefix(Redact(text, secrets), limit, LOG_TRAILER);
  }

  lemma ErrorKeepsLongestSuffix(text: string, secrets: seq<string>, limit: int)
    requires |Encode(Redact(text, secrets))| > limit
    ensures var r := BoundedErrorText(text, secrets, limit);
            && ERROR_MARKER <= r
            && (|Encode(r)| <= limit <==> limit > 28)
            && (limit > 28 ==> LongestSuffix(Redact(text, secrets), limit - 28, r[28..]))
  {
    MarkerSizes();
    TailIsLongestSuffix(Redact(text, secrets), limit, ERROR_MARKER);
  }
}

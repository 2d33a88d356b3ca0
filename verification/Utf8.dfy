/** UTF-8 as section 3 of RFC 3629 defines it, with the two decoders the scripts use: Python's
    "ignore" error handler and the strict one.  Text is a sequence of Unicode scalar values. */
module Utf8 {
  import opened Wrappers

  type Byte = b: int | 0 <= b < 256

  function EncodeChar(c: char): (bs: seq<Byte>)
    ensures 1 <= |bs| <= 4
  {
    var n := c as int;
    var n1 := n / 0x40;
    var n2 := n1 / 0x40;
    if n < 0x80 then [n]
    else if n < 0x800 then [0xC0 + n1, 0x80 + n % 0x40]
    else if n < 0x10000 then [0xE0 + n2, 0x80 + n1 % 0x40, 0x80 + n % 0x40]
    else [0xF0 + n2 / 0x40, 0x80 + n2 % 0x40, 0x80 + n1 % 0x40, 0x80 + n % 0x40]
  }

  function Encode(s: string): seq<Byte> {
    if s == [] then [] else EncodeChar(s[0]) + Encode(s[1..])
  }

  predicate Continuation(b: Byte) {
    0x80 <= b < 0xC0
  }

  /** How many bytes a sequence starting with `b` takes; 0 when no sequence starts with `b`. */
  function LeadLength(b: Byte): nat {
    if b < 0x80 then 1
    else if 0xC2 <= b < 0xE0 then 2
    else if 0xE0 <= b < 0xF0 then 3
    else if 0xF0 <= b < 0xF5 then 4
    else 0
  }

  /** The second byte excludes overlong forms, surrogates and values above U+10FFFF. */
  predicate SecondByteFits(lead: Byte, second: Byte) {
    && Continuation(second)
    && (lead == 0xE0 ==> 0xA0 <= second)
    && (lead == 0xED ==> second < 0xA0)
    && (lead == 0xF0 ==> 0x90 <= second)
    && (lead == 0xF4 ==> second < 0x90)
  }

  /** The length of the longest prefix of `bs` that begins a well-formed sequence of `n` bytes. */
  function WellFormedRun(bs: seq<Byte>, n: nat): (k: nat)
    requires bs != [] && LeadLength(bs[0]) == n > 0
    ensures 1 <= k <= n && k <= |bs|
  {
    if n == 1 || |bs| == 1 || !SecondByteFits(bs[0], bs[1]) then 1
    else if n == 2 || |bs| == 2 || !Continuation(bs[2]) then 2
    else if n == 3 || |bs| == 3 || !Continuation(bs[3]) then 3
    else 4
  }

  function ScalarValue(bs: seq<Byte>): (n: int)
    requires bs != [] && LeadLength(bs[0]) == |bs| == WellFormedRun(bs, |bs|)
    ensures 0 <= n < 0xD800 || 0xE000 <= n < 0x110000
  {
    var digits: seq<int> := bs;
    if |bs| == 1 then digits[0]
    else if |bs| == 2 then (digits[0] - 0xC0) * 0x40 + (digits[1] - 0x80)
    else if |bs| == 3 then (digits[0] - 0xE0) * 0x1000 + (digits[1] - 0x80) * 0x40 + (digits[2] - 0x80)
    else (digits[0] - 0xF0) * 0x40000 + (digits[1] - 0x80) * 0x1000 + (digits[2] - 0x80) * 0x40 + (digits[3] - 0x80)
  }

  /** `bytes.decode("utf-8", errors="ignore")`: a broken sequence is dropped up to the first byte
      that cannot continue it. */
  function DecodeIgnore(bs: seq<Byte>): string {
    if bs == [] then ""
    else
      var n := LeadLength(bs[0]);
      if n == 0 then DecodeIgnore(bs[1..])
      else
        var k := WellFormedRun(bs, n);
        if k < n then DecodeIgnore(bs[k..])
        else [ScalarValue(bs[..n]) as char] + DecodeIgnore(bs[n..])
  }

  /** `bytes.decode("utf-8")`: only whole, well-formed text is accepted. */
  function DecodeStrict(bs: seq<Byte>): Option<string> {
    var s := DecodeIgnore(bs);
    if Encode(s) == bs then Some(s) else None
  }

  lemma DecodeEncodedChar(c: char, rest: seq<Byte>)
    ensures DecodeIgnore(EncodeChar(c) + rest) == [c] + DecodeIgnore(rest)
  {
    var e := EncodeChar(c);
    var bs := e + rest;
    assert bs[..|e|] == e && bs[|e|..] == rest;
    assert LeadLength(bs[0]) == |e| == WellFormedRun(bs, |e|);
  }

  lemma {:induction false} DecodeIgnoreInvertsEncode(s: string)
    ensures DecodeIgnore(Encode(s)) == s
  {
    if s != [] {
      DecodeEncodedChar(s[0], Encode(s[1..]));
      DecodeIgnoreInvertsEncode(s[1..]);
    }
  }

  /** The table of RFC 3629, section 3: how many bytes there are, the bits each one carries, and that
      the character number is made of those bits. */
  lemma EncodeExactly(c: char)
    ensures var n := c as int;
            var b: seq<int> := Encode([c]);
            || (n < 0x80 && b == [n])
            || (0x80 <= n < 0x800 && |b| == 2 && 0xC0 <= b[0] < 0xE0 && 0x80 <= b[1] < 0xC0
                && n == 64 * (b[0] - 0xC0) + (b[1] - 0x80))
            || (0x800 <= n < 0x1_0000 && |b| == 3 && 0xE0 <= b[0] < 0xF0 && 0x80 <= b[1] < 0xC0 && 0x80 <= b[2] < 0xC0
                && n == 4096 * (b[0] - 0xE0) + 64 * (b[1] - 0x80) + (b[2] - 0x80))
            || (0x1_0000 <= n && |b| == 4 && 0xF0 <= b[0] < 0xF8
                && 0x80 <= b[1] < 0xC0 && 0x80 <= b[2] < 0xC0 && 0x80 <= b[3] < 0xC0
                && n == 262144 * (b[0] - 0xF0) + 4096 * (b[1] - 0x80) + 64 * (b[2] - 0x80) + (b[3] - 0x80))
  {
    assert [c][1..] == [] && Encode([c]) == EncodeChar(c) + [];
  }

  lemma DecodeStrictExactly(bs: seq<Byte>, s: string)
    ensures DecodeStrict(bs) == Some(s) <==> Encode(s) == bs
  {
    if Encode(s) == bs { DecodeIgnoreInvertsEncode(s); }
  }

  lemma DecodeStrictInvertsEncode(s: string)
    ensures DecodeStrict(Encode(s)) == Some(s)
  {
    DecodeIgnoreInvertsEncode(s);
  }

  lemma {:induction false} EncodeConcat(s: string, t: string)
    ensures Encode(s + t) == Encode(s) + Encode(t)
  {
    if s == [] {
      assert s + t == t;
    } else {
      assert (s + t)[1..] == s[1..] + t;
      EncodeConcat(s[1..], t);
    }
  }

  lemma {:induction false} EncodeAtLeastLength(s: string)
    ensures |Encode(s)| >= |s|
  {
    if s != [] { EncodeAtLeastLength(s[1..]); }
  }

  lemma {:induction false} EncodeAscii(s: string)
    requires forall i | 0 <= i < |s| :: s[i] as int < 0x80
    ensures |Encode(s)| == |s|
  {
    if s != [] { EncodeAscii(s[1..]); }
  }

  // ---- Cutting bytes and decoding with "ignore" refines cutting characters ----

  /** `p` is the longest whole-character prefix of `s` that encodes to at most `n` bytes. */
  ghost predicate LongestPrefix(s: string, n: nat, p: string) {
    && p <= s && |Encode(p)| <= n
    && forall q | q <= s && |Encode(q)| <= n :: |q| <= |p|
  }

  ghost predicate Suffix(q: string, s: string) {
    |q| <= |s| && q == s[|s| - |q|..]
  }

  /** `p` is the longest whole-character suffix of `s` that encodes to at most `n` bytes. */
  ghost predicate LongestSuffix(s: string, n: nat, p: string) {
    && Suffix(p, s) && |Encode(p)| <= n
    && forall q | Suffix(q, s) && |Encode(q)| <= n :: |q| <= |p|
  }

  lemma {:induction false} BrokenTailIsDropped(c: char, k: nat, rest: seq<Byte>)
    requires 0 < k <= |EncodeChar(c)|
    ensures DecodeIgnore(EncodeChar(c)[k..] + rest) == DecodeIgnore(rest)
    decreases |EncodeChar(c)| - k
  {
    var e := EncodeChar(c);
    if k == |e| {
      assert e[k..] + rest == rest;
    } else {
      assert LeadLength(e[k]) == 0;
      assert (e[k..] + rest)[1..] == e[k + 1..] + rest;
      BrokenTailIsDropped(c, k + 1, rest);
    }
  }

  lemma NoPrefixFits(s: string, n: nat)
    requires s != "" && n < |EncodeChar(s[0])|
    ensures LongestPrefix(s, n, "")
  {
    forall q | q <= s && q != "" ensures |Encode(q)| > n {
      assert q[0] == s[0];
    }
  }

  lemma LongestPrefixCons(s: string, n: nat, p: string)
    requires s != "" && n >= |EncodeChar(s[0])| && LongestPrefix(s[1..], n - |EncodeChar(s[0])|, p)
    ensures LongestPrefix(s, n, [s[0]] + p)
  {
    var e := EncodeChar(s[0]);
    assert ([s[0]] + p)[1..] == p && s == [s[0]] + s[1..];
    forall q | q <= s && |Encode(q)| <= n ensures |q| <= |p| + 1 {
      if q != "" { assert q[0] == s[0] && q[1..] <= s[1..] && |Encode(q[1..])| <= n - |e|; }
    }
  }

  lemma {:induction false} CutPrefix(s: string, n: nat)
    requires n <= |Encode(s)|
    ensures LongestPrefix(s, n, DecodeIgnore(Encode(s)[..n]))
  {
    if s != [] {
      var e, rest := EncodeChar(s[0]), Encode(s[1..]);
      if n < |e| {
        assert (e + rest)[..n] == e[..n];
        NoPrefixFits(s, n);
      } else {
        var m := n - |e|;
        assert (e + rest)[..n] == e + rest[..m];
        DecodeEncodedChar(s[0], rest[..m]);
        CutPrefix(s[1..], m);
        LongestPrefixCons(s, n, DecodeIgnore(rest[..m]));
      }
    }
  }

  lemma DropAcross<T>(a: seq<T>, b: seq<T>, k: nat)
    requires k <= |a| + |b|
    ensures k <= |a| ==> (a + b)[k..] == a[k..] + b
    ensures k >= |a| ==> (a + b)[k..] == b[k - |a|..]
  {
  }

  lemma CutInsideChar(s: string, k: nat)
    requires s != "" && 0 < k <= |EncodeChar(s[0])|
    ensures DecodeIgnore(Encode(s)[k..]) == s[1..]
  {
    var e, rest := EncodeChar(s[0]), Encode(s[1..]);
    DropAcross(e, rest, k);
    BrokenTailIsDropped(s[0], k, rest);
    DecodeIgnoreInvertsEncode(s[1..]);
  }

  lemma CutPastChar(s: string, k: nat)
    requires s != "" && |EncodeChar(s[0])| <= k <= |Encode(s)|
    ensures |Encode(s)| == |EncodeChar(s[0])| + |Encode(s[1..])|
    ensures Encode(s)[k..] == Encode(s[1..])[k - |EncodeChar(s[0])|..]
  {
    DropAcross(EncodeChar(s[0]), Encode(s[1..]), k);
  }

  lemma CutAtStart(s: string)
    ensures DecodeIgnore(Encode(s)[0..]) == s && LongestSuffix(s, |Encode(s)|, s)
  {
    DecodeIgnoreInvertsEncode(s);
    assert Encode(s)[0..] == Encode(s);
  }

  lemma CutInFirstChar(s: string, k: nat)
    requires s != "" && 0 < k <= |EncodeChar(s[0])| && k <= |Encode(s)|
    ensures LongestSuffix(s, |Encode(s)| - k, DecodeIgnore(Encode(s)[k..]))
  {
    CutInsideChar(s, k);
  }

  lemma {:induction false} CutSuffix(s: string, k: nat)
    requires k <= |Encode(s)|
    ensures LongestSuffix(s, |Encode(s)| - k, DecodeIgnore(Encode(s)[k..]))
  {
    if k == 0 {
      CutAtStart(s);
    } else if k <= |EncodeChar(s[0])| {
      CutInFirstChar(s, k);
    } else {
      var m := k - |EncodeChar(s[0])|;
      CutPastChar(s, k);
      CutSuffix(s[1..], m);
      LongestOfTail(s, |Encode(s)| - k, DecodeIgnore(Encode(s[1..])[m..]));
    }
  }

  lemma WholeSuffix(q: string, s: string)
    requires Suffix(q, s) && |q| == |s|
    ensures q == s
  {
  }

  lemma SuffixOfTail(q: string, s: string)
    requires s != "" && Suffix(q, s) && |q| < |s|
    ensures Suffix(q, s[1..])
  {
    assert s[1..][|s| - 1 - |q|..] == s[|s| - |q|..];
  }

  lemma SuffixExtends(q: string, s: string)
    requires s != "" && Suffix(q, s[1..])
    ensures Suffix(q, s)
  {
    assert s[1..][|s| - 1 - |q|..] == s[|s| - |q|..];
  }

  lemma LongestOfTail(s: string, n: nat, p: string)
    requires s != [] && n < |Encode(s)| && LongestSuffix(s[1..], n, p)
    ensures LongestSuffix(s, n, p)
  {
    SuffixExtends(p, s);
    forall q | Suffix(q, s) && |Encode(q)| <= n ensures |q| <= |p| {
      if |q| == |s| { WholeSuffix(q, s); } else { SuffixOfTail(q, s); }
    }
  }
}

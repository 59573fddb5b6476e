/**
 The UTF-8 codec of the XML writer: reading the next character, writing one,
 checking a text and scrubbing it.
 */
module Utf8 {
  import opened Bytes
  import opened StatusCodes

  // ---------- Section 3 and 4 of RFC 3629 ----------

  /** The Unicode scalar values other than NUL, which cannot occur in a C string. */
  predicate IsScalar(c: int) {
    0 < c < 0xd800 || 0xe000 <= c <= 0x10ffff
  }

  function Encode(c: int): (s: bytes)
    requires 0 <= c <= 0x10ffff
    ensures 1 <= |s| <= 4
  {
    if c < 0x80 then [c]
    else if c < 0x800 then [0xc0 + c / 0x40, 0x80 + c % 0x40]
    else if c < 0x10000 then [0xe0 + c / 0x1000, 0x80 + c / 0x40 % 0x40, 0x80 + c % 0x40]
    else [0xf0 + c / 0x40000, 0x80 + c / 0x1000 % 0x40, 0x80 + c / 0x40 % 0x40, 0x80 + c % 0x40]
  }

  /** Number of octets of a character that starts with `b`; zero when none does. */
  function Length(b: byte): nat {
    if b == 0 then 0
    else if b < 0x80 then 1
    else if b < 0xc2 then 0
    else if b < 0xe0 then 2
    else if b < 0xf0 then 3
    else if b < 0xf5 then 4
    else 0
  }

  predicate IsTail(b: byte) {
    0x80 <= b <= 0xbf
  }

  /** The second octet, whose range depends on the first. */
  predicate IsSecond(b0: byte, b: byte) {
    && IsTail(b)
    && (b0 == 0xe0 ==> 0xa0 <= b)
    && (b0 == 0xed ==> b <= 0x9f)
    && (b0 == 0xf0 ==> 0x90 <= b)
    && (b0 == 0xf4 ==> b <= 0x8f)
  }

  /** UTF8-char of section 4 of RFC 3629. */
  predicate IsUtf8Char(s: bytes) {
    && 0 < |s| == Length(s[0])
    && (1 < |s| ==> IsSecond(s[0], s[1]))
    && (2 < |s| ==> IsTail(s[2]))
    && (3 < |s| ==> IsTail(s[3]))
  }

  function Scalar(s: bytes): (c: int)
    requires IsUtf8Char(s)
  {
    var n := |s|;
    var b0: int := s[0];
    var b1: int := if n > 1 then s[1] - 0x80 else 0;
    if n == 1 then b0
    else if n == 2 then (b0 - 0xc0) * 0x40 + b1
    else
      var b2: int := s[2] - 0x80;
      if n == 3 then (b0 - 0xe0) * 0x1000 + b1 * 0x40 + b2
      else (b0 - 0xf0) * 0x40000 + b1 * 0x1000 + b2 * 0x40 + (s[3] - 0x80)
  }

  /** The base-64 digits of a number. */
  lemma Digits(d3: nat, d2: nat, d1: nat, d0: nat, c: int)
    requires d2 < 0x40 && d1 < 0x40 && d0 < 0x40
    ensures c == d3 * 0x40000 + d2 * 0x1000 + d1 * 0x40 + d0 <==>
            c / 0x40000 == d3 && c / 0x1000 % 0x40 == d2 && c / 0x40 % 0x40 == d1 && c % 0x40 == d0
  {
    var q := c / 0x40;
    var r := q / 0x40;
    assert c / 0x1000 == r && c / 0x40000 == r / 0x40;
  }

  /** Decoding inverts encoding. */
  lemma ScalarOfEncode(c: int)
    requires IsScalar(c)
    ensures IsUtf8Char(Encode(c)) && Scalar(Encode(c)) == c
    ensures forall i :: 0 <= i < |Encode(c)| ==> Encode(c)[i] != 0
  {
    Digits(c / 0x40000, c / 0x1000 % 0x40, c / 0x40 % 0x40, c % 0x40, c);
    var s := Encode(c);
    if c < 0x80 {
    } else if c < 0x800 {
      assert c / 0x40 == c / 0x40 % 0x40;
    } else if c < 0x10000 {
      assert c / 0x1000 == c / 0x1000 % 0x40;
    } else {
    }
  }

  /** Encoding inverts decoding, so a scalar value has one encoding only. */
  lemma EncodeOfScalar(s: bytes)
    requires IsUtf8Char(s)
    ensures IsScalar(Scalar(s)) && Encode(Scalar(s)) == s
  {
    var c := Scalar(s);
    if |s| == 2 {
      Digits(0, 0, s[0] - 0xc0, s[1] - 0x80, c);
    } else if |s| == 3 {
      Digits(0, s[0] - 0xe0, s[1] - 0x80, s[2] - 0x80, c);
    } else if |s| == 4 {
      Digits(s[0] - 0xf0, s[1] - 0x80, s[2] - 0x80, s[3] - 0x80, c);
    }
  }

  // ---------- Reading one character ----------

  /** `s` starts with an encoded character. */
  predicate HasChar(s: bytes) {
    s != [] && var n := Length(s[0]); 0 < n <= |s| && IsUtf8Char(s[..n])
  }

  /** `s` starts with an encoded character exactly when it starts with the encoding of a scalar value. */
  lemma HasCharIffEncoding(s: bytes)
    ensures HasChar(s) <==> exists c :: IsScalar(c) && Encode(c) <= s
    ensures HasChar(s) ==> forall c :: IsScalar(c) && Encode(c) <= s ==> c == Scalar(s[..Length(s[0])])
  {
    if HasChar(s) {
      EncodeOfScalar(s[..Length(s[0])]);
    }
    forall c | IsScalar(c) && Encode(c) <= s
      ensures HasChar(s) && c == Scalar(s[..Length(s[0])])
    {
      ScalarOfEncode(c);
      assert s[..Length(s[0])] == Encode(c);
    }
  }

  /** `s` can be continued to an encoded character but is not one yet. */
  predicate IsIncomplete(s: bytes) {
    s != [] ==>
      && |s| < Length(s[0])
      && (1 < |s| ==> IsSecond(s[0], s[1]))
      && (2 < |s| ==> IsTail(s[2]))
  }

  /** Length of the longest incomplete prefix of `s` that is at least `k` long. */
  function LongestIncomplete(s: bytes, k: nat): (n: nat)
    requires k <= |s|
    ensures k <= n <= |s|
    decreases |s| - k
  {
    if k < |s| && IsIncomplete(s[..k + 1]) then LongestIncomplete(s, k + 1) else k
  }

  lemma {:induction false} LongestIncompleteIs(s: bytes, k: nat, n: nat)
    requires k <= n <= |s| && IsIncomplete(s[..n])
    requires n < |s| ==> !IsIncomplete(s[..n + 1])
    ensures LongestIncomplete(s, k) == n
    decreases n - k
  {
    if k < n {
      LongestIncompleteIs(s, k + 1, n);
    }
  }

  /** How far the reader skips over malformed octets: past the first that cannot continue a character. */
  function BadLength(s: bytes): (n: nat)
    requires s != []
    ensures 0 < n <= |s|
  {
    var n := LongestIncomplete(s, 0);
    if n < |s| then n + 1 else n
  }

  /** The octets of `s` from `p` up to `q` encode one character. */
  predicate IsCharAt(s: bytes, p: nat, q: nat) {
    p < q <= |s| && IsUtf8Char(s[p..q])
  }

  function Skip(s: CString, p: nat): (q: nat)
    requires p <= |s|
  {
    if At(s, p) != 0 then p + 1 else p
  }

  /** The malformed exit at `q`: everything before it was fine, the octet at `q` is not. */
  lemma Malformed(s: CString, p: nat, q: nat)
    requires p < |s| && p <= q <= |s|
    requires IsIncomplete(s[p..q])
    requires q < |s| ==> !IsIncomplete(s[p..q + 1]) && !IsUtf8Char(s[p..q + 1])
    ensures !HasChar(s[p..]) && Skip(s, q) == p + BadLength(s[p..])
  {
    var t := s[p..];
    assert t[..q - p] == s[p..q];
    assert q < |s| ==> t[..q - p + 1] == s[p..q + 1];
    LongestIncompleteIs(t, 0, q - p);
  }

  /** Read the character at `p`; `q` is where reading goes on. */
  method NextUnicodeChar(s: CString, p: nat) returns (c: int, q: nat)
    requires p <= |s|
    ensures p == |s| ==> c == -1 && q == p
    ensures c != -1 ==> IsCharAt(s, p, q) && c == Scalar(s[p..q])
    ensures c == -1 && p < |s| ==> !HasChar(s[p..]) && q == p + BadLength(s[p..])
  {
    var b0: int := At(s, p);
    if b0 == 0 {
      return -1, p;
    }
    if b0 < 0x80 {
      return b0, p + 1;
    } else if b0 < 0xc2 {
      Malformed(s, p, p);
      return -1, Skip(s, p);
    } else if b0 < 0xe0 {
      c, q := NextOfTwo(s, p);
    } else if b0 < 0xf0 {
      c, q := NextOfThree(s, p);
    } else if b0 < 0xf5 {
      c, q := NextOfFour(s, p);
    } else {
      Malformed(s, p, p);
      return -1, Skip(s, p);
    }
  }

  /** Encodings of two octets, which start with c2 to df. */
  method NextOfTwo(s: CString, p: nat) returns (c: int, q: nat)
    requires p < |s| && 0xc2 <= s[p] < 0xe0
    ensures c != -1 ==> IsCharAt(s, p, q) && c == Scalar(s[p..q])
    ensures c == -1 ==> !HasChar(s[p..]) && q == p + BadLength(s[p..])
  {
    c := s[p] as int % 0x20 * 0x40;
    q := p + 1;
    var b: int := At(s, q);
    if b < 0x80 || b > 0xbf {
      Malformed(s, p, q);
      return -1, Skip(s, q);
    }
    c := c + b % 0x40;
    q := q + 1;
  }

  /** Encodings of three octets, which start with e0 to ef. */
  method NextOfThree(s: CString, p: nat) returns (c: int, q: nat)
    requires p < |s| && 0xe0 <= s[p] < 0xf0
    ensures c != -1 ==> IsCharAt(s, p, q) && c == Scalar(s[p..q])
    ensures c == -1 ==> !HasChar(s[p..]) && q == p + BadLength(s[p..])
  {
    var b0: int := s[p];
    c := b0 % 0x10 * 0x1000;
    q := p + 1;
    var b: int := At(s, q);
    if || (b0 == 0xe0 && (b < 0xa0 || b > 0xbf))
       || (b0 < 0xed && (b < 0x80 || b > 0xbf))
       || (b0 == 0xed && (b < 0x80 || b > 0x9f))
       || (b0 > 0xed && (b < 0x80 || b > 0xbf))
    {
      Malformed(s, p, q);
      return -1, Skip(s, q);
    }
    c := c + b % 0x40 * 0x40;
    q := q + 1;
    b := At(s, q);
    if b < 0x80 || b > 0xbf {
      Malformed(s, p, q);
      return -1, Skip(s, q);
    }
    c := c + b % 0x40;
    q := q + 1;
  }

  /** Encodings of four octets, which start with f0 to f4. */
  method NextOfFour(s: CString, p: nat) returns (c: int, q: nat)
    requires p < |s| && 0xf0 <= s[p] < 0xf5
    ensures c != -1 ==> IsCharAt(s, p, q) && c == Scalar(s[p..q])
    ensures c == -1 ==> !HasChar(s[p..]) && q == p + BadLength(s[p..])
  {
    var b0: int := s[p];
    c := b0 % 0x08 * 0x40000;
    q := p + 1;
    var b: int := At(s, q);
    if || (b0 == 0xf0 && (b < 0x90 || b > 0xbf))
       || (b0 < 0xf4 && (b < 0x80 || b > 0xbf))
       || (b0 >= 0xf4 && (b < 0x80 || b > 0x8f))
    {
      Malformed(s, p, q);
      return -1, Skip(s, q);
    }
    c := c + b % 0x40 * 0x1000;
    q := q + 1;
    b := At(s, q);
    if b < 0x80 || b > 0xbf {
      Malformed(s, p, q);
      return -1, Skip(s, q);
    }
    c := c + b % 0x40 * 0x40;
    q := q + 1;
    b := At(s, q);
    if b < 0x80 || b > 0xbf {
      Malformed(s, p, q);
      return -1, Skip(s, q);
    }
    c := c + b % 0x40;
    q := q + 1;
  }

  // ---------- Texts ----------

  /** Char of section 2.2 of XML 1.0. */
  predicate IsXmlChar(c: int) {
    c == 0x9 || c == 0xa || c == 0xd || 0x20 <= c <= 0xd7ff || 0xe000 <= c <= 0xfffd || 0x10000 <= c <= 0x10ffff
  }

  predicate AllXmlChars(cs: seq<int>) {
    forall i :: 0 <= i < |cs| ==> IsXmlChar(cs[i])
  }

  function EncodeAll(cs: seq<int>): bytes
    requires AllXmlChars(cs)
  {
    if cs == [] then [] else Encode(cs[0]) + EncodeAll(cs[1..])
  }

  /** The first thing wrong with a text. */
  function TextStatus(s: bytes): (r: Status)
    ensures r.Success? || r.BadUtf8? || r.NonXmlCharacter?
  {
    if s == [] then Success
    else if !HasChar(s) then BadUtf8
    else if !IsXmlChar(Scalar(s[..Length(s[0])])) then NonXmlCharacter
    else TextStatus(s[Length(s[0])..])
  }

  predicate IsText(s: bytes) {
    TextStatus(s).Success?
  }

  /** The encoding of an XML character followed by anything. */
  lemma StartsWithEncoding(c: int, rest: bytes)
    requires IsXmlChar(c)
    ensures var s := Encode(c) + rest;
            HasChar(s) && s[..Length(s[0])] == Encode(c) && Scalar(Encode(c)) == c && s[Length(s[0])..] == rest
  {
    ScalarOfEncode(c);
    var s := Encode(c) + rest;
    assert s[..|Encode(c)|] == Encode(c) && s[|Encode(c)|..] == rest;
  }

  lemma TextCons(c: int, rest: bytes)
    requires IsXmlChar(c)
    ensures TextStatus(Encode(c) + rest) == TextStatus(rest)
  {
    StartsWithEncoding(c, rest);
  }

  lemma {:induction false} EncodedIsText(cs: seq<int>)
    requires AllXmlChars(cs)
    ensures IsText(EncodeAll(cs))
  {
    if cs != [] {
      TextCons(cs[0], EncodeAll(cs[1..]));
      EncodedIsText(cs[1..]);
    }
  }

  lemma EncodeAllCons(c: int, cs: seq<int>)
    requires IsXmlChar(c) && AllXmlChars(cs)
    ensures EncodeAll([c] + cs) == Encode(c) + EncodeAll(cs)
  {
    assert ([c] + cs)[1..] == cs;
  }

  lemma {:induction false} TextIsEncoded(s: bytes) returns (cs: seq<int>)
    requires IsText(s)
    ensures AllXmlChars(cs) && EncodeAll(cs) == s
  {
    hide IsUtf8Char, Encode, Scalar, IsXmlChar, Length;
    if s == [] {
      cs := [];
    } else {
      var n := Length(s[0]);
      EncodeOfScalar(s[..n]);
      var rest := TextIsEncoded(s[n..]);
      cs := [Scalar(s[..n])] + rest;
      EncodeAllCons(Scalar(s[..n]), rest);
    }
  }

  /** Exactly the encodings of sequences of XML characters pass the check. */
  lemma IsTextIffEncoded(s: bytes)
    ensures IsText(s) <==> exists cs :: AllXmlChars(cs) && EncodeAll(cs) == s
  {
    if IsText(s) {
      var cs := TextIsEncoded(s);
    }
    forall cs | AllXmlChars(cs) && EncodeAll(cs) == s
      ensures IsText(s)
    {
      EncodedIsText(cs);
    }
  }

  /** A text encodes one sequence of characters only. */
  lemma {:induction false} EncodeAllInjective(cs: seq<int>, ds: seq<int>)
    requires AllXmlChars(cs) && AllXmlChars(ds) && EncodeAll(cs) == EncodeAll(ds)
    ensures cs == ds
  {
    if cs != [] && ds != [] {
      StartsWithEncoding(cs[0], EncodeAll(cs[1..]));
      StartsWithEncoding(ds[0], EncodeAll(ds[1..]));
      EncodeAllInjective(cs[1..], ds[1..]);
      assert cs == [cs[0]] + cs[1..] && ds == [ds[0]] + ds[1..];
    }
  }

  /** What one step of a scan means for the rest of the text. */
  lemma ScanStep(s: bytes, p: nat, q: nat)
    requires IsCharAt(s, p, q)
    ensures HasChar(s[p..]) && q == p + Length(s[p]) && s[p..][..Length(s[p])] == s[p..q]
    ensures s[p..][Length(s[p])..] == s[q..]
  {
    assert s[p..][..q - p] == s[p..q];
  }

  method CheckText(s: CString) returns (r: Status)
    ensures r == TextStatus(s)
  {
    var p := 0;
    while p < |s|
      invariant p <= |s|
      invariant TextStatus(s[p..]) == TextStatus(s)
      decreases |s| - p
    {
      var c, q := NextUnicodeChar(s, p);
      if c == -1 {
        return BadUtf8;
      }
      ScanStep(s, p, q);
      if !IsXmlChar(c) {
        return NonXmlCharacter;
      }
      p := q;
    }
    return Success;
  }

  // ---------- Scrubbing ----------

  /** `s` without malformed octets and without characters that XML does not allow. */
  function Scrubbed(s: bytes): bytes {
    if s == [] then []
    else if !HasChar(s) then Scrubbed(s[BadLength(s)..])
    else
      var n := Length(s[0]);
      (if IsXmlChar(Scalar(s[..n])) then s[..n] else []) + Scrubbed(s[n..])
  }

  /** How many stretches scrubbing removes. */
  function Problems(s: bytes): nat {
    if s == [] then 0
    else if !HasChar(s) then 1 + Problems(s[BadLength(s)..])
    else
      var n := Length(s[0]);
      (if IsXmlChar(Scalar(s[..n])) then 0 else 1) + Problems(s[n..])
  }

  /** Scrubbed text passes the check and is never longer than the input. */
  lemma {:induction false} ScrubbedIsText(s: bytes)
    ensures IsText(Scrubbed(s))
    ensures |Scrubbed(s)| <= |s| - Problems(s)
  {
    if s != [] {
      if !HasChar(s) {
        ScrubbedIsText(s[BadLength(s)..]);
      } else {
        var n := Length(s[0]);
        ScrubbedIsText(s[n..]);
        if IsXmlChar(Scalar(s[..n])) {
          EncodeOfScalar(s[..n]);
          TextCons(Scalar(s[..n]), Scrubbed(s[n..]));
          assert Scrubbed(s) == Encode(Scalar(s[..n])) + Scrubbed(s[n..]);
        } else {
          assert Scrubbed(s) == Scrubbed(s[n..]);
        }
      }
    }
  }

  lemma {:induction false} NothingToScrub(s: bytes)
    ensures Problems(s) == 0 <==> IsText(s)
    ensures IsText(s) ==> Scrubbed(s) == s
  {
    if s != [] && HasChar(s) {
      NothingToScrub(s[Length(s[0])..]);
      assert s == s[..Length(s[0])] + s[Length(s[0])..];
    }
  }

  /** The count is zero exactly when the text was fine, and exactly then nothing changes. */
  lemma ScrubChangesIff(s: bytes)
    ensures Problems(s) == 0 <==> IsText(s)
    ensures Scrubbed(s) == s <==> IsText(s)
  {
    NothingToScrub(s);
    ScrubbedIsText(s);
  }

  /** The string that starts at `p`: the octets before the next zero. */
  function StringAt(a: bytes, p: nat): (t: CString)
    requires p <= |a|
    decreases |a| - p
  {
    if p < |a| && a[p] != 0 then [a[p]] + StringAt(a, p + 1) else []
  }

  lemma {:induction false} StringAtIs(a: bytes, p: nat, t: CString)
    requires p + |t| < |a| && a[p..p + |t|] == t && a[p + |t|] == 0
    ensures StringAt(a, p) == t
    decreases |t|
  {
    if t != [] {
      assert a[p] == t[0] && a[p + 1..p + |t|] == t[1..];
      StringAtIs(a, p + 1, t[1..]);
    }
  }

  /** Copy octets, perhaps to an earlier place of the same array. */
  method CopyOctets(a: array<byte>, from: nat, to: nat, out: array<byte>, at: nat)
    requires from <= to <= a.Length && at <= from && at + (to - from) <= out.Length
    modifies out
    ensures out[..at + (to - from)] == old(out[..at]) + old(a[from..to])
    ensures a[to..] == old(a[to..])
  {
    var last, o := from, at;
    while last < to
      invariant from <= last <= to && o == at + (last - from)
      invariant out[..o] == old(out[..at]) + old(a[from..last])
      invariant a[last..] == old(a[last..])
    {
      assert a[last] == a[last..][0] && a[last..][1..] == a[last + 1..];
      assert old(a[from..last]) + [old(a[last])] == old(a[from..last + 1]);
      assert old(a[last..])[1..] == old(a[last + 1..]);
      out[o] := a[last];
      o, last := o + 1, last + 1;
    }
  }

  /** What is left of the string `s` in the array from `p` on. */
  predicate IsLeft(a: bytes, s: CString, p: nat) {
    p <= |s| < |a| && a[p..|s|] == s[p..] && a[|s|] == 0
  }

  lemma LeftReads(a: bytes, s: CString, p: nat)
    requires IsLeft(a, s, p)
    ensures p < |a| && StringAt(a, p) == s[p..] && (a[p] != 0 <==> p < |s|)
  {
    StringAtIs(a, p, s[p..]);
    assert p < |s| ==> a[p] == a[p..|s|][0] == s[p..][0];
  }

  lemma LeftLater(a: bytes, a': bytes, s: CString, p: nat, q: nat)
    requires IsLeft(a, s, p) && p <= q <= |s| && |a'| == |a| && a'[q..] == a[q..]
    ensures IsLeft(a', s, q) && a[p..q] == s[p..q]
  {
    assert a[p..q] == a[p..|s|][..q - p] == s[p..][..q - p];
    assert a[q..|s|] == a[p..|s|][q - p..] == s[p..][q - p..] == s[q..];
    assert a'[q..|s|] == a'[q..][..|s| - q] && a[q..|s|] == a[q..][..|s| - q];
    assert a'[|s|] == a'[q..][|s| - q] && a[|s|] == a[q..][|s| - q];
  }

  /** Scrub one character, or one malformed stretch, at `p`. */
  method ScrubNext(a: array<byte>, p: nat, out: array<byte>, at: nat, ghost s: CString) returns (q: nat, o: nat, bad: bool)
    requires at <= p < |s| < out.Length && IsLeft(a[..], s, p)
    modifies out
    ensures p < q <= |s| && at <= o <= q && IsLeft(a[..], s, q)
    ensures Scrubbed(s[p..]) == out[at..o] + Scrubbed(s[q..]) && out[..at] == old(out[..at])
    ensures Problems(s[p..]) == (if bad then 1 else 0) + Problems(s[q..])
  {
    hide Scrubbed, Problems, HasChar, IsUtf8Char, Scalar, BadLength, IsXmlChar, IsLeft, StringAt;
    LeftReads(a[..], s, p);
    var c;
    c, q := NextUnicodeChar(StringAt(a[..], p), 0);
    assert s[p..][0..] == s[p..];
    NextIn(s, p, q);
    q := p + q;
    ghost var before := a[..];
    LeftLater(before, before, s, p, q);
    if c == -1 {
      return q, at, true;
    }
    ScrubSteps(s, p, q);
    if !IsXmlChar(c) {
      return q, at, true;
    }
    CopyOctets(a, p, q, out, at);
    LeftLater(before, a[..], s, p, q);
    o, bad := at + (q - p), false;
    assert out[..at] == out[..o][..at] && out[at..o] == out[..o][at..];
  }

  /** A character of what is left is one of the string. */
  lemma NextIn(s: CString, p: nat, n: nat)
    requires p < |s| && n <= |s| - p
    ensures IsCharAt(s[p..], 0, n) ==> IsCharAt(s, p, p + n) && s[p..][0..n] == s[p..p + n]
    ensures !HasChar(s[p..]) ==>
              var q := p + BadLength(s[p..]);
              Scrubbed(s[p..]) == Scrubbed(s[q..]) && Problems(s[p..]) == 1 + Problems(s[q..])
  {
    assert s[p..][0..n] == s[p..p + n];
    if !HasChar(s[p..]) {
      ScrubSkips(s, p);
    }
  }

  lemma NothingScrubbed()
    ensures Scrubbed([]) == [] && Problems([]) == 0
  {
  }

  /** Scrub the string `s` at the beginning of `a` into `out`, which may be the same; `n` is where the terminator goes. */
  method ScrubText(a: array<byte>, out: array<byte>, ghost s: CString) returns (problems: nat, ghost n: nat)
    requires IsLeft(a[..], s, 0) && |s| < out.Length
    modifies out
    ensures n <= |s| && out[..n] == Scrubbed(s) && out[n] == 0
    ensures problems == Problems(s)
  {
    hide Scrubbed, Problems, IsLeft, StringAt;
    problems := 0;
    var p, o := 0, 0;
    ghost var done: bytes := [];
    NothingScrubbed();
    assert s[0..] == s;
    LeftReads(a[..], s, 0);
    while a[p] != 0
      invariant 0 <= o <= p <= |s| && IsLeft(a[..], s, p) && out[..o] == done
      invariant done + Scrubbed(s[p..]) == Scrubbed(s)
      invariant problems + Problems(s[p..]) == Problems(s)
      invariant p < a.Length && (a[p] != 0 <==> p < |s|)
      decreases |s| - p
    {
      var q, o', bad := ScrubNext(a, p, out, o, s);
      Concat(done, out[o..o'], Scrubbed(s[q..]));
      assert out[..o'] == out[..o] + out[o..o'];
      done := done + out[o..o'];
      problems := if bad then problems + 1 else problems;
      p, o := q, o';
      LeftReads(a[..], s, p);
    }
    assert s[p..] == [];
    out[o] := 0;
    n := o;
  }

  lemma ScrubSteps(s: bytes, p: nat, q: nat)
    requires IsCharAt(s, p, q)
    ensures p < q
    ensures var keep := IsXmlChar(Scalar(s[p..q]));
            && Scrubbed(s[p..]) == (if keep then s[p..q] else []) + Scrubbed(s[q..])
            && Problems(s[p..]) == (if keep then 0 else 1) + Problems(s[q..])
  {
    ScanStep(s, p, q);
  }

  lemma ScrubSkips(s: bytes, p: nat)
    requires p < |s| && !HasChar(s[p..])
    ensures var q := p + BadLength(s[p..]);
            Scrubbed(s[p..]) == Scrubbed(s[q..]) && Problems(s[p..]) == 1 + Problems(s[q..])
  {
    assert s[p..][BadLength(s[p..])..] == s[p + BadLength(s[p..])..];
  }

  /** Masking and shifting in either order selects the same six bits. */
  lemma SixBits(c: nat)
    ensures c % 0x1000 / 0x40 == c / 0x40 % 0x40
  {
    var q, e := c / 0x1000, c % 0x1000;
    var d1, d0 := e / 0x40, e % 0x40;
    assert c == (q * 0x40 + d1) * 0x40 + d0;
    assert c / 0x40 == q * 0x40 + d1;
  }

  lemma SixHigherBits(c: nat)
    ensures c % 0x40000 / 0x1000 == c / 0x1000 % 0x40
  {
    var q, e := c / 0x40000, c % 0x40000;
    var d1, d0 := e / 0x1000, e % 0x1000;
    assert c == (q * 0x40 + d1) * 0x1000 + d0;
    assert c / 0x1000 == q * 0x40 + d1;
  }

  /** The UTF-8 representation of a character, as the writer makes it. */
  method CharToUtf8(c: int) returns (s: bytes)
    requires 0 <= c <= 0x10ffff
    ensures s == Encode(c)
  {
    SixBits(c);
    SixHigherBits(c);
    if c < 0x80 {
      s := [c];
    } else if c < 0x800 {
      s := [0xc0 + c / 0x40, 0x80 + c % 0x40];
    } else if c < 0x10000 {
      s := [0xe0 + c / 0x1000, 0x80 + c % 0x1000 / 0x40, 0x80 + c % 0x40];
    } else {
      s := [0xf0 + c / 0x40000, 0x80 + c % 0x40000 / 0x1000, 0x80 + c % 0x1000 / 0x40, 0x80 + c % 0x40];
    }
  }
}

/** Base64 of RFC 4648, section 4, with optional line breaks, and its lenient decoder. */
module Base64 {
  import opened Options
  import opened Bytes
  import opened Division

  const EQ: byte := 0x3d
  const CRLF: bytes := [0x0d, 0x0a]
  /** What is not a digit. */
  const NONE := 0xff

  type sextet = n: int | 0 <= n < 64

  // ---------- Digits ----------

  /** Table 1 of RFC 4648. */
  function Digit(n: sextet): byte {
    if n < 26 then 0x41 + n else if n < 52 then 0x61 + n - 26 else if n < 62 then 0x30 + n - 52 else if n == 62 then 0x2b else 0x2f
  }

  /** The table of the decoder; the terminator of the digit string has got an entry as well. */
  function Value(b: byte): (v: nat)
    ensures v <= 64 || v == NONE
  {
    if 0x41 <= b <= 0x5a then b - 0x41
    else if 0x61 <= b <= 0x7a then b - 0x61 + 26
    else if 0x30 <= b <= 0x39 then b - 0x30 + 52
    else if b == 0x2b then 62
    else if b == 0x2f then 63
    else if b == EQ then 0
    else if b == 0 then 64
    else NONE
  }

  lemma ValueOfDigit(n: sextet)
    ensures Value(Digit(n)) == n && Digit(n) != EQ
  {
  }

  // ---------- Encoding ----------

  /** Three octets are four groups of six bits. */
  function Group(a: byte, b: byte, c: byte): bytes {
    [Digit(a / 4), Digit(a % 4 * 16 + b / 16), Digit(b % 16 * 4 + c / 64), Digit(c % 64)]
  }

  /** Section 4: groups of three, and padding for one octet or two at the end. */
  function Encoded(s: bytes): bytes {
    if s == [] then []
    else if |s| == 1 then [Digit(s[0] / 4), Digit(s[0] % 4 * 16), EQ, EQ]
    else if |s| == 2 then [Digit(s[0] / 4), Digit(s[0] % 4 * 16 + s[1] / 16), Digit(s[1] % 16 * 4), EQ]
    else Group(s[0], s[1], s[2]) + Encoded(s[3..])
  }

  lemma GroupLength(a: byte, b: byte, c: byte)
    ensures |Group(a, b, c)| == 4
  {
  }

  lemma {:induction false} EncodedInFours(s: bytes)
    ensures |Encoded(s)| % 4 == 0
  {
    hide Digit;
    if |s| > 2 {
      EncodedInFours(s[3..]);
    }
  }

  lemma {:induction false} EncodedLength(s: bytes)
    ensures |Encoded(s)| == (|s| + 2) / 3 * 4
  {
    if |s| > 2 {
      EncodedLength(s[3..]);
    }
  }

  /** A line break after every `max` characters. */
  function Broken(e: bytes, max: nat): bytes
    requires max > 0
  {
    if |e| < max then e else e[..max] + CRLF + Broken(e[max..], max)
  }

  /** The encoding in lines, the last one ended as well. */
  function Lines(e: bytes, maxLine: Option<nat>): bytes
    requires maxLine.Some? ==> maxLine.value > 0
  {
    match maxLine
    case None => e
    case Some(max) => Broken(e, max) + if |e| % max == 0 then [] else CRLF
  }

  lemma OneLess(n: nat, m: nat)
    requires 0 < m <= n
    ensures n / m == (n - m) / m + 1 && n % m == (n - m) % m
  {
    var q, r := (n - m) / m, (n - m) % m;
    assert n - m == m * q + r;
    assert m * (q + 1) == m * q + m;
    DivisionIsUnique(n, m, q + 1, r);
    assert n == m * (n / m) + n % m;
  }

  lemma Short(n: nat, m: nat)
    requires n < m
    ensures n / m == 0 && n % m == n
  {
  }

  lemma BrokenFull(e: bytes, max: nat)
    requires max > 0 && |e| == max
    ensures Broken(e, max) == e + CRLF
  {
    assert e[..max] == e && e[max..] == [];
    assert Broken([], max) == [];
  }

  lemma BrokenStep(e: bytes, x: bytes, max: nat)
    requires 0 < max <= |e|
    ensures Broken(e + x, max) == e[..max] + CRLF + Broken(e[max..] + x, max)
  {
    assert (e + x)[..max] == e[..max] && (e + x)[max..] == e[max..] + x;
  }

  lemma {:induction false} BrokenMore(e: bytes, x: bytes, max: nat)
    requires max > 0 && x != []
    ensures |e| % max + |x| < max ==> Broken(e + x, max) == Broken(e, max) + x
    ensures |e| % max + |x| == max ==> Broken(e + x, max) == Broken(e, max) + x + CRLF
    decreases |e|
  {
    if |e| < max {
      Short(|e|, max);
      if |e + x| == max {
        BrokenFull(e + x, max);
      }
    } else {
      hide Broken;
      OneLess(|e|, max);
      BrokenMore(e[max..], x, max);
      BrokenStep(e, x, max);
      BrokenStep(e, [], max);
      assert e + [] == e && e[max..] + [] == e[max..];
    }
  }

  lemma {:induction false} BrokenLength(e: bytes, max: nat)
    requires max > 0
    ensures |Broken(e, max)| == |e| + 2 * (|e| / max)
    decreases |e|
  {
    if |e| >= max {
      BrokenLength(e[max..], max);
      OneLess(|e|, max);
    }
  }

  function LineCount(n: nat, maxLine: Option<nat>): nat
    requires maxLine.Some? ==> maxLine.value > 0
  {
    match maxLine case None => 0 case Some(max) => (n + max - 1) / max
  }

  /** The size of the output buffer. */
  function MinLength(n: nat, maxLine: Option<nat>): nat
    requires maxLine.Some? ==> maxLine.value > 0
  {
    var length := (n + 2) / 3 * 4;
    length + LineCount(length, maxLine) * 2
  }

  lemma LinesFill(s: bytes, maxLine: Option<nat>)
    requires maxLine.Some? ==> maxLine.value > 0
    ensures |Lines(Encoded(s), maxLine)| == MinLength(|s|, maxLine)
  {
    hide Encoded, Broken;
    EncodedLength(s);
    if maxLine.Some? {
      BrokenLength(Encoded(s), maxLine.value);
      CeilingIs(|Encoded(s)|, maxLine.value);
    }
  }

  lemma CeilingIs(n: nat, m: nat)
    requires m > 0
    ensures (n + m - 1) / m == n / m + if n % m == 0 then 0 else 1
  {
    var q, r := n / m, n % m;
    assert n == m * q + r;
    if r == 0 {
      DivisionIsUnique(n + m - 1, m, q, m - 1);
    } else {
      assert m * (q + 1) == m * q + m;
      DivisionIsUnique(n + m - 1, m, q + 1, r - 1);
    }
  }

  // ---------- Decoding ----------

  function DigitsOf(s: bytes): bytes {
    if s == [] then []
    else (if Value(s[0]) == NONE then [] else [s[0]]) + DigitsOf(s[1..])
  }

  /** bor for a multiple of `m` and at most `m`, cut to eight bits. */
  function Or(x: nat, y: nat, m: nat): byte
    requires m > 0 && x % m == 0 && y <= m
  {
    (if y < m then x + y else if x / m % 2 == 1 then x else x + m) % 256
  }

  predicate IsDigits(g: bytes) {
    forall i :: 0 <= i < |g| ==> Value(g[i]) != NONE
  }

  function ThreeOctets(g: bytes): (t: bytes)
    requires |g| == 4 && IsDigits(g)
    ensures |t| == 3
  {
    [Or(Value(g[0]) * 4, Value(g[1]) / 16, 4),
     Or(Value(g[1]) * 16, Value(g[2]) / 4, 16),
     Or(Value(g[2]) * 64, Value(g[3]), 64)]
  }

  function PadCount(g: bytes): nat {
    if g == [] then 0 else PadCount(g[..|g| - 1]) + if g[|g| - 1] == EQ then 1 else 0
  }

  lemma PadCountOfFour(g: bytes)
    requires |g| == 4
    ensures PadCount(g) == (if g[0] == EQ then 1 else 0) + (if g[1] == EQ then 1 else 0) +
                           (if g[2] == EQ then 1 else 0) + (if g[3] == EQ then 1 else 0)
  {
    var g3 := g[..3];
    var g2 := g3[..2];
    var g1 := g2[..1];
    assert PadCount(g1[..0]) == 0;
    assert PadCount(g1) == if g[0] == EQ then 1 else 0;
    assert PadCount(g2) == PadCount(g1) + if g[1] == EQ then 1 else 0;
    assert PadCount(g3) == PadCount(g2) + if g[2] == EQ then 1 else 0;
  }

  /** Groups of four digits, up to the first one with padding. */
  function Groups(ds: bytes): Option<bytes>
    requires |ds| % 4 == 0 && IsDigits(ds)
  {
    if ds == [] then Some([])
    else
      var g := ds[..4];
      var pad := PadCount(g);
      if pad > 2 then None
      else if pad > 0 then Some(ThreeOctets(g)[..3 - pad])
      else
        match Groups(ds[4..])
        case None => None
        case Some(more) => Some(ThreeOctets(g) + more)
  }

  lemma {:induction false} DigitsAreDigits(s: bytes)
    ensures IsDigits(DigitsOf(s))
  {
    if s != [] {
      DigitsAreDigits(s[1..]);
    }
  }

  /** What decoding gives; nothing unless there is a positive multiple of four digits. */
  function Decoded(s: bytes): Option<bytes> {
    var ds := DigitsOf(s);
    DigitsAreDigits(s);
    if ds == [] || |ds| % 4 != 0 then None else Groups(ds)
  }

  // ---------- Round trip ----------

  lemma {:induction false} DigitsOfConcat(s: bytes, t: bytes)
    ensures DigitsOf(s + t) == DigitsOf(s) + DigitsOf(t)
  {
    hide Value;
    if s == [] {
      assert s + t == t;
    } else {
      DigitsOfConcat(s[1..], t);
      assert (s + t)[1..] == s[1..] + t;
    }
  }

  lemma {:induction false} DigitsOfDigits(e: bytes)
    requires IsDigits(e)
    ensures DigitsOf(e) == e
  {
    if e != [] {
      DigitsOfDigits(e[1..]);
    }
  }

  lemma {:induction false} EncodedIsDigits(s: bytes)
    ensures IsDigits(Encoded(s))
  {
    if |s| > 2 {
      EncodedIsDigits(s[3..]);
    }
  }

  lemma BreakHasNoDigits()
    ensures DigitsOf(CRLF) == []
  {
    assert DigitsOf(CRLF[1..]) == [];
  }

  /** Line breaks are skipped. */
  lemma {:induction false} BreaksAreSkipped(e: bytes, max: nat)
    requires max > 0 && IsDigits(e)
    ensures DigitsOf(Broken(e, max)) == e
    decreases |e|
  {
    hide DigitsOf, Value;
    if |e| < max {
      DigitsOfDigits(e);
    } else {
      BreaksAreSkipped(e[max..], max);
      DigitsOfDigits(e[..max]);
      BreakHasNoDigits();
      DigitsOfConcat(e[..max], CRLF);
      DigitsOfConcat(e[..max] + CRLF, Broken(e[max..], max));
      assert e == e[..max] + e[max..];
    }
  }

  lemma DigitsOfLines(e: bytes, maxLine: Option<nat>)
    requires (maxLine.Some? ==> maxLine.value > 0) && IsDigits(e)
    ensures DigitsOf(Lines(e, maxLine)) == e
  {
    match maxLine {
      case None => DigitsOfDigits(e);
      case Some(max) =>
        BreaksAreSkipped(e, max);
        assert DigitsOf(CRLF) == [];
        DigitsOfConcat(Broken(e, max), if |e| % max == 0 then [] else CRLF);
    }
  }

  lemma GroupDecodes(a: byte, b: byte, c: byte)
    ensures var g := Group(a, b, c); IsDigits(g) && PadCount(g) == 0 && ThreeOctets(g) == [a, b, c]
  {
    ValueOfDigit(a / 4);
    ValueOfDigit(a % 4 * 16 + b / 16);
    ValueOfDigit(b % 16 * 4 + c / 64);
    ValueOfDigit(c % 64);
    PadCountOfFour(Group(a, b, c));
    hide Digit, Value, PadCount, Or;
    ThreeOf(a / 4, a % 4 * 16 + b / 16, b % 16 * 4 + c / 64, c % 64);
    OctetsOfSextets(a, b, c);
  }

  lemma OctetsOfSextets(a: byte, b: byte, c: byte)
    ensures a / 4 * 4 + (a % 4 * 16 + b / 16) / 16 == a
    ensures (a % 4 * 16 + b / 16) % 16 * 16 + (b % 16 * 4 + c / 64) / 4 == b
    ensures (b % 16 * 4 + c / 64) % 4 * 64 + c % 64 == c
  {
    assert (a % 4 * 16 + b / 16) / 16 == a % 4;
    assert (b % 16 * 4 + c / 64) / 4 == b % 16;
  }

  /** Four groups of six bits are three octets. */
  lemma ThreeOf(v0: sextet, v1: sextet, v2: sextet, v3: sextet)
    ensures Or(v0 * 4, v1 / 16, 4) == v0 * 4 + v1 / 16
    ensures Or(v1 * 16, v2 / 4, 16) == v1 % 16 * 16 + v2 / 4
    ensures Or(v2 * 64, v3, 64) == v2 % 4 * 64 + v3
  {
  }

  lemma OneTailDecodes(a: byte)
    ensures var g := [Digit(a / 4), Digit(a % 4 * 16), EQ, EQ];
            IsDigits(g) && PadCount(g) == 2 && ThreeOctets(g)[..1] == [a]
  {
    ValueOfDigit(a / 4);
    ValueOfDigit(a % 4 * 16);
    var g := [Digit(a / 4), Digit(a % 4 * 16), EQ, EQ];
    assert Value(EQ) == 0;
    PadCountOfFour(g);
    hide Digit, Value, PadCount;
    ThreeOf(a / 4, a % 4 * 16, 0, 0);
    assert ThreeOctets(g)[0] == a;
  }

  lemma TwoTailDecodes(a: byte, b: byte)
    ensures var g := [Digit(a / 4), Digit(a % 4 * 16 + b / 16), Digit(b % 16 * 4), EQ];
            IsDigits(g) && PadCount(g) == 1 && ThreeOctets(g)[..2] == [a, b]
  {
    ValueOfDigit(a / 4);
    ValueOfDigit(a % 4 * 16 + b / 16);
    ValueOfDigit(b % 16 * 4);
    var g := [Digit(a / 4), Digit(a % 4 * 16 + b / 16), Digit(b % 16 * 4), EQ];
    assert Value(EQ) == 0;
    PadCountOfFour(g);
    hide Digit, Value, PadCount;
    ThreeOf(a / 4, a % 4 * 16 + b / 16, b % 16 * 4, 0);
    assert ThreeOctets(g)[0] == a && ThreeOctets(g)[1] == b;
  }

  lemma GroupsOfOne(g: bytes, t: bytes)
    requires |g| == 4 && IsDigits(g) && 1 <= PadCount(g) <= 2 && t == ThreeOctets(g)[..3 - PadCount(g)]
    ensures Groups(g) == Some(t)
  {
    assert g[..4] == g;
  }

  lemma GroupsOfMore(g: bytes, ds: bytes)
    requires |g| == 4 && IsDigits(g) && PadCount(g) == 0 && |ds| % 4 == 0 && IsDigits(ds) && Groups(ds).Some?
    ensures IsDigits(g + ds) && Groups(g + ds) == Some(ThreeOctets(g) + Groups(ds).value)
  {
    assert (g + ds)[..4] == g && (g + ds)[4..] == ds;
  }

  lemma {:induction false} GroupsOfEncoded(s: bytes)
    ensures |Encoded(s)| % 4 == 0 && IsDigits(Encoded(s)) && Groups(Encoded(s)) == Some(s)
  {
    hide Digit, Value, PadCount, ThreeOctets, Group, IsDigits;
    EncodedIsDigits(s);
    EncodedInFours(s);
    if |s| == 1 {
      OneTailDecodes(s[0]);
      assert s == [s[0]];
      GroupsOfOne(Encoded(s), s);
    } else if |s| == 2 {
      TwoTailDecodes(s[0], s[1]);
      assert s == [s[0], s[1]];
      GroupsOfOne(Encoded(s), s);
    } else if |s| > 2 {
      hide Groups;
      GroupsOfEncoded(s[3..]);
      GroupDecodes(s[0], s[1], s[2]);
      GroupLength(s[0], s[1], s[2]);
      assert s == [s[0], s[1], s[2]] + s[3..];
      GroupsOfMore(Group(s[0], s[1], s[2]), Encoded(s[3..]));
    }
  }

  /** Decoding inverts encoding, with line breaks or without. */
  lemma DecodeInvertsEncode(s: bytes, maxLine: Option<nat>)
    requires s != [] && (maxLine.Some? ==> maxLine.value > 0)
    ensures Decoded(Lines(Encoded(s), maxLine)) == Some(s)
  {
    GroupsOfEncoded(s);
    EncodedLength(s);
    DigitsOfLines(Encoded(s), maxLine);
  }

  // ---------- The encoder ----------

  /** What has been written when the digits `e` have, two at a time: the end of a line of odd length is never met. */
  function SoFar(e: bytes, maxLine: Option<nat>): bytes
    requires maxLine.Some? ==> maxLine.value > 0
  {
    if maxLine.None? || maxLine.value % 2 == 1 then e else Broken(e, maxLine.value)
  }

  /** The line ends among the first `n` digits. */
  function Ends(n: nat, maxLine: Option<nat>): nat
    requires maxLine.Some? ==> maxLine.value > 0
  {
    if maxLine.None? || maxLine.value % 2 == 1 then 0 else n / maxLine.value
  }

  lemma SoFarLength(e: bytes, maxLine: Option<nat>)
    requires maxLine.Some? ==> maxLine.value > 0
    ensures |SoFar(e, maxLine)| == |e| + 2 * Ends(|e|, maxLine)
  {
    hide Broken;
    if maxLine.Some? {
      BrokenLength(e, maxLine.value);
    }
  }

  lemma EndsWithin(a: nat, b: nat, maxLine: Option<nat>)
    requires (maxLine.Some? ==> maxLine.value > 0) && a <= b
    ensures Ends(a, maxLine) <= LineCount(b, maxLine)
  {
    if maxLine.Some? {
      Monotone(a, b + maxLine.value - 1, maxLine.value);
    }
  }

  /** There is room for any part of the encoding. */
  lemma SoFarFits(e: bytes, s: bytes, maxLine: Option<nat>)
    requires (maxLine.Some? ==> maxLine.value > 0) && |e| <= |Encoded(s)|
    ensures |SoFar(e, maxLine)| <= MinLength(|s|, maxLine)
  {
    hide Encoded, SoFar, LineCount, Ends;
    EncodedLength(s);
    SoFarLength(e, maxLine);
    EndsWithin(|e|, |Encoded(s)|, maxLine);
  }

  lemma {:induction false} EncodedMore(s: bytes, t: bytes)
    requires |s| % 3 == 0
    ensures Encoded(s + t) == Encoded(s) + Encoded(t)
  {
    if s == [] {
      assert s + t == t;
    } else {
      EncodedMore(s[3..], t);
      assert (s + t)[3..] == s[3..] + t;
      GroupLength(s[0], s[1], s[2]);
      Concat(Group(s[0], s[1], s[2]), Encoded(s[3..]), Encoded(t));
    }
  }

  /** The 24 bits of three octets. */
  function Bits(a: byte, b: byte, c: byte): nat {
    (a as int * 256 + b) * 256 + c
  }

  lemma HalvesOfBits(a: byte, b: byte, c: byte)
    ensures Bits(a, b, c) / 4096 == a * 16 + b / 16 < 4096
    ensures Bits(a, b, c) % 4096 == b % 16 * 256 + c
  {
    var low := b % 16 * 256 + c;
    assert Bits(a, b, c) == 4096 * (a * 16 + b / 16) + low;
  }

  lemma Sextets(a: byte, b: byte, c: byte)
    ensures (a * 16 + b / 16) / 64 == a / 4 && (a * 16 + b / 16) % 64 == a % 4 * 16 + b / 16
    ensures (b % 16 * 256 + c) / 64 == b % 16 * 4 + c / 64 && (b % 16 * 256 + c) % 64 == c % 64
  {
    assert a * 16 + b / 16 == 64 * (a / 4) + (a % 4 * 16 + b / 16);
    assert b % 16 * 256 + c == 64 * (b % 16 * 4 + c / 64) + c % 64;
  }

  /** An entry of the pair table: two digits for twelve bits. */
  function Pair(c: nat): bytes
    requires c < 4096
  {
    [Digit(c / 64), Digit(c % 64)]
  }

  /** Two pairs are the group of RFC 4648. */
  lemma PairsAreGroup(a: byte, b: byte, c: byte)
    ensures Bits(a, b, c) / 4096 < 4096
    ensures Group(a, b, c) == Pair(Bits(a, b, c) / 4096) + Pair(Bits(a, b, c) % 4096)
  {
    hide Digit, Bits;
    HalvesOfBits(a, b, c);
    Sextets(a, b, c);
  }

  class Encoder {
    const maxLine: Option<nat>
    const dp: array<byte>
    /** Characters written, and those of them in the current line. */
    var di: nat
    var li: nat

    ghost predicate Wrote(e: bytes)
      reads this, dp
    {
      && (maxLine.Some? ==> maxLine.value > 0)
      && li == (if maxLine.None? || maxLine.value % 2 == 1 then |e| else |e| % maxLine.value)
      && di <= dp.Length && dp[..di] == SoFar(e, maxLine)
    }

    constructor (n: nat, maxLine: Option<nat>)
      requires maxLine.Some? ==> maxLine.value > 0
      ensures Wrote([]) && dp.Length == MinLength(n, maxLine) && this.maxLine == maxLine && fresh(dp)
    {
      this.maxLine := maxLine;
      dp := new byte[MinLength(n, maxLine)](_ => 0);
      di, li := 0, 0;
    }

    method PutTwo(x: byte, y: byte)
      requires di + 2 <= dp.Length
      modifies this`di, dp
      ensures di == old(di) + 2 && dp[..di] == old(dp[..di]) + [x, y]
    {
      dp[di] := x;
      dp[di + 1] := y;
      di := di + 2;
    }

    /** Two digits from the pair table, and a line break if that fills the line. */
    method PutPair(c: nat, ghost e: bytes)
      requires Wrote(e) && c < 4096 && |SoFar(e + Pair(c), maxLine)| <= dp.Length && |e| % 2 == 0
      modifies this, dp
      ensures Wrote(e + Pair(c))
    {
      hide Digit, SoFar;
      SoFarMore(e, Digit(c / 64), Digit(c % 64));
      PutTwo(Digit(c / 64), Digit(c % 64));
      li := li + 2;
      if maxLine == Some(li) {
        PutTwo(0x0d, 0x0a);
        li := 0;
      }
    }

    lemma SoFarMore(e: bytes, x: byte, y: byte)
      requires (maxLine.Some? ==> maxLine.value > 0) && |e| % 2 == 0
      ensures (maxLine.None? || maxLine.value % 2 == 1) ==> SoFar(e + [x, y], maxLine) == SoFar(e, maxLine) + [x, y]
      ensures maxLine.Some? && maxLine.value % 2 == 0 ==>
                var max := maxLine.value;
                && |e| % max + 2 <= max
                && |e + [x, y]| % max == (if |e| % max + 2 == max then 0 else |e| % max + 2)
                && SoFar(e + [x, y], maxLine) == SoFar(e, maxLine) + [x, y] + if |e| % max + 2 == max then CRLF else []
    {
      hide Broken;
      if maxLine.Some? && maxLine.value % 2 == 0 {
        EvenColumn(|e|, maxLine.value);
        BrokenMore(e, [x, y], maxLine.value);
        NextColumn(|e|, 2, maxLine.value);
      }
    }

    /** The padded group of one octet or two at the end. */
    method PutTail(a: byte, b: Option<byte>)
      requires di + 4 <= dp.Length
      modifies this`di, dp
      ensures di == old(di) + 4
      ensures dp[..di] == old(dp[..di]) + Encoded(if b.None? then [a] else [a, b.value])
    {
      var c1, c2 := a / 4, a % 4 * 16;
      if b.Some? {
        c2 := c2 + b.value / 16;
      }
      PutTwo(Digit(c1), Digit(c2));
      if b.Some? {
        PutTwo(Digit(b.value % 16 * 4), EQ);
      } else {
        PutTwo(EQ, EQ);
      }
    }
  }

  /**
   * When the lines come out right: there is only one, or pairs of digits meet the ends of all of them
   * and the padded group, which is written in one piece, fits in the last one.
   */
  predicate LinesFit(n: nat, maxLine: Option<nat>)
    requires maxLine.Some? ==> maxLine.value > 0
  {
    match maxLine
    case None => true
    case Some(max) =>
      (n + 2) / 3 * 4 <= max || (max % 2 == 0 && (n % 3 == 0 || n / 3 * 4 % max + 4 <= max))
  }

  /** The lengths that encoders use are among them. */
  lemma MultiplesOfFourFit(n: nat, max: nat)
    requires max > 0 && max % 4 == 0
    ensures LinesFit(n, Some(max))
  {
    FourthColumn(n / 3 * 4, max);
    assert max % 2 == 0;
  }

  lemma OneLine(n: nat, max: nat)
    requires max > 0
    ensures (n + max - 1) / max <= 1 <==> n <= max
    ensures (n + max - 1) / max == 0 <==> n == 0
  {
    if n == 0 {
      DivisionIsUnique(max - 1, max, 0, max - 1);
    } else if n <= max {
      DivisionIsUnique(n + max - 1, max, 1, n - 1);
    } else {
      Monotone(2 * max, n + max - 1, max);
      DivisionIsUnique(2 * max, max, 2, 0);
    }
  }

  /** A line is missing at the end, and only there, exactly if the lines fit. */
  lemma FullGap(n: nat, maxLine: Option<nat>)
    requires maxLine.Some? ==> maxLine.value > 0
    ensures var gap := LineCount(n, maxLine) - Ends(n, maxLine);
            && gap >= 0
            && (gap <= 1 <==> maxLine.None? || n <= maxLine.value || maxLine.value % 2 == 0)
  {
    if maxLine.Some? {
      CeilingIs(n, maxLine.value);
      OneLine(n, maxLine.value);
      NonNegative(n, maxLine.value);
    }
  }

  lemma NonNegative(n: nat, m: nat)
    requires m > 0
    ensures n / m >= 0 && (n + m - 1) / m >= 0
  {
  }

  lemma {:induction false} FullContent(e: bytes, maxLine: Option<nat>)
    requires (maxLine.Some? ==> maxLine.value > 0) && |e| % 4 == 0
    ensures var gap := LineCount(|e|, maxLine) - Ends(|e|, maxLine);
            gap <= 1 ==> Lines(e, maxLine) == SoFar(e, maxLine) + if gap == 1 then CRLF else []
  {
    FullGap(|e|, maxLine);
    if maxLine.Some? {
      CeilingIs(|e|, maxLine.value);
      if maxLine.value % 2 == 1 && |e| <= maxLine.value {
        assert |e| < maxLine.value;
        Short(|e|, maxLine.value);
        OneLine(|e|, maxLine.value);
      } else {
        hide Broken;
      }
    }
  }

  /** The whole of the encoding, if its last group is not padded. */
  lemma FullLines(s: bytes, maxLine: Option<nat>)
    requires (maxLine.Some? ==> maxLine.value > 0) && |s| % 3 == 0
    ensures var gap := MinLength(|s|, maxLine) - |SoFar(Encoded(s), maxLine)|;
            && gap >= 0 && gap % 2 == 0
            && (gap <= 2 <==> LinesFit(|s|, maxLine))
            && (gap <= 2 ==> Lines(Encoded(s), maxLine) == SoFar(Encoded(s), maxLine) + if gap == 2 then CRLF else [])
  {
    hide Encoded, Lines, SoFar, LineCount, Ends, MinLength, LinesFit;
    var e := Encoded(s);
    EncodedFits(s, maxLine);
    SoFarLength(e, maxLine);
    FullContent(e, maxLine);
    TwiceIs(MinLength(|s|, maxLine) - |SoFar(e, maxLine)|, LineCount(|e|, maxLine) - Ends(|e|, maxLine));
  }

  lemma TwiceIs(gap: int, lines: int)
    requires gap == 2 * lines
    ensures gap % 2 == 0 && (gap >= 0 <==> lines >= 0) && (gap <= 2 <==> lines <= 1) && (gap == 2 <==> lines == 1)
  {
  }

  lemma EncodedFits(s: bytes, maxLine: Option<nat>)
    requires (maxLine.Some? ==> maxLine.value > 0) && |s| % 3 == 0
    ensures var d := |Encoded(s)|;
            && d % 4 == 0 && MinLength(|s|, maxLine) == d + 2 * LineCount(d, maxLine)
            && LineCount(d, maxLine) - Ends(d, maxLine) >= 0
            && (LineCount(d, maxLine) - Ends(d, maxLine) <= 1 <==> LinesFit(|s|, maxLine))
  {
    hide Encoded, LineCount, Ends, MinLength, LinesFit;
    EncodedLength(s);
    FullFits(|s|, maxLine);
  }

  lemma FullFits(n: nat, maxLine: Option<nat>)
    requires (maxLine.Some? ==> maxLine.value > 0) && n % 3 == 0
    ensures var d := (n + 2) / 3 * 4;
            && d % 4 == 0 && MinLength(n, maxLine) == d + 2 * LineCount(d, maxLine)
            && LineCount(d, maxLine) - Ends(d, maxLine) >= 0
            && (LineCount(d, maxLine) - Ends(d, maxLine) <= 1 <==> LinesFit(n, maxLine))
  {
    FullGap((n + 2) / 3 * 4, maxLine);
    hide LineCount, Ends;
  }

  lemma TailGap(n: nat, maxLine: Option<nat>)
    requires maxLine.Some? ==> maxLine.value > 0
    ensures var gap := LineCount(n + 4, maxLine) - Ends(n, maxLine);
            && gap >= 0
            && (gap <= 1 <==> maxLine.None? || n + 4 <= maxLine.value ||
                              (maxLine.value % 2 == 0 && n % maxLine.value + 4 <= maxLine.value))
            && (maxLine.Some? ==> gap > 0)
  {
    if maxLine.Some? {
      var max := maxLine.value;
      OneLine(n + 4, max);
      NonNegative(n + 4, max);
      TailColumn(n, max);
      if n + 4 <= max {
        Short(n, max);
      }
    }
  }

  lemma TailColumn(n: nat, max: nat)
    requires max > 0
    ensures n % max + 4 <= max ==> (n + 4 + max - 1) / max == n / max + 1
    ensures n % max + 4 > max ==> (n + 4 + max - 1) / max >= n / max + 2
  {
    var q, r := n / max, n % max;
    assert n == max * q + r;
    if r + 4 <= max {
      assert max * (q + 1) == max * q + max;
      DivisionIsUnique(n + 4 + max - 1, max, q + 1, r + 3);
    } else {
      assert max * (q + 2) == max * q + 2 * max;
      Monotone(max * (q + 2), n + 4 + max - 1, max);
      DivisionIsUnique(max * (q + 2), max, q + 2, 0);
    }
  }

  lemma TailContent(e: bytes, t: bytes, maxLine: Option<nat>)
    requires (maxLine.Some? ==> maxLine.value > 0) && |e| % 4 == 0 && |t| == 4
    requires LineCount(|e| + 4, maxLine) - Ends(|e|, maxLine) <= 1
    ensures Lines(e + t, maxLine) == SoFar(e, maxLine) + t + if maxLine.Some? then CRLF else []
  {
    if maxLine.Some? {
      var max := maxLine.value;
      TailGap(|e|, maxLine);
      if max % 2 == 0 {
        hide Broken;
        if |e| + 4 <= max {
          Short(|e|, max);
        }
        BrokenMore(e, t, max);
        NextColumn(|e|, 4, max);
      } else {
        Short(|e| + 4, max);
      }
    }
  }

  lemma TailFits(n: nat, maxLine: Option<nat>)
    requires (maxLine.Some? ==> maxLine.value > 0) && n % 3 != 0
    ensures var d := n / 3 * 4;
            && MinLength(n, maxLine) == d + 4 + 2 * LineCount(d + 4, maxLine)
            && (LineCount(d + 4, maxLine) - Ends(d, maxLine) <= 1 <==> LinesFit(n, maxLine))
  {
    TailGap(n / 3 * 4, maxLine);
    assert (n + 2) / 3 * 4 == n / 3 * 4 + 4;
    hide LineCount, Ends;
  }

  /** The whole of the encoding with a padded group `t` behind the digits `e`. */
  lemma TailLines(e: bytes, t: bytes, n: nat, maxLine: Option<nat>)
    requires (maxLine.Some? ==> maxLine.value > 0) && n % 3 != 0 && |e| == n / 3 * 4 && |t| == 4
    ensures var gap := MinLength(n, maxLine) - |SoFar(e, maxLine)| - 4;
            && gap >= 0 && gap % 2 == 0
            && (gap <= 2 <==> LinesFit(n, maxLine))
            && (gap <= 2 ==> Lines(e + t, maxLine) == SoFar(e, maxLine) + t + if gap == 2 then CRLF else [])
  {
    hide Lines, SoFar, MinLength, LinesFit;
    TailFits(n, maxLine);
    SoFarLength(e, maxLine);
    TailGap(|e|, maxLine);
    if LineCount(|e| + 4, maxLine) - Ends(|e|, maxLine) <= 1 {
      TailContent(e, t, maxLine);
    }
    if maxLine.Some? {
      hide LineCount, Ends;
    }
  }

  lemma EvenColumn(n: nat, m: nat)
    requires m > 0 && m % 2 == 0 && n % 2 == 0
    ensures n % m % 2 == 0
  {
    assert n == m * (n / m) + n % m;
    assert m * (n / m) == 2 * (m / 2 * (n / m));
  }

  lemma FourthColumn(n: nat, m: nat)
    requires m > 0 && m % 4 == 0 && n % 4 == 0
    ensures n % m % 4 == 0 && n % m + 4 <= m
  {
    var q, r, k, j := n / m, n % m, m / 4, n / 4;
    assert m == 4 * k && n == 4 * j && n == m * q + r;
    assert 4 * k * q == 4 * (k * q);
    FoursDiffer(r, j - k * q, m, k);
  }

  lemma FoursDiffer(r: nat, a: int, m: nat, k: nat)
    requires r == 4 * a && m == 4 * k && r < m
    ensures r % 4 == 0 && r + 4 <= m
  {
  }

  lemma NextColumn(n: nat, k: nat, m: nat)
    requires m > 0 && n % m + k <= m && 0 < k
    ensures (n + k) % m == if n % m + k == m then 0 else n % m + k
  {
    var q, r := n / m, n % m;
    assert n == m * q + r;
    if r + k == m {
      assert m * (q + 1) == m * q + m;
      DivisionIsUnique(n + k, m, q + 1, 0);
      assert n + k == m * ((n + k) / m) + (n + k) % m;
    } else {
      DivisionIsUnique(n + k, m, q, r + k);
      assert n + k == m * ((n + k) / m) + (n + k) % m;
    }
  }

  /** base64_encode_tobuffer, into a buffer that is just large enough; `ok` is its last assertion. */
  method EncodeToBuffer(s: bytes, maxLine: Option<nat>) returns (dp: array<byte>, ok: bool)
    requires maxLine.Some? ==> maxLine.value > 0
    ensures fresh(dp) && (ok <==> LinesFit(|s|, maxLine))
    ensures ok ==> dp[..] == Lines(Encoded(s), maxLine)
  {
    hide LinesFit, Lines, Encoded, MinLength, Encoder.Wrote;
    var encoder := new Encoder(|s|, maxLine);
    dp := encoder.dp;
    var si := PutGroups(s, encoder);
    ok := FinishEncoding(s, si, encoder);
  }

  /** Three octets on lines of three digits, and one octet on lines of two: the assertion fails. */
  method EncodeOnShortLines(a: byte, b: byte, c: byte) returns (full: bool, tail: bool)
    ensures !full && !tail
  {
    var dp;
    dp, full := EncodeToBuffer([a, b, c], Some(3));
    dp, tail := EncodeToBuffer([a], Some(2));
  }

  method PutGroups(s: bytes, encoder: Encoder) returns (si: nat)
    requires encoder.Wrote([]) && encoder.dp.Length == MinLength(|s|, encoder.maxLine)
    requires encoder.maxLine.Some? ==> encoder.maxLine.value > 0
    modifies encoder, encoder.dp
    ensures si % 3 == 0 && si <= |s| < si + 3 && encoder.Wrote(Encoded(s[..si]))
  {
    hide Encoder.Wrote, Encoded, MinLength;
    si := 0;
    NothingEncoded();
    assert s[..0] == [];
    while |s| - si > 2
      invariant 0 <= si <= |s| && si % 3 == 0 && encoder.Wrote(Encoded(s[..si]))
    {
      PutGroup(s, si, encoder);
      si := si + 3;
    }
  }

  method PutGroup(s: bytes, si: nat, encoder: Encoder)
    requires si % 3 == 0 && si + 3 <= |s| && encoder.Wrote(Encoded(s[..si]))
    requires encoder.maxLine.Some? ==> encoder.maxLine.value > 0
    requires encoder.dp.Length == MinLength(|s|, encoder.maxLine)
    modifies encoder, encoder.dp
    ensures encoder.Wrote(Encoded(s[..si + 3]))
  {
    hide Encoder.Wrote, Encoded, SoFar, MinLength, Pair, Bits;
    GroupWritten(s, si, encoder.maxLine);
    var n := Bits(s[si], s[si + 1], s[si + 2]);
    ghost var e := Encoded(s[..si]);
    encoder.PutPair(n / 4096, e);
    encoder.PutPair(n % 4096, e + Pair(n / 4096));
  }

  lemma NothingEncoded()
    ensures Encoded([]) == []
  {
  }

  method FinishEncoding(s: bytes, si: nat, encoder: Encoder) returns (ok: bool)
    requires si % 3 == 0 && si <= |s| < si + 3 && encoder.Wrote(Encoded(s[..si]))
    requires encoder.maxLine.Some? ==> encoder.maxLine.value > 0
    requires encoder.dp.Length == MinLength(|s|, encoder.maxLine)
    modifies encoder, encoder.dp
    ensures ok <==> LinesFit(|s|, encoder.maxLine)
    ensures ok ==> encoder.dp[..] == Lines(Encoded(s), encoder.maxLine)
  {
    hide Encoded, MinLength, Broken, SoFar, Lines, LinesFit, Encoder.Wrote;
    PutRest(s, si, encoder);
    if encoder.maxLine.Some? && encoder.di < encoder.dp.Length {
      encoder.PutTwo(0x0d, 0x0a);
    }
    ok := encoder.di == encoder.dp.Length;
  }

  /** One octet or two that are left. */
  method PutRest(s: bytes, si: nat, encoder: Encoder)
    requires si % 3 == 0 && si <= |s| < si + 3 && encoder.Wrote(Encoded(s[..si]))
    requires encoder.maxLine.Some? ==> encoder.maxLine.value > 0
    requires encoder.dp.Length == MinLength(|s|, encoder.maxLine)
    modifies encoder, encoder.dp
    ensures encoder.di <= encoder.dp.Length && Ready(s, encoder.dp[..encoder.di], encoder.maxLine)
  {
    hide Encoded, MinLength, SoFar, Lines, Ready;
    RestLines(s, si, encoder.maxLine);
    var rest := |s| - si;
    if rest == 1 {
      assert s[si..] == [s[si]];
      encoder.PutTail(s[si], None);
    } else if rest == 2 {
      assert s[si..] == [s[si], s[si + 1]];
      encoder.PutTail(s[si], Some(s[si + 1]));
    }
  }

  /** All but the end of the last line has been written, as far as the lines come out right. */
  ghost predicate Ready(s: bytes, written: bytes, maxLine: Option<nat>)
    requires maxLine.Some? ==> maxLine.value > 0
  {
    var gap := MinLength(|s|, maxLine) - |written|;
    && gap >= 0 && gap % 2 == 0
    && (maxLine.None? ==> gap == 0)
    && (gap <= 2 <==> LinesFit(|s|, maxLine))
    && (gap <= 2 ==> Lines(Encoded(s), maxLine) == written + if gap == 2 then CRLF else [])
  }

  lemma RestLines(s: bytes, si: nat, maxLine: Option<nat>)
    requires si % 3 == 0 && si <= |s| < si + 3 && (maxLine.Some? ==> maxLine.value > 0)
    ensures var e := Encoded(s[..si]);
            && (si == |s| ==> Ready(s, SoFar(e, maxLine), maxLine))
            && (si < |s| ==> Ready(s, SoFar(e, maxLine) + Encoded(s[si..]), maxLine) &&
                             |SoFar(e, maxLine)| + 4 <= MinLength(|s|, maxLine))
  {
    hide Encoded, MinLength, SoFar, Lines, LinesFit;
    NoLines(s, si, maxLine);
    if si < |s| {
      assert s == s[..si] + s[si..];
      EncodedMore(s[..si], s[si..]);
      TailLengths(s, si);
      TailLines(Encoded(s[..si]), Encoded(s[si..]), |s|, maxLine);
    } else {
      assert s[..si] == s;
      FullLines(s, maxLine);
    }
  }

  lemma TailLengths(s: bytes, si: nat)
    requires si % 3 == 0 && si < |s| < si + 3
    ensures |s| % 3 != 0 && |Encoded(s[..si])| == |s| / 3 * 4 && |Encoded(s[si..])| == 4
  {
    hide Encoded;
    EncodedLength(s[..si]);
    EncodedLength(s[si..]);
    assert (si + 2) / 3 == si / 3 == |s| / 3;
  }

  lemma NoLines(s: bytes, si: nat, maxLine: Option<nat>)
    requires si % 3 == 0 && si <= |s| < si + 3
    ensures maxLine.None? ==>
              && MinLength(|s|, maxLine) == |Encoded(s[..si])| + (if si < |s| then 4 else 0)
              && SoFar(Encoded(s[..si]), maxLine) == Encoded(s[..si])
  {
    hide Encoded;
    EncodedLength(s[..si]);
    assert si == si / 3 * 3;
    assert (|s| + 2) / 3 == si / 3 + if si < |s| then 1 else 0;
  }

  lemma OneGroup(three: bytes)
    requires |three| == 3
    ensures Encoded(three) == Group(three[0], three[1], three[2])
  {
    hide Group;
    assert three[3..] == [];
  }

  /** A group of three octets, written as two pairs. */
  lemma GroupWritten(s: bytes, si: nat, maxLine: Option<nat>)
    requires si % 3 == 0 && si + 3 <= |s| && (maxLine.Some? ==> maxLine.value > 0)
    ensures var n := Bits(s[si], s[si + 1], s[si + 2]);
            var e := Encoded(s[..si]);
            && n / 4096 < 4096 && |e| % 2 == 0 && |e + Pair(n / 4096)| % 2 == 0
            && e + Pair(n / 4096) + Pair(n % 4096) == Encoded(s[..si + 3])
            && |SoFar(e + Pair(n / 4096), maxLine)| <= MinLength(|s|, maxLine)
            && |SoFar(Encoded(s[..si + 3]), maxLine)| <= MinLength(|s|, maxLine)
  {
    hide SoFar, MinLength, Digit, Group, Bits, Encoded;
    var a, b, c := s[si], s[si + 1], s[si + 2];
    var three := s[si..si + 3];
    assert s[..si + 3] == s[..si] + three && three[0] == a && three[1] == b && three[2] == c;
    OneGroup(three);
    PairsAreGroup(a, b, c);
    EncodedMore(s[..si], three);
    Concat(Encoded(s[..si]), Pair(Bits(a, b, c) / 4096), Pair(Bits(a, b, c) % 4096));
    GroupFits(s, si, Pair(Bits(a, b, c) / 4096), maxLine);
  }

  lemma LengthsFit(s: bytes, si: nat)
    requires si % 3 == 0 && si + 3 <= |s|
    ensures |Encoded(s[..si])| % 2 == 0
    ensures |Encoded(s[..si])| + 2 <= |Encoded(s)| && |Encoded(s[..si + 3])| <= |Encoded(s)|
  {
    hide Encoded;
    assert s == s[..si] + s[si..] && s[..si + 3] == s[..si] + s[si..si + 3];
    assert s[si..] == s[si..si + 3] + s[si + 3..];
    EncodedMore(s[..si], s[si..]);
    EncodedMore(s[..si], s[si..si + 3]);
    EncodedMore(s[si..si + 3], s[si + 3..]);
    OneGroup(s[si..si + 3]);
    EncodedInFours(s[..si]);
  }

  lemma GroupFits(s: bytes, si: nat, pair: bytes, maxLine: Option<nat>)
    requires si % 3 == 0 && si + 3 <= |s| && (maxLine.Some? ==> maxLine.value > 0) && |pair| == 2
    ensures |Encoded(s[..si])| % 2 == 0
    ensures |SoFar(Encoded(s[..si]) + pair, maxLine)| <= MinLength(|s|, maxLine)
    ensures |SoFar(Encoded(s[..si + 3]), maxLine)| <= MinLength(|s|, maxLine)
  {
    hide SoFar, MinLength, Encoded;
    LengthsFit(s, si);
    SoFarFits(Encoded(s[..si]) + pair, s, maxLine);
    SoFarFits(Encoded(s[..si + 3]), s, maxLine);
  }

  // ---------- The decoder ----------

  method CountDigits(s: bytes) returns (n: nat)
    ensures n == |DigitsOf(s)|
  {
    n := 0;
    for i := 0 to |s|
      invariant n + |DigitsOf(s[i..])| == |DigitsOf(s)|
    {
      assert s[i..][1..] == s[i + 1..];
      if Value(s[i]) != NONE {
        n := n + 1;
      }
    }
  }

  /** What decoding the digits `rest` adds to `done`. */
  ghost predicate Leads(total: Option<bytes>, done: bytes, rest: bytes) {
    && |rest| % 4 == 0 && IsDigits(rest)
    && total == match Groups(rest) case None => None case Some(more) => Some(done + more)
  }

  method PutThree(block: array<nat>, dp: array<byte>, j: nat, ghost g: bytes)
    requires block.Length == 4 && |g| == 4 && IsDigits(g) && j + 3 <= dp.Length
    requires forall k :: 0 <= k < 4 ==> block[k] == Value(g[k])
    modifies dp
    ensures dp[..j + 3] == old(dp[..j]) + ThreeOctets(g)
  {
    hide Value, Or;
    dp[j] := Or(block[0] * 4, block[1] / 16, 4);
    dp[j + 1] := Or(block[1] * 16, block[2] / 4, 16);
    dp[j + 2] := Or(block[2] * 64, block[3], 64);
  }

  lemma FullBlock(total: Option<bytes>, done: bytes, g: bytes, rest: bytes)
    requires |g| == 4 && Leads(total, done, g + rest)
    ensures IsDigits(g)
    ensures PadCount(g) > 2 ==> total.None?
    ensures 0 < PadCount(g) <= 2 ==> total == Some(done + ThreeOctets(g)[..3 - PadCount(g)])
    ensures PadCount(g) == 0 ==> Leads(total, done + ThreeOctets(g), rest)
  {
    hide PadCount, ThreeOctets;
    assert (g + rest)[..4] == g && (g + rest)[4..] == rest;
    assert forall i :: 0 <= i < 4 ==> (g + rest)[i] == g[i];
    assert forall i :: 0 <= i < |rest| ==> (g + rest)[4 + i] == rest[i];
    if PadCount(g) == 0 && Groups(rest).Some? {
      Concat(done, ThreeOctets(g), Groups(rest).value);
    }
  }

  /** The next octet goes into the block if it is a digit. */
  lemma OneDigit(g: bytes, s: bytes, i: nat)
    requires i < |s|
    ensures Value(s[i]) == NONE ==> DigitsOf(s[i..]) == DigitsOf(s[i + 1..])
    ensures Value(s[i]) != NONE ==> g + DigitsOf(s[i..]) == (g + [s[i]]) + DigitsOf(s[i + 1..])
    ensures PadCount(g + [s[i]]) == PadCount(g) + if s[i] == EQ then 1 else 0
  {
    hide Value;
    assert s[i..][1..] == s[i + 1..];
    assert (g + [s[i]])[..|g|] == g;
  }

  lemma Remaining(g: bytes, s: bytes, i: nat)
    requires i <= |s|
    ensures i == |s| ==> DigitsOf(s[i..]) == [] && g + DigitsOf(s[i..]) == g
  {
  }

  /** base64_decode_tobuffer: `j` octets of the buffer are the answer, if there is one. */
  method DecodeToBuffer(s: bytes) returns (dp: array<byte>, j: nat, ok: bool)
    ensures fresh(dp) && j <= dp.Length
    ensures ok <==> Decoded(s).Some?
    ensures ok ==> dp[..j] == Decoded(s).value
  {
    hide Value, PadCount, Groups, ThreeOctets, IsDigits, DigitsOf;
    dp, j, ok := new byte[0], 0, false;
    var n := CountDigits(s);
    if n == 0 || n % 4 != 0 {
      NoDigits(s);
      return;
    }
    dp := new byte[n / 4 * 3](_ => 0);
    j, ok := DecodeBlocks(s, dp);
  }

  method DecodeBlocks(s: bytes, dp: array<byte>) returns (j: nat, ok: bool)
    requires |DigitsOf(s)| % 4 == 0 && DigitsOf(s) != [] && dp.Length == |DigitsOf(s)| / 4 * 3
    modifies dp
    ensures j <= dp.Length
    ensures ok <==> Decoded(s).Some?
    ensures ok ==> dp[..j] == Decoded(s).value
  {
    hide Value, PadCount, Groups, ThreeOctets, IsDigits, DigitsOf, Leads, Decoded;
    var block := new nat[4](_ => 0);
    var count, pad := 0, 0;
    j := 0;
    ghost var g: bytes := [];
    LeadsAtFirst(s);
    var i := 0;
    while i < |s|
      invariant 0 <= i <= |s| && |g| == count < 4 && pad == PadCount(g)
      invariant forall k :: 0 <= k < count ==> block[k] == Value(g[k])
      invariant j <= dp.Length && Leads(Decoded(s), dp[..j], g + DigitsOf(s[i..]))
      invariant j + (count + |DigitsOf(s[i..])|) / 4 * 3 == dp.Length
    {
      OneDigit(g, s, i);
      if Value(s[i]) != NONE {
        if s[i] == EQ {
          pad := pad + 1;
        }
        block[count] := Value(s[i]);
        count := count + 1;
        g := g + [s[i]];
        if count == 4 {
          FullBlock(Decoded(s), dp[..j], g, DigitsOf(s[i + 1..]));
          PutThree(block, dp, j, g);
          j := j + 3;
          count := 0;
          if pad != 0 {
            ok := pad <= 2;
            j := if pad == 1 then j - 1 else j - 2;
            return;
          }
          g := [];
          NoneYet(DigitsOf(s[i + 1..]));
        }
      }
      i := i + 1;
    }
    ok := true;
    LeadsAtLast(Decoded(s), dp[..j], g, s);
  }

  lemma NoneYet(rest: bytes)
    ensures PadCount([]) == 0 && [] + rest == rest
  {
  }

  lemma LeadsAtFirst(s: bytes)
    requires |DigitsOf(s)| % 4 == 0 && DigitsOf(s) != []
    ensures s[0..] == s && [] + DigitsOf(s) == DigitsOf(s) && PadCount([]) == 0
    ensures Leads(Decoded(s), [], [] + DigitsOf(s))
  {
    assert [] + DigitsOf(s) == DigitsOf(s);
    DigitsAreDigits(s);
    hide Groups, IsDigits, DigitsOf;
    if Decoded(s).Some? {
      assert [] + Decoded(s).value == Decoded(s).value;
    }
  }

  lemma LeadsAtLast(total: Option<bytes>, done: bytes, g: bytes, s: bytes)
    requires |g| < 4 && Leads(total, done, g + DigitsOf(s[|s|..]))
    ensures total == Some(done)
  {
    assert DigitsOf(s[|s|..]) == [];
    assert g == [];
    assert done + [] == done;
  }

  lemma NoDigits(s: bytes)
    requires |DigitsOf(s)| == 0 || |DigitsOf(s)| % 4 != 0
    ensures Decoded(s) == None
  {
    DigitsAreDigits(s);
  }
}

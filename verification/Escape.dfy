/**
 Escaping of text and of attribute values: what the writer sends piece by piece
 is the octet-by-octet escape of section 2.3 of Canonical XML 1.0.
 */
module Escape {
  import opened Options
  import opened Bytes
  import opened StatusCodes
  import opened Utf8

  // ---------- The definition ----------

  datatype Place = InText | InValue

  const AMP: bytes := [0x26, 0x61, 0x6d, 0x70, 0x3b]         // &amp;
  const LT: bytes := [0x26, 0x6c, 0x74, 0x3b]                // &lt;
  const GT: bytes := [0x26, 0x67, 0x74, 0x3b]                // &gt;
  const QUOT: bytes := [0x26, 0x71, 0x75, 0x6f, 0x74, 0x3b]  // &quot;
  const TAB: bytes := [0x26, 0x23, 0x78, 0x39, 0x3b]         // &#x9;
  const LF: bytes := [0x26, 0x23, 0x78, 0x41, 0x3b]          // &#xA;
  const CR: bytes := [0x26, 0x23, 0x78, 0x44, 0x3b]          // &#xD;

  /** Must an octet be written as a reference? */
  predicate IsSpecial(place: Place, b: int) {
    || b == 0x26
    || b == 0x3c
    || b == 0x0d
    || (place.InText? && b == 0x3e)
    || (place.InValue? && (b == 0x22 || b == 0x09 || b == 0x0a))
  }

  function EscapeOctet(place: Place, b: byte): bytes {
    if !IsSpecial(place, b) then [b]
    else if b == 0x26 then AMP
    else if b == 0x3c then LT
    else if b == 0x0d then CR
    else if b == 0x3e then GT
    else if b == 0x22 then QUOT
    else if b == 0x09 then TAB
    else LF
  }

  function Escaped(place: Place, s: bytes): bytes {
    if s == [] then [] else EscapeOctet(place, s[0]) + Escaped(place, s[1..])
  }

  /** The octet a reference at the start of `s` stands for, and the length of the reference. */
  function Reference(s: bytes): Option<(byte, nat)> {
    if AMP <= s then Some((0x26, |AMP|))
    else if LT <= s then Some((0x3c, |LT|))
    else if GT <= s then Some((0x3e, |GT|))
    else if QUOT <= s then Some((0x22, |QUOT|))
    else if TAB <= s then Some((0x09, |TAB|))
    else if LF <= s then Some((0x0a, |LF|))
    else if CR <= s then Some((0x0d, |CR|))
    else None
  }

  /** What a reader makes of `s`: references resolved, nothing when `s` has a stray & or <. */
  function Resolved(s: bytes): Option<bytes> {
    if s == [] then Some([])
    else if s[0] == 0x3c then None
    else if s[0] == 0x26 then
      match Reference(s)
      case None => None
      case Some((b, n)) =>
        match Resolved(s[n..])
        case None => None
        case Some(rest) => Some([b] + rest)
    else
      match Resolved(s[1..])
      case None => None
      case Some(rest) => Some([s[0]] + rest)
  }

  lemma ReferenceOfOctet(place: Place, b: byte, rest: bytes)
    requires IsSpecial(place, b)
    ensures var r := EscapeOctet(place, b);
            r[0] == 0x26 && Reference(r + rest) == Some((b, |r|)) && (r + rest)[|r|..] == rest
  {
    var r := EscapeOctet(place, b);
    var s := r + rest;
    assert s[1] == r[1] && s[3] == r[3];
    assert forall p: bytes :: p <= s && |p| > 1 ==> p[1] == s[1];
    assert r <= s;
  }

  lemma ResolvedPlain(b: byte, rest: bytes)
    requires b != 0x26 && b != 0x3c && Resolved(rest).Some?
    ensures Resolved([b] + rest) == Some([b] + Resolved(rest).value)
  {
    assert ([b] + rest)[1..] == rest;
  }

  lemma ResolvedReference(place: Place, b: byte, rest: bytes)
    requires IsSpecial(place, b) && Resolved(rest).Some?
    ensures Resolved(EscapeOctet(place, b) + rest) == Some([b] + Resolved(rest).value)
  {
    ReferenceOfOctet(place, b, rest);
    hide Reference, EscapeOctet;
  }

  /** Resolving the references of escaped text or values gives back the input. */
  lemma {:induction false} ResolveEscaped(place: Place, s: bytes)
    ensures Resolved(Escaped(place, s)) == Some(s)
  {
    if s != [] {
      ResolveEscaped(place, s[1..]);
      assert s == [s[0]] + s[1..];
      if IsSpecial(place, s[0]) {
        ResolvedReference(place, s[0], Escaped(place, s[1..]));
      } else {
        ResolvedPlain(s[0], Escaped(place, s[1..]));
      }
    }
  }

  /** No octet that needs escaping survives, apart from the & of the references. */
  lemma {:induction false} EscapedHasNoSpecial(place: Place, s: bytes)
    ensures forall i :: 0 <= i < |Escaped(place, s)| ==>
              Escaped(place, s)[i] == 0x26 || !IsSpecial(place, Escaped(place, s)[i])
  {
    if s != [] {
      EscapedHasNoSpecial(place, s[1..]);
    }
  }

  lemma EscapedUnfold(place: Place, s: bytes)
    ensures Escaped(place, s) == if s == [] then [] else EscapeOctet(place, s[0]) + Escaped(place, s[1..])
  {
  }

  lemma {:induction false} EscapedConcat(place: Place, s: bytes, t: bytes)
    ensures Escaped(place, s + t) == Escaped(place, s) + Escaped(place, t)
  {
    hide Escaped, EscapeOctet;
    EscapedUnfold(place, s);
    if s == [] {
      assert s + t == t;
    } else {
      EscapedUnfold(place, s + t);
      EscapedConcat(place, s[1..], t);
      assert (s + t)[1..] == s[1..] + t;
      Concat(EscapeOctet(place, s[0]), Escaped(place, s[1..]), Escaped(place, t));
    }
  }

  lemma {:induction false} EscapedPlain(place: Place, s: bytes)
    requires forall i :: 0 <= i < |s| ==> !IsSpecial(place, s[i])
    ensures Escaped(place, s) == s
  {
    if s != [] {
      EscapedPlain(place, s[1..]);
    }
  }

  /** Escaping one character: only characters of one octet are special. */
  lemma EscapedChar(place: Place, s: bytes)
    requires IsUtf8Char(s)
    ensures IsSpecial(place, Scalar(s)) ==> Escaped(place, s) == EscapeOctet(place, s[0]) && s[0] == Scalar(s)
    ensures !IsSpecial(place, Scalar(s)) ==> Escaped(place, s) == s
  {
    if IsSpecial(place, Scalar(s)) {
      assert |s| == 1 && Escaped(place, s[1..]) == [];
    } else {
      EscapedPlain(place, s);
    }
  }

  // ---------- Sending text ----------

  /** The caller's output callbacks: what they have been handed, in order. */
  class Sender {
    var sent: bytes

    constructor ()
      ensures sent == []
    {
      sent := [];
    }

    method Send(s: bytes)
      modifies this
      ensures sent == old(sent) + s
    {
      sent := sent + s;
    }

    method SendBounded(s: bytes, from: nat, to: nat)
      requires from <= to <= |s|
      modifies this
      ensures sent == old(sent) + s[from..to]
    {
      sent := sent + s[from..to];
    }
  }

  /** What AddChar sends in place of a character, if anything. */
  function TextPiece(c: int): Option<bytes> {
    if c == 0x0d then Some(CR)
    else if c == 0x3c then Some(LT)
    else if c == 0x26 then Some(AMP)
    else if c == 0x3e then Some(GT)
    else None
  }

  lemma TextPieceEscapes(s: bytes)
    requires IsUtf8Char(s)
    ensures Escaped(InText, s) == match TextPiece(Scalar(s)) case Some(d) => d case None => s
  {
    EscapedChar(InText, s);
    hide IsUtf8Char, Scalar;
  }

  /** Everything handed over or pending: the octets from `breaker` up to `last` have not been sent yet. */
  ghost function Pending(out: Sender, s: bytes, breaker: nat, last: nat): bytes
    requires breaker <= last <= |s|
    reads out
  {
    out.sent + s[breaker..last]
  }

  /**
   Take in the character that ends at `next`. Octets from `breaker` on have not been
   sent yet; they go out, unchanged, only when something has to be escaped.
   */
  method AddChar(out: Sender, c: int, s: CString, next: nat, last: nat, breaker: nat)
    returns (r: Status, last': nat, breaker': nat)
    requires breaker <= last <= next <= |s|
    requires c != -1 ==> IsCharAt(s, last, next) && c == Scalar(s[last..next])
    modifies out
    ensures r == if c == -1 then BadUtf8 else if IsXmlChar(c) then Success else NonXmlCharacter
    ensures !r.Success? ==> out.sent == old(out.sent)
    ensures r.Success? ==>
              && breaker' <= last' == next
              && Pending(out, s, breaker', next) == old(Pending(out, s, breaker, last)) + Escaped(InText, s[last..next])
  {
    hide Escaped, IsUtf8Char, Scalar, TextPiece, IsXmlChar;
    last', breaker' := last, breaker;
    if c == -1 {
      return BadUtf8, last', breaker';
    }
    if !IsXmlChar(c) {
      return NonXmlCharacter, last', breaker';
    }
    TextPieceEscapes(s[last..next]);
    match TextPiece(c) {
      case Some(piece) =>
        out.SendBounded(s, breaker, last);
        breaker' := next;
        out.Send(piece);
        assert s[next..next] == [];
        Concat(out.sent, [], []);
      case None =>
        assert s[breaker..next] == s[breaker..last] + s[last..next];
        Concat(out.sent, s[breaker..last], s[last..next]);
    }
    last' := next;
    r := Success;
  }

  /** The loop of the text-adding routines. */
  method SendText(out: Sender, s: CString) returns (r: Status)
    modifies out
    ensures r == TextStatus(s)
    ensures r.Success? ==> out.sent == old(out.sent) + Escaped(InText, s)
  {
    var start, last, breaker := 0, 0, 0;
    while start < |s|
      invariant 0 <= breaker <= last == start <= |s|
      invariant TextStatus(s[start..]) == TextStatus(s)
      invariant Pending(out, s, breaker, start) == old(out.sent) + Escaped(InText, s[..start])
    {
      hide Pending, Escaped, HasChar, IsCharAt, Scalar, IsXmlChar, BadLength;
      var c, next := NextUnicodeChar(s, start);
      if c != -1 {
        ScanStep(s, start, next);
        EscapedStep(InText, s, start, next);
        Concat(old(out.sent), Escaped(InText, s[..start]), Escaped(InText, s[start..next]));
      }
      r, last, breaker := AddChar(out, c, s, next, last, breaker);
      if !r.Success? {
        return r;
      }
      start := next;
    }
    assert s[..start] == s;
    out.SendBounded(s, breaker, start);
    r := Success;
  }

  lemma EscapedStep(place: Place, s: bytes, p: nat, q: nat)
    requires p <= q <= |s|
    ensures Escaped(place, s[..q]) == Escaped(place, s[..p]) + Escaped(place, s[p..q])
  {
    assert s[..q] == s[..p] + s[p..q];
    EscapedConcat(place, s[..p], s[p..q]);
  }

  // ---------- Collecting attribute values ----------

  /** The octets of a C buffer up to the first zero. */
  function TextOf(buf: bytes): bytes {
    if buf == [] || buf[0] == 0 then [] else [buf[0]] + TextOf(buf[1..])
  }

  lemma {:induction false} TextOfTerminated(buf: bytes, n: nat)
    requires n < |buf| && buf[n] == 0 && forall i :: 0 <= i < n ==> buf[i] != 0
    ensures TextOf(buf) == buf[..n]
  {
    if n > 0 {
      TextOfTerminated(buf[1..], n - 1);
    }
  }

  /** Growing buffer for an attribute value, with room for a terminator. */
  class Collector {
    var buf: array<byte>
    var used: nat
    var space: nat

    ghost predicate Valid()
      reads this, buf
    {
      && space == buf.Length
      && used < space
    }

    /** The pieces collected so far. */
    ghost function Pieces(): bytes
      reads this, buf
      requires Valid()
    {
      buf[..used]
    }

    constructor ()
      ensures Valid() && fresh(buf) && Pieces() == []
    {
      space := 100;
      buf := new byte[100];
      used := 0;
    }

    method Grow(size: nat)
      requires used <= size && 0 < size && space == buf.Length && used < space
      modifies this
      ensures Valid() && fresh(buf) && used == old(used) && space == 2 * size
      ensures buf[..used] == old(buf[..used]) && buf[used] == 0
    {
      space := size * 2;
      var newSpace := new byte[space];
      forall i | 0 <= i < used {
        newSpace[i] := buf[i];
      }
      newSpace[used] := 0;
      buf := newSpace;
    }

    method Start()
      requires Valid()
      modifies this
      ensures Valid() && buf == old(buf) && Pieces() == []
    {
      used := 0;
    }

    method Piece(d: bytes)
      requires Valid()
      modifies this, buf
      ensures Valid() && (buf == old(buf) || fresh(buf))
      ensures Pieces() == old(Pieces()) + d
    {
      if used + |d| >= space {
        Grow(used + |d|);
      }
      forall i | 0 <= i < |d| {
        buf[used + i] := d[i];
      }
      used := used + |d|;
    }

    method End()
      requires Valid()
      requires forall i :: 0 <= i < used ==> buf[i] != 0
      modifies buf
      ensures Valid() && Pieces() == old(Pieces())
      ensures TextOf(buf[..]) == Pieces()
    {
      buf[used] := 0;
      TextOfTerminated(buf[..], used);
    }
  }

  /** What to collect for one character of an attribute value. */
  function ValuePiece(c: int, octets: bytes): bytes {
    if c == 0x09 then TAB
    else if c == 0x0a then LF
    else if c == 0x0d then CR
    else if c == 0x22 then QUOT
    else if c == 0x3c then LT
    else if c == 0x26 then AMP
    else octets
  }

  lemma {:induction false} EscapedHasNoZero(place: Place, s: bytes)
    requires forall i :: 0 <= i < |s| ==> s[i] != 0
    ensures forall i :: 0 <= i < |Escaped(place, s)| ==> Escaped(place, s)[i] != 0
  {
    if s != [] {
      EscapedHasNoZero(place, s[1..]);
    }
  }

  lemma ValuePieceEscapes(s: bytes)
    requires IsUtf8Char(s)
    ensures Escaped(InValue, s) == ValuePiece(Scalar(s), s)
  {
    EscapedChar(InValue, s);
    hide IsUtf8Char, Scalar;
  }

  /** The normalising loop of attribute values. */
  method CollectValue(a: Collector, value: CString) returns (r: Status)
    requires a.Valid()
    modifies a, a.buf
    ensures a.Valid() && (a.buf == old(a.buf) || fresh(a.buf))
    ensures r == TextStatus(value)
    ensures r.Success? ==> TextOf(a.buf[..]) == Escaped(InValue, value)
  {
    a.Start();
    var p := 0;
    while p < |value|
      invariant 0 <= p <= |value|
      invariant a.Valid() && (a.buf == old(a.buf) || fresh(a.buf))
      invariant TextStatus(value[p..]) == TextStatus(value)
      invariant a.Pieces() == Escaped(InValue, value[..p])
    {
      hide Escaped, HasChar, IsUtf8Char, Scalar, IsXmlChar, BadLength, ValuePiece;
      var c, next := NextUnicodeChar(value, p);
      if c == -1 {
        return BadUtf8;
      }
      ScanStep(value, p, next);
      if !IsXmlChar(c) {
        return NonXmlCharacter;
      }
      ValuePieceEscapes(value[p..next]);
      EscapedStep(InValue, value, p, next);
      a.Piece(ValuePiece(c, value[p..next]));
      p := next;
    }
    assert value[..p] == value;
    EscapedHasNoZero(InValue, value);
    a.End();
    r := Success;
  }
}

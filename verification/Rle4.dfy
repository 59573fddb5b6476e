/**
 Rows of run-length encoded bitmaps with four bits a pixel: packets are read at whole
 octets and shifted back by half an octet where they start in the middle of one.
 */
module Rle4 {
  import opened Options
  import opened Bytes

  type nibble = n: int | 0 <= n < 16

  // ---------- Pixels ----------

  /** Pixel `x` of a row: even ones are in the upper half of an octet. */
  function Pixel(row: bytes, x: nat): (n: nibble)
    requires x / 2 < |row|
  {
    if x % 2 == 0 then row[x / 2] / 16 else row[x / 2] % 16
  }

  function Pixels(row: bytes, n: nat): (ps: seq<nibble>)
    requires n <= 2 * |row|
    ensures |ps| == n
    ensures forall x :: 0 <= x < n ==> ps[x] == Pixel(row, x)
  {
    seq(n, x requires 0 <= x < n => Pixel(row, x))
  }

  function HalfUp(n: nat): nat {
    (n + 1) / 2
  }

  /** The pixels of a repeat packet: both halves of the colour in turn. */
  function Repeated(n: nat, colour: byte): (ps: seq<nibble>)
    ensures |ps| == n
  {
    seq(n, x requires 0 <= x < n => if x % 2 == 0 then colour / 16 else colour % 16)
  }

  // ---------- What a row of packets means ----------

  datatype Row = EndOfLine(pixels: seq<nibble>, rest: bytes) | EndOfFile(pixels: seq<nibble>, rest: bytes) | Broken

  /** Octets of absolute mode, with those that fill up a word of 16 bits. */
  function Padded(k: nat): nat {
    HalfUp(HalfUp(k)) * 2
  }

  /** Decode packets up to the end of a row that has `sofar` already. */
  function Decode(input: bytes, width: nat, lastRow: bool, sofar: seq<nibble>): (r: Row)
    ensures !r.Broken? ==> |r.pixels| <= width || |r.pixels| == |sofar|
    decreases |input|
  {
    if |input| < 2 then Broken
    else
      var n, k, rest := input[0], input[1], input[2..];
      if n != 0 then
        if |sofar| + n > width then Broken
        else Decode(rest, width, lastRow, sofar + Repeated(n, k))
      else if k == 0 then
        if |sofar| == width then EndOfLine(sofar, rest) else Broken
      else if k == 1 then
        if lastRow then EndOfFile(sofar, rest) else Broken
      else if k == 2 then Broken
      else if |sofar| + k > width || |rest| < Padded(k) then Broken
      else Decode(rest[Padded(k)..], width, lastRow, sofar + Pixels(rest[..HalfUp(k)], k))
  }

  // ---------- Packets ----------

  datatype Packet = Repeat(count: nat, colour: byte) | Absolute(pixels: seq<nibble>)

  predicate IsPacket(p: Packet) {
    match p
    case Repeat(count, _) => 1 <= count <= 255
    case Absolute(pixels) => 3 <= |pixels| <= 255
  }

  function PacketPixels(p: Packet): seq<nibble> {
    match p
    case Repeat(count, colour) => Repeated(count, colour)
    case Absolute(pixels) => pixels
  }

  /** Two pixels an octet; the last one may be alone. */
  function Packed(ps: seq<nibble>): (bs: bytes)
    ensures |bs| == HalfUp(|ps|)
  {
    seq(HalfUp(|ps|), i requires 0 <= i < HalfUp(|ps|) =>
      ps[2 * i] as int * 16 + if 2 * i + 1 < |ps| then ps[2 * i + 1] else 0)
  }

  lemma PackedPixels(ps: seq<nibble>)
    ensures Pixels(Packed(ps), |ps|) == ps
  {
  }

  function EncodePacket(p: Packet): bytes
    requires IsPacket(p)
  {
    match p
    case Repeat(count, colour) => [count, colour]
    case Absolute(pixels) =>
      [0, |pixels|] + Packed(pixels) + seq(Padded(|pixels|) - HalfUp(|pixels|), _ => 0)
  }

  predicate ArePackets(packets: seq<Packet>) {
    forall i :: 0 <= i < |packets| ==> IsPacket(packets[i])
  }

  function Encode(packets: seq<Packet>): bytes
    requires ArePackets(packets)
  {
    if packets == [] then [] else EncodePacket(packets[0]) + Encode(packets[1..])
  }

  function AllPixels(packets: seq<Packet>): seq<nibble> {
    if packets == [] then [] else PacketPixels(packets[0]) + AllPixels(packets[1..])
  }

  lemma RepeatDecoded(n: byte, k: byte, rest: bytes, width: nat, lastRow: bool, sofar: seq<nibble>)
    requires n != 0 && |sofar| + n <= width
    ensures Decode([n, k] + rest, width, lastRow, sofar) == Decode(rest, width, lastRow, sofar + Repeated(n, k))
  {
    assert ([n, k] + rest)[2..] == rest;
  }

  lemma AbsoluteDecoded(
    k: byte, octets: bytes, padding: bytes, rest: bytes, width: nat, lastRow: bool, sofar: seq<nibble>)
    requires k >= 3 && |sofar| + k <= width && |octets| == HalfUp(k) && |octets| + |padding| == Padded(k)
    ensures Decode([0, k] + (octets + padding + rest), width, lastRow, sofar) ==
            Decode(rest, width, lastRow, sofar + Pixels(octets, k))
  {
    hide Pixels;
    var input := [0, k] + (octets + padding + rest);
    assert input[2..] == octets + padding + rest;
    assert (octets + padding + rest)[..HalfUp(k)] == octets;
    assert (octets + padding + rest)[Padded(k)..] == rest;
  }

  lemma PacketDecoded(p: Packet, rest: bytes, width: nat, lastRow: bool, sofar: seq<nibble>)
    requires IsPacket(p) && |sofar| + |PacketPixels(p)| <= width
    ensures Decode(EncodePacket(p) + rest, width, lastRow, sofar) == Decode(rest, width, lastRow, sofar + PacketPixels(p))
  {
    hide Decode, Packed, Repeated, Pixels;
    match p {
      case Repeat(count, colour) => RepeatDecoded(count, colour, rest, width, lastRow, sofar);
      case Absolute(pixels) =>
        var padding: bytes := seq(Padded(|pixels|) - HalfUp(|pixels|), _ => 0);
        PackedPixels(pixels);
        AbsoluteDecoded(|pixels|, Packed(pixels), padding, rest, width, lastRow, sofar);
        assert EncodePacket(p) + rest == [0, |pixels|] + (Packed(pixels) + padding + rest);
    }
  }

  lemma EndDecoded(rest: bytes, lastRow: bool, sofar: seq<nibble>)
    ensures Decode([0, 0] + rest, |sofar|, lastRow, sofar) == EndOfLine(sofar, rest)
  {
    assert ([0, 0] + rest)[2..] == rest;
  }

  /** Any packets that fill the row are decoded in order, whatever the parity of each start and length. */
  lemma {:induction false} PacketsDecoded(packets: seq<Packet>, rest: bytes, lastRow: bool, sofar: seq<nibble>, width: nat)
    requires ArePackets(packets) && width == |sofar| + |AllPixels(packets)|
    ensures Decode(Encode(packets) + ([0, 0] + rest), width, lastRow, sofar) == EndOfLine(sofar + AllPixels(packets), rest)
    decreases |packets|
  {
    hide Decode, EncodePacket, PacketPixels;
    var end := [0, 0] + rest;
    if packets == [] {
      EndDecoded(rest, lastRow, sofar);
      assert Encode(packets) + end == end && sofar + [] == sofar;
    } else {
      var more := Encode(packets[1..]) + end;
      assert Encode(packets) + end == EncodePacket(packets[0]) + more;
      PacketDecoded(packets[0], more, width, lastRow, sofar);
      PacketsDecoded(packets[1..], rest, lastRow, sofar + PacketPixels(packets[0]), width);
      assert sofar + AllPixels(packets) == (sofar + PacketPixels(packets[0])) + AllPixels(packets[1..]);
    }
  }

  // ---------- The decoder ----------

  class Stream {
    const contents: bytes
    var pos: nat

    ghost predicate Valid()
      reads this
    {
      pos <= |contents|
    }

    ghost function Rest(): bytes
      requires Valid()
      reads this
    {
      contents[pos..]
    }

    constructor (contents: bytes)
      ensures Valid() && Rest() == contents
    {
      this.contents, pos := contents, 0;
    }

    /** Read so many octets, or fail. */
    method Read(n: nat) returns (bs: Option<bytes>)
      requires Valid()
      modifies this
      ensures Valid()
      ensures if n <= old(|Rest()|) then bs == Some(old(Rest()[..n])) && Rest() == old(Rest()[n..]) else bs == None
    {
      if n > |contents| - pos {
        return None;
      }
      assert contents[pos..][..n] == contents[pos..pos + n] && contents[pos..][n..] == contents[pos + n..];
      bs := Some(contents[pos..pos + n]);
      pos := pos + n;
    }
  }

  class Decoder {
    const width: nat
    /** The row: its octets and two more. */
    const p: array<byte>
    /** Just behind the last octet that was written, and behind the last one that was looked at, since the row began. */
    ghost var written: nat
    ghost var looked: nat

    ghost predicate Valid() {
      p.Length >= HalfUp(width) + 2
    }

    constructor (width: nat)
      ensures Valid() && this.width == width && fresh(p)
    {
      this.width, written, looked := width, 0, 0;
      p := new byte[HalfUp(width) + 2](_ => 0);
    }

    /** Shift `n` octets that follow the one with pixel `i` back by half an octet, if that pixel is an odd one. */
    method ShiftBack(i: nat, n: nat)
      requires i / 2 + n + 1 < p.Length
      modifies p, this`written, this`looked
      ensures written == Max(old(written), if i % 2 == 1 then i / 2 + n + 1 else 0)
      ensures looked == Max(old(looked), if i % 2 == 1 then i / 2 + n + 2 else 0)
      ensures i % 2 == 0 ==> p[..] == old(p[..])
      ensures i % 2 == 1 ==> ShiftedBack(old(p[..]), p[..], i / 2, n)
    {
      var i0 := i / 2;
      if 2 * i0 == i {
        return;
      }
      ghost var was := p[..];
      p[i0] := Joined(p[i0] / 16, p[i0 + 1] / 16);
      written, looked := Max(written, i0 + 1), Max(looked, i0 + 2);
      for m := i0 + 1 to i0 + n + 1
        invariant forall x :: 0 <= x < i0 ==> p[x] == was[x]
        invariant p[i0] == Joined(was[i0] / 16, was[i0 + 1] / 16)
        invariant forall x :: i0 < x < m ==> p[x] == Joined(was[x] % 16, was[x + 1] / 16)
        invariant forall x :: m <= x < p.Length ==> p[x] == was[x]
        invariant written == Max(old(written), m) && looked == Max(old(looked), m + 1)
      {
        p[m] := Joined(p[m] % 16, p[m + 1] / 16);
        written, looked := Max(written, m + 1), Max(looked, m + 2);
      }
    }

    /** The first pixels of the row. */
    ghost predicate Holds(pixels: seq<nibble>)
      reads p
    {
      && Valid() && |pixels| <= width
      && Pixels(p[..], |pixels|) == pixels
    }

    /** Octets have been put where the packet starts, or just behind: they become its pixels. */
    method Settle(i: nat, n: nat, ghost sofar: seq<nibble>, ghost octets: bytes)
      requires i == |sofar| && i + n <= width && |octets| == HalfUp(n)
      requires Holds(sofar) && p[HalfUp(i)..HalfUp(i) + |octets|] == octets
      modifies p, this`written, this`looked
      ensures Holds(sofar + Pixels(octets, n))
      ensures written == Max(old(written), if i % 2 == 1 then HalfUp(i) + HalfUp(n) else 0)
      ensures looked == Max(old(looked), if i % 2 == 1 then HalfUp(i) + HalfUp(n) + 1 else 0)
    {
      ghost var was := p[..];
      ShiftBack(i, HalfUp(n));
      forall x | 0 <= x < i + n
        ensures Pixel(p[..], x) == (sofar + Pixels(octets, n))[x]
      {
        SettledPixel(was, p[..], i, n, sofar, octets, x);
      }
    }

    /** A packet of `n` pixels from pixel `i` on has been put in its place. */
    ghost predicate Reached(written0: nat, looked0: nat, i: nat, n: nat)
      reads this`written, this`looked
    {
      && written == Max(written0, HalfUp(i) + HalfUp(n))
      && looked == Max(looked0, HalfUp(i) + HalfUp(n) + i % 2)
    }

    /** How far behind the row was it written, and looked? */
    ghost predicate Within(over: bool)
      reads this`written, this`looked
    {
      if over then written == HalfUp(width) + 1 && looked == HalfUp(width) + 2
      else written <= HalfUp(width) && looked <= HalfUp(width) + 1
    }

    lemma StaysWithin(written0: nat, looked0: nat, i: nat, n: nat, over: bool)
      requires Reached(written0, looked0, i, n) && n > 0 && i + n <= width
      requires if over then written0 == HalfUp(width) + 1 && looked0 == HalfUp(width) + 2
               else written0 <= HalfUp(width) && looked0 <= HalfUp(width) + 1
      ensures Within(over || IsOddEnd(i, n, width))
    {
      HowFar(i, n, width);
    }

    /** Read pixels of absolute mode, and the octets that fill up the last word. */
    method ReadPixels(s: Stream, i: nat, n: nat, ghost sofar: seq<nibble>, ghost over: bool) returns (ok: bool)
      requires Within(over) && n > 0 && Holds(sofar) && s.Valid() && i == |sofar| && i + n <= width
      modifies p, s, this`written, this`looked
      ensures Within(over || (HalfUp(n) <= old(|s.Rest()|) && IsOddEnd(i, n, width)))
      ensures s.Valid() && (ok <==> Padded(n) <= old(|s.Rest()|))
      ensures ok ==> s.Rest() == old(s.Rest()[Padded(n)..])
      ensures ok ==> Holds(sofar + Pixels(old(s.Rest()[..HalfUp(n)]), n))
    {
      ghost var input := s.Rest();
      var octets := s.Read(HalfUp(n));
      if octets.None? {
        return false;
      }
      ghost var written0, looked0 := written, looked;
      PutOctets(HalfUp(i), octets.value, sofar);
      Settle(i, n, sofar, octets.value);
      StaysWithin(written0, looked0, i, n, over);
      var filling := Padded(n) - HalfUp(n);
      if filling > 0 {
        var ignored := s.Read(filling);
        if ignored.None? {
          return false;
        }
      }
      assert input[HalfUp(n)..][filling..] == input[Padded(n)..];
      ok := true;
    }

    method PutOctets(at: nat, octets: bytes, ghost sofar: seq<nibble>)
      requires Holds(sofar) && at == HalfUp(|sofar|) && at + |octets| <= p.Length
      modifies p, this`written, this`looked
      ensures Holds(sofar) && p[at..at + |octets|] == octets
      ensures written == Max(old(written), at + |octets|) && looked == Max(old(looked), at + |octets|)
    {
      ghost var was := p[..];
      forall k | 0 <= k < |octets| {
        p[at + k] := octets[k];
      }
      written, looked := Max(written, at + |octets|), Max(looked, at + |octets|);
      assert forall x :: 0 <= x < |sofar| ==> Pixel(p[..], x) == Pixel(was, x);
    }

    /** Fill with pixels of one colour, or of two in turn. */
    method FillPixels(i: nat, n: nat, v: byte, ghost sofar: seq<nibble>, ghost over: bool)
      requires Within(over) && n > 0 && Holds(sofar) && i == |sofar| && i + n <= width
      modifies p, this`written, this`looked
      ensures Holds(sofar + Repeated(n, v))
      ensures Within(over || IsOddEnd(i, n, width))
    {
      var octets: bytes := seq(HalfUp(n), _ => v);
      ghost var written0, looked0 := written, looked;
      PutOctets(HalfUp(i), octets, sofar);
      Settle(i, n, sofar, octets);
      StaysWithin(written0, looked0, i, n, over);
      assert Pixels(octets, n) == Repeated(n, v);
    }

    lemma HeldPixels(pixels: seq<nibble>)
      requires Holds(pixels)
      ensures |pixels| <= width <= 2 * p.Length && Pixels(p[..], |pixels|) == pixels
    {
    }

    ghost method BeginRow()
      requires Valid()
      modifies this`written, this`looked
      ensures Holds([]) && Within(false)
    {
      written, looked := 0, 0;
    }

    /** Read the packets of a row. */
    method ReadRow(s: Stream, lastRow: bool) returns (r: Row)
      requires Valid() && s.Valid()
      modifies p, s, this`written, this`looked
      ensures Within(Overruns(old(s.Rest()), width, 0))
      ensures r == Decode(old(s.Rest()), width, lastRow, [])
      ensures r.EndOfLine? ==> Pixels(p[..], width) == r.pixels
      ensures r.EndOfFile? ==> |r.pixels| <= width && Pixels(p[..], |r.pixels|) == r.pixels
    {
      hide Pixels, Repeated, Overruns, IsOddEnd, Within, Holds, Decode;
      var i := 0;
      BeginRow();
      ghost var over := false;
      ghost var sofar: seq<nibble>, input := [], s.Rest();
      while true
        invariant s.Valid() && Holds(sofar) && i == |sofar|
        invariant Decode(s.Rest(), width, lastRow, sofar) == Decode(input, width, lastRow, [])
        invariant Overruns(input, width, 0) <==> over || Overruns(s.Rest(), width, i)
        invariant Within(over)
        decreases |s.Rest()|
      {
        ghost var rest := s.Rest();
        OverrunsStep(rest, width, i);
        DecodeStep(rest, width, lastRow, sofar);
        HeldPixels(sofar);
        var head := s.Read(2);
        if head.None? {
          return Broken;
        }
        var n, k := head.value[0], head.value[1];
        assert head.value == [rest[0], rest[1]];
        if n == 0 {
          if k == 0 {
            return if i == width then EndOfLine(Pixels(p[..], i), s.contents[s.pos..]) else Broken;
          } else if k == 1 {
            return if lastRow then EndOfFile(Pixels(p[..], i), s.contents[s.pos..]) else Broken;
          } else if k == 2 {
            return Broken;
          }
          if i + k > width {
            return Broken;
          }
          var ok := ReadPixels(s, i, k, sofar, over);
          over := over || (HalfUp(k) <= |rest[2..]| && IsOddEnd(i, k, width));
          if !ok {
            return Broken;
          }
          sofar := sofar + Pixels(rest[2..][..HalfUp(k)], k);
          i := i + k;
        } else {
          if i + n > width {
            return Broken;
          }
          FillPixels(i, n, k, sofar, over);
          over := over || IsOddEnd(i, n, width);
          sofar := sofar + Repeated(n, k);
          i := i + n;
        }
      }
    }
  }

  function Max(a: nat, b: nat): nat {
    if a < b then b else a
  }

  /** The packet starts at an odd pixel and fills the row with an odd number of them. */
  predicate IsOddEnd(i: nat, n: nat, width: nat) {
    i % 2 == 1 && n % 2 == 1 && i + n == width
  }

  /** Only such a packet is written past the row, by one octet; then the octet after that is looked at. */
  lemma HowFar(i: nat, n: nat, width: nat)
    requires n > 0 && i + n <= width
    ensures var end := HalfUp(i) + HalfUp(n);
            if IsOddEnd(i, n, width) then end == HalfUp(width) + 1 && i % 2 == 1 else end <= HalfUp(width)
  {
    if i % 2 == 1 {
      assert i / 2 + HalfUp(n) == if n % 2 == 1 then (i + n) / 2 else (i + n - 1) / 2;
    }
  }

  /** Is there such a packet in the row that is read from the pixel `at` on? */
  predicate Overruns(input: bytes, width: nat, at: nat)
    decreases |input|
  {
    |input| >= 2 &&
    var n, k, rest := input[0], input[1], input[2..];
    if n != 0 then at + n <= width && (IsOddEnd(at, n, width) || Overruns(rest, width, at + n))
    else
      && k >= 3 && at + k <= width && HalfUp(k) <= |rest|
      && (IsOddEnd(at, k, width) || (Padded(k) <= |rest| && Overruns(rest[Padded(k)..], width, at + k)))
  }

  lemma DecodeStep(input: bytes, width: nat, lastRow: bool, sofar: seq<nibble>)
    ensures var r := Decode(input, width, lastRow, sofar);
            if |input| < 2 then r.Broken?
            else
              var n, k, rest := input[0], input[1], input[2..];
              && (n != 0 ==> r == if |sofar| + n > width then Broken else Decode(rest, width, lastRow, sofar + Repeated(n, k)))
              && (n == 0 && k == 0 ==> r == if |sofar| == width then EndOfLine(sofar, rest) else Broken)
              && (n == 0 && k == 1 ==> r == if lastRow then EndOfFile(sofar, rest) else Broken)
              && (n == 0 && k == 2 ==> r.Broken?)
              && (n == 0 && k >= 3 ==>
                    r == if |sofar| + k > width || |rest| < Padded(k) then Broken
                         else Decode(rest[Padded(k)..], width, lastRow, sofar + Pixels(rest[..HalfUp(k)], k)))
  {
  }

  lemma OverrunsStep(input: bytes, width: nat, at: nat)
    ensures |input| < 2 ==> !Overruns(input, width, at)
    ensures |input| >= 2 ==>
              var n, k, rest := input[0], input[1], input[2..];
              && (n != 0 ==> (Overruns(input, width, at) <==>
                     at + n <= width && (IsOddEnd(at, n, width) || Overruns(rest, width, at + n))))
              && (n == 0 && k < 3 ==> !Overruns(input, width, at))
              && (n == 0 && k >= 3 && at + k <= width ==> (Overruns(input, width, at) <==>
                     HalfUp(k) <= |rest| &&
                     (IsOddEnd(at, k, width) || (Padded(k) <= |rest| && Overruns(rest[Padded(k)..], width, at + k)))))
              && (n == 0 && at + k > width ==> !Overruns(input, width, at))
  {
  }

  /** One pixel and then three fill a row of four, and go beyond it. */
  lemma OverrunExample(colour: byte)
    ensures Overruns([1, colour, 3, colour, 0, 0], 4, 0)
    ensures Decode([1, colour, 3, colour, 0, 0], 4, false, []).EndOfLine?
  {
    var one, three := Repeat(1, colour), Repeat(3, colour);
    assert [one, three][1..] == [three] && [three][1..] == [];
    assert |AllPixels([three])| == 3 && |AllPixels([one, three])| == 4;
    PacketsDecoded([one, three], [], false, [], 4);
    assert Encode([three]) == [3, colour];
    assert Encode([one, three]) + ([0, 0] + []) == [1, colour, 3, colour, 0, 0];
    assert [1, colour, 3, colour, 0, 0][2..] == [3, colour, 0, 0];
  }

  /** A pixel of the row after a packet was put in its place. */
  lemma SettledPixel(was: bytes, now: bytes, i: nat, n: nat, sofar: seq<nibble>, octets: bytes, x: nat)
    requires i == |sofar| && i + n <= 2 * |was| && |octets| == HalfUp(n) && x < i + n && HalfUp(i) + |octets| < |was|
    requires Pixels(was, i) == sofar && was[HalfUp(i)..HalfUp(i) + |octets|] == octets
    requires if i % 2 == 0 then now == was else ShiftedBack(was, now, i / 2, HalfUp(n))
    ensures Pixel(now, x) == (sofar + Pixels(octets, n))[x]
  {
    if x < i {
      assert Pixel(was, x) == sofar[x];
      if i % 2 == 1 {
        ShiftedPixel(was, now, i / 2, HalfUp(n), x);
      }
    } else {
      var y := x - i;
      assert Pixel(octets, y) == Pixels(octets, n)[y];
      assert octets[y / 2] == was[HalfUp(i) + y / 2];
      if i % 2 == 1 {
        ShiftedPixel(was, now, i / 2, HalfUp(n), x);
      }
    }
  }

  /** bor(shl(upper, 4), lower), cut to eight bits. */
  function Joined(upper: nibble, lower: nibble): (b: byte)
    ensures b / 16 == upper && b % 16 == lower
  {
    upper * 16 + lower
  }

  predicate ShiftedBack(was: bytes, now: bytes, i0: nat, n: nat) {
    && |now| == |was| && i0 + n + 1 < |was|
    && (forall x :: 0 <= x < i0 ==> now[x] == was[x])
    && now[i0] == Joined(was[i0] / 16, was[i0 + 1] / 16)
    && (forall x :: i0 < x < i0 + n + 1 ==> now[x] == Joined(was[x] % 16, was[x + 1] / 16))
  }

  /** Every pixel from an odd one on has got the value of the one behind it; those before are as they were. */
  lemma ShiftedPixel(was: bytes, now: bytes, i0: nat, n: nat, x: nat)
    requires ShiftedBack(was, now, i0, n)
    ensures x < 2 * i0 + 1 ==> Pixel(now, x) == Pixel(was, x)
    ensures 2 * i0 + 1 <= x < 2 * i0 + 1 + 2 * n ==> Pixel(now, x) == Pixel(was, x + 1)
  {
    if i0 < x / 2 < i0 + n + 1 {
      assert now[x / 2] == Joined(was[x / 2] % 16, was[x / 2 + 1] / 16);
    }
    if x % 2 == 0 {
      assert (x + 1) / 2 == x / 2 && (x + 1) % 2 == 1;
    } else {
      assert (x + 1) / 2 == x / 2 + 1 && (x + 1) % 2 == 0;
    }
  }
}

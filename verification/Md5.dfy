/**
 MD5 of RFC 1321 around its block function: buffering, counting in a word of 29 bits and
 one of 32, and padding. The block function is given.
 */
module Md5 {
  import opened Bytes
  import opened Words

  datatype Registers = Registers(a: nat, b: nat, c: nat, d: nat)

  /** What one block of 64 octets does to the registers: section 3.4. */
  type BlockFunction = (Registers, bytes) -> Registers

  const BLOCK: nat := 64
  const INITIAL := Registers(0x67452301, 0xefcdab89, 0x98badcfe, 0x10325476)
  const TWO29: nat := 0x2000_0000
  const TWO32: nat := 0x1_0000_0000
  const TWO64: nat := 0x1_0000_0000_0000_0000

  // ---------- RFC 1321 ----------

  /** The whole blocks of `bs`, one after the other. */
  function Process(f: BlockFunction, r: Registers, bs: bytes): Registers {
    if |bs| < BLOCK then r else f(Process(f, r, bs[..|bs| - BLOCK]), bs[|bs| - BLOCK..])
  }

  /** Sections 3.1 and 3.2: a one bit, zeros up to 56 modulo 64, the low-order 64 bits of the length in bits. */
  function Padding(length: nat): bytes {
    [0x80] + Zeros((119 - length % BLOCK) % BLOCK) + ToLE(8 * length % TWO64, 8)
  }

  lemma PaddingFills(length: nat)
    ensures (length + |Padding(length)|) % BLOCK == 0
  {
    hide ToLE;
  }

  /** Section 3.5. */
  function Output(r: Registers): bytes {
    ToLE(r.a, 4) + ToLE(r.b, 4) + ToLE(r.c, 4) + ToLE(r.d, 4)
  }

  function Hash(f: BlockFunction, message: bytes): bytes {
    Output(Process(f, INITIAL, message + Padding(|message|)))
  }

  // ---------- Taking in a message ----------

  function Used(message: bytes): nat {
    |message| % BLOCK
  }

  /** `message` has been taken in: its whole blocks are processed and the rest is at the start of the buffer. */
  predicate TakenIn(f: BlockFunction, message: bytes, r: Registers, buffer: bytes) {
    && |buffer| == BLOCK
    && (var whole := |message| - Used(message);
        && r == Process(f, INITIAL, message[..whole])
        && buffer[..Used(message)] == message[whole..])
  }

  lemma ProcessBlock(f: BlockFunction, r: Registers, bs: bytes, block: bytes)
    requires |block| == BLOCK
    ensures Process(f, r, bs + block) == f(Process(f, r, bs), block)
  {
    assert (bs + block)[..|bs|] == bs && (bs + block)[|bs|..] == block;
  }

  lemma UsedGrows(message: bytes, more: bytes)
    ensures Used(message) + |more| < BLOCK ==> Used(message + more) == Used(message) + |more|
    ensures Used(message) + |more| == BLOCK ==> Used(message + more) == 0
  {
  }

  /** Not enough for a block: the octets just join those waiting. */
  lemma Joins(f: BlockFunction, message: bytes, r: Registers, buffer: bytes, more: bytes, buffer': bytes)
    requires TakenIn(f, message, r, buffer) && Used(message) + |more| < BLOCK == |buffer'|
    requires buffer'[..Used(message) + |more|] == buffer[..Used(message)] + more
    ensures TakenIn(f, message + more, r, buffer')
  {
    hide Process, Used;
    UsedIs(message);
    UsedGrows(message, more);
    var whole := |message| - Used(message);
    assert (message + more)[..whole] == message[..whole];
    assert (message + more)[whole..] == message[whole..] + more;
  }

  lemma UsedIs(message: bytes)
    ensures Used(message) <= |message| && Used(message) < BLOCK && Used(message) == |message| % BLOCK
  {
  }

  /** Exactly enough for a block: together with those waiting they are processed. */
  lemma Completes(f: BlockFunction, message: bytes, r: Registers, buffer: bytes, more: bytes, block: bytes, buffer': bytes)
    requires TakenIn(f, message, r, buffer) && Used(message) + |more| == BLOCK == |buffer'|
    requires block == buffer[..Used(message)] + more
    ensures TakenIn(f, message + more, f(r, block), buffer') && Used(message + more) == 0
  {
    hide Process, Used;
    UsedIs(message);
    UsedGrows(message, more);
    var whole := |message| - Used(message);
    assert message + more == message[..whole] + block;
    assert (message + more)[..|message + more|] == message + more;
    ProcessBlock(f, INITIAL, message[..whole], block);
  }

  lemma NothingTaken(f: BlockFunction, buffer: bytes)
    requires |buffer| == BLOCK
    ensures TakenIn(f, [], INITIAL, buffer)
  {
  }

  /** The last block is made of what waits and the padding, or the last two are. */
  lemma PaddingIs(length: nat)
    ensures var used, end := length % BLOCK, ToLE(8 * length % TWO64, 8);
            if used + 1 <= 56 then Padding(length) == [0x80] + Zeros(56 - (used + 1)) + end
            else Padding(length) == [0x80] + Zeros(BLOCK - (used + 1)) + (Zeros(56) + end)
  {
    hide ToLE;
    var used := length % BLOCK;
    if used + 1 > 56 {
      assert Zeros(119 - used) == Zeros(BLOCK - (used + 1)) + Zeros(56);
    }
  }

  lemma Regroup(a: bytes, b: bytes, c: bytes, d: bytes)
    ensures (a + b) + (c + d) == a + (b + c) + d
  {
  }

  lemma ProcessOne(f: BlockFunction, r: Registers, whole: bytes, waiting: bytes, p: bytes)
    requires |waiting + p| == BLOCK
    ensures Process(f, r, (whole + waiting) + p) == f(Process(f, r, whole), waiting + p)
  {
    hide Process;
    Concat(whole, waiting, p);
    ProcessBlock(f, r, whole, waiting + p);
  }

  /** Two more blocks, cut differently. */
  lemma ProcessTwo(f: BlockFunction, r: Registers, whole: bytes, waiting: bytes, p: bytes, second: bytes)
    requires |waiting + p| == |second| == BLOCK
    ensures Process(f, r, (whole + waiting) + (p + second)) == f(f(Process(f, r, whole), waiting + p), second)
  {
    hide Process;
    Regroup(whole, waiting, p, second);
    ProcessBlock(f, r, whole, waiting + p);
    ProcessBlock(f, r, whole + (waiting + p), second);
  }

  lemma EndsInOne(f: BlockFunction, message: bytes, block: bytes)
    requires Used(message) + 1 <= 56 && |block| == BLOCK
    requires block == message[|message| - Used(message)..] +
                      ([0x80] + Zeros(56 - (Used(message) + 1)) + ToLE(8 * |message| % TWO64, 8))
    ensures Process(f, INITIAL, message + Padding(|message|)) ==
            f(Process(f, INITIAL, message[..|message| - Used(message)]), block)
  {
    hide Process, Padding, ToLE, Zeros, Used;
    UsedIs(message);
    PaddingIs(|message|);
    var whole, waiting := message[..|message| - Used(message)], message[|message| - Used(message)..];
    assert message == whole + waiting;
    ProcessOne(f, INITIAL, whole, waiting, Padding(|message|));
  }

  lemma EndsInTwo(f: BlockFunction, message: bytes, first: bytes, second: bytes)
    requires Used(message) + 1 > 56 && |first| == |second| == BLOCK
    requires first == message[|message| - Used(message)..] + ([0x80] + Zeros(BLOCK - (Used(message) + 1)))
    requires second == Zeros(56) + ToLE(8 * |message| % TWO64, 8)
    ensures Process(f, INITIAL, message + Padding(|message|)) ==
            f(f(Process(f, INITIAL, message[..|message| - Used(message)]), first), second)
  {
    hide Process, Padding, ToLE, Zeros, Used;
    UsedIs(message);
    PaddingIs(|message|);
    var whole, waiting := message[..|message| - Used(message)], message[|message| - Used(message)..];
    assert message == whole + waiting;
    ProcessTwo(f, INITIAL, whole, waiting, [0x80] + Zeros(BLOCK - (Used(message) + 1)), second);
  }

  // ---------- Counting ----------

  /** The two counters hold the low-order 61 bits of the length in octets. */
  predicate Counts(lo: nat, hi: nat, length: nat) {
    lo < TWO29 && hi < TWO32 && lo + TWO29 * hi == length % (TWO29 * TWO32)
  }

  /** The counters of MD5_Update: octets beyond 29 bits go to `hi`, and so does the carry. */
  function CountLo(lo: nat, size: nat): nat {
    (lo + size) % TWO29
  }

  function CountHi(lo: nat, hi: nat, size: nat): nat {
    (hi + (if CountLo(lo, size) < lo then 1 else 0) + size / TWO29) % TWO32
  }

  lemma Carried(lo: nat, size: nat)
    requires lo < TWO29
    ensures lo + size == CountLo(lo, size) + TWO29 * ((if CountLo(lo, size) < lo then 1 else 0) + size / TWO29)
    ensures CountLo(lo, size) < TWO29
  {
    var q, r := size / TWO29, size % TWO29;
    assert lo + size == lo + r + TWO29 * q;
    assert CountLo(lo, size) == if lo + r < TWO29 then lo + r else lo + r - TWO29;
  }

  lemma CountsMore(lo: nat, hi: nat, length: nat, size: nat)
    requires Counts(lo, hi, length)
    ensures Counts(CountLo(lo, size), CountHi(lo, hi, size), length + size)
  {
    var carry := if CountLo(lo, size) < lo then 1 else 0;
    Carried(lo, size);
    hide CountLo;
    var high := hi + carry + size / TWO29;
    assert high == CountHi(lo, hi, size) + TWO32 * (high / TWO32);
    var q := length / (TWO29 * TWO32);
    assert length + size == CountLo(lo, size) + TWO29 * CountHi(lo, hi, size) + TWO29 * TWO32 * (high / TWO32 + q);
  }

  /** Together they give the low-order 64 bits of the length in bits. */
  lemma CountedBits(lo: nat, hi: nat, length: nat)
    requires Counts(lo, hi, length)
    ensures 8 * lo + TWO32 * hi == 8 * length % TWO64
    ensures 8 * lo < TWO32
  {
    var q := length / (TWO29 * TWO32);
    assert 8 * length == 8 * lo + TWO32 * hi + TWO64 * q;
  }

  lemma {:induction false} LittleEndianParts(lo: nat, hi: nat, n: nat, m: nat)
    requires lo < Pow256(n)
    ensures ToLE(lo + Pow256(n) * hi, n + m) == ToLE(lo, n) + ToLE(hi, m)
  {
    if n > 0 {
      var x := lo + Pow256(n) * hi;
      assert Pow256(n) * hi == 256 * (Pow256(n - 1) * hi);
      assert x / 256 == lo / 256 + Pow256(n - 1) * hi && x % 256 == lo % 256;
      LittleEndianParts(lo / 256, hi, n - 1, m);
    }
  }

  // ---------- The hash object ----------

  class Context {
    const compress: BlockFunction
    var registers: Registers
    var lo: nat
    var hi: nat
    const buffer: array<byte>

    /** The message so far has been taken in and counted. */
    ghost predicate Holds(message: bytes)
      reads this, buffer
    {
      && buffer.Length == BLOCK
      && TakenIn(compress, message, registers, buffer[..])
      && Counts(lo, hi, |message|)
    }

    /** MD5_Init. */
    constructor (compress: BlockFunction)
      ensures this.compress == compress && Holds([]) && fresh(buffer)
    {
      hide Process;
      this.compress := compress;
      registers, lo, hi := INITIAL, 0, 0;
      buffer := new byte[64](_ => 0);
      new;
      NothingTaken(compress, buffer[..]);
    }

    /** memcpy into the buffer. */
    method CopyIn(at: nat, data: array<byte>, from: nat, n: nat)
      requires at + n <= buffer.Length && from + n <= data.Length && data != buffer
      modifies buffer
      ensures buffer[..at + n] == old(buffer[..at]) + data[from..from + n]
    {
      forall i | 0 <= i < n {
        buffer[at + i] := data[from + i];
      }
    }

    /** body: one or more blocks of the data itself, which nothing is waiting for. */
    method Body(data: array<byte>, from: nat, size: nat, ghost message: bytes) returns (next: nat)
      requires buffer.Length == BLOCK && TakenIn(compress, message, registers, buffer[..]) && Used(message) == 0
      requires 0 < size && size % BLOCK == 0 && from + size <= data.Length
      modifies this`registers
      ensures next == from + size
      ensures TakenIn(compress, message + data[from..next], registers, buffer[..]) && Used(message + data[from..next]) == 0
    {
      hide TakenIn, Used;
      next := from;
      assert message + data[from..next] == message;
      var rest := size;
      while rest > 0
        invariant 0 <= rest && rest % BLOCK == 0 && next == from + size - rest
        invariant TakenIn(compress, message + data[from..next], registers, buffer[..])
        invariant Used(message + data[from..next]) == 0
      {
        OneBlock(compress, message, data[..], from, next, registers, buffer[..]);
        registers := compress(registers, data[next..next + BLOCK]);
        next, rest := next + BLOCK, rest - BLOCK;
      }
    }

    /** One more block of the data. */
    lemma OneBlock(f: BlockFunction, message: bytes, data: bytes, from: nat, next: nat, r: Registers, buffer: bytes)
      requires from <= next && next + BLOCK <= |data| && |buffer| == BLOCK
      requires TakenIn(f, message + data[from..next], r, buffer) && Used(message + data[from..next]) == 0
      ensures TakenIn(f, message + data[from..next + BLOCK], f(r, data[next..next + BLOCK]), buffer)
      ensures Used(message + data[from..next + BLOCK]) == 0
    {
      hide TakenIn, Used;
      var block := data[next..next + BLOCK];
      assert buffer[..0] + block == block;
      Completes(f, message + data[from..next], r, buffer, block, block, buffer);
      assert message + data[from..next] + block == message + data[from..next + BLOCK];
    }

    /** MD5_Update. */
    method Update(data: array<byte>, size: nat, ghost message: bytes)
      requires Holds(message) && size <= data.Length && data != buffer
      modifies this`registers, this`lo, this`hi, buffer
      ensures Holds(message + data[..size])
    {
      hide TakenIn, CountLo, CountHi, Counts;
      CountsMore(lo, hi, |message|, size);
      CountedUsed(lo, hi, message);
      var savedLo := lo;
      lo := CountLo(savedLo, size);
      if lo < savedLo {
        hi := (hi + 1) % TWO32;
      }
      hi := (hi + size / TWO29) % TWO32;
      CountedHi(savedLo, old(hi), size);
      TakeIn(data, size, savedLo % BLOCK, message);
    }

    lemma CountedUsed(lo: nat, hi: nat, message: bytes)
      requires Counts(lo, hi, |message|)
      ensures lo % BLOCK == Used(message)
    {
      var q := |message| / (TWO29 * TWO32);
      var k := TWO29 / BLOCK * hi + TWO29 / BLOCK * TWO32 * q;
      assert |message| == lo + BLOCK * k;
      SameUsed(lo, k);
    }

    lemma SameUsed(lo: nat, k: nat)
      ensures (lo + BLOCK * k) % BLOCK == lo % BLOCK
    {
    }

    lemma CountedHi(lo: nat, hi: nat, size: nat)
      ensures var carried := if CountLo(lo, size) < lo then (hi + 1) % TWO32 else hi;
              (carried + size / TWO29) % TWO32 == CountHi(lo, hi, size)
    {
    }

    /** The rest of MD5_Update, once the octets have been counted. */
    method TakeIn(data: array<byte>, size: nat, used: nat, ghost message: bytes)
      requires buffer.Length == BLOCK && TakenIn(compress, message, registers, buffer[..])
      requires used == Used(message) && size <= data.Length && data != buffer
      modifies this`registers, buffer
      ensures TakenIn(compress, message + data[..size], registers, buffer[..])
    {
      hide TakenIn;
      assert message + data[..0] == message;
      var from := 0;
      if used > 0 {
        var free := BLOCK - used;
        if size < free {
          Append(data, 0, size, used, message);
          return;
        }
        FillBlock(data, free, used, message);
        from := free;
      }
      var rest := size - from;
      if rest >= BLOCK {
        ghost var so := message + data[..from];
        from := Body(data, from, rest - rest % BLOCK, so);
        assert so + data[size - rest..from] == message + data[..from];
        rest := rest % BLOCK;
      }
      Append(data, from, rest, 0, message + data[..from]);
      assert message + data[..from] + data[from..size] == message + data[..size];
    }

    /** Put octets behind those waiting. */
    method Append(data: array<byte>, from: nat, n: nat, used: nat, ghost message: bytes)
      requires buffer.Length == BLOCK && TakenIn(compress, message, registers, buffer[..])
      requires used == Used(message) && used + n < BLOCK && from + n <= data.Length && data != buffer
      modifies buffer
      ensures TakenIn(compress, message + data[from..from + n], registers, buffer[..])
    {
      hide TakenIn;
      ghost var before := buffer[..];
      CopyIn(used, data, from, n);
      Joins(compress, message, registers, before, data[from..from + n], buffer[..]);
    }

    /** The data fill what was left of the buffer, which is a whole block then. */
    method FillBlock(data: array<byte>, n: nat, used: nat, ghost message: bytes)
      requires buffer.Length == BLOCK && TakenIn(compress, message, registers, buffer[..])
      requires used == Used(message) && used + n == BLOCK && n <= data.Length && data != buffer
      modifies this`registers, buffer
      ensures TakenIn(compress, message + data[..n], registers, buffer[..]) && Used(message + data[..n]) == 0
    {
      hide TakenIn;
      ghost var before := buffer[..];
      CopyIn(used, data, 0, n);
      assert buffer[..] == before[..used] + data[..n];
      Completes(compress, message, registers, before, data[..n], buffer[..], buffer[..]);
      registers := compress(registers, buffer[..]);
    }

    /** memset with zeros. */
    method Clear(at: nat, n: nat)
      requires at + n <= buffer.Length
      modifies buffer
      ensures buffer[..at + n] == old(buffer[..at]) + Zeros(n)
      ensures buffer[at + n..] == old(buffer[at + n..])
    {
      forall i | 0 <= i < n {
        buffer[at + i] := 0;
      }
    }

    /** The octets of a word of 32 bits. */
    method StoreWord(at: nat, x: nat)
      requires at + 4 <= buffer.Length
      modifies buffer
      ensures buffer[..at + 4] == old(buffer[..at]) + ToLE(x, 4)
    {
      FourOctets(x);
      buffer[at] := x % 256;
      buffer[at + 1] := x / 0x100 % 256;
      buffer[at + 2] := x / 0x1_0000 % 256;
      buffer[at + 3] := x / 0x100_0000 % 256;
    }

    /** The last block but for the length is set up: store the length and process it. */
    method Finish(ghost length: nat)
      requires buffer.Length == BLOCK && Counts(lo, hi, length)
      modifies this`registers, this`lo, buffer
      ensures buffer[..] == old(buffer[..56]) + ToLE(8 * length % TWO64, 8)
      ensures registers == compress(old(registers), buffer[..])
    {
      hide ToLE;
      CountedBits(lo, hi, length);
      FourOctetsAre();
      LittleEndianParts(8 * lo, hi, 4, 4);
      lo := lo * 8 % TWO32;
      StoreWord(56, lo);
      StoreWord(60, hi);
      assert buffer[..64] == buffer[..];
      registers := compress(registers, buffer[..]);
    }

    /** MD5_Final. */
    method Final(ghost message: bytes) returns (result: bytes)
      requires Holds(message)
      modifies this`registers, this`lo, buffer
      ensures result == Hash(compress, message)
    {
      hide Process, Padding, ToLE, Counts;
      CountedUsed(lo, hi, message);
      var used := lo % BLOCK;
      ghost var waiting := message[|message| - used..];
      buffer[used] := 0x80;
      used := used + 1;
      assert buffer[..used] == waiting + [0x80];
      var free := BLOCK - used;
      if free < 8 {
        Clear(used, free);
        ghost var first := buffer[..];
        assert first == waiting + ([0x80] + Zeros(free));
        registers := compress(registers, buffer[..]);
        used, free := 0, BLOCK;
        Clear(used, free - 8);
        Finish(|message|);
        EndsInTwo(compress, message, first, buffer[..]);
      } else {
        Clear(used, free - 8);
        assert buffer[..56] == waiting + ([0x80] + Zeros(free - 8));
        Finish(|message|);
        EndsInOne(compress, message, buffer[..]);
      }
      result := Output(registers);
    }
  }

  lemma FourOctetsAre()
    ensures Pow256(4) == TWO32
  {
    assert Pow256(2) == 0x1_0000;
  }

  lemma FourOctets(x: nat)
    ensures ToLE(x, 4) == [x % 256, x / 0x100 % 256, x / 0x1_0000 % 256, x / 0x100_0000 % 256]
  {
    assert ToLE(x / 0x1_0000, 2) == [x / 0x1_0000 % 256, x / 0x1_0000 / 256 % 256];
    assert ToLE(x / 0x100, 3) == [x / 0x100 % 256] + ToLE(x / 0x100 / 256, 2);
    assert x / 0x100 / 256 == x / 0x1_0000 && x / 0x1_0000 / 256 == x / 0x100_0000;
  }

  /** The contents of arrays, one after the other. */
  ghost function Joined(pieces: seq<array<byte>>): bytes
    reads pieces
  {
    if pieces == [] then [] else Joined(pieces[..|pieces| - 1]) + pieces[|pieces| - 1][..]
  }

  /** However a message, of any length, is split over updates, its hash comes out. */
  method HashInPieces(compress: BlockFunction, pieces: seq<array<byte>>) returns (result: bytes)
    ensures result == Hash(compress, Joined(pieces))
  {
    hide Hash, Context.Holds;
    var c := new Context(compress);
    assert pieces[..0] == [];
    for i := 0 to |pieces|
      invariant fresh(c) && fresh(c.buffer) && c.compress == compress
      invariant c.Holds(Joined(pieces[..i]))
    {
      assert pieces[..i + 1][..i] == pieces[..i];
      c.Update(pieces[i], pieces[i].Length, Joined(pieces[..i]));
      assert pieces[i][..pieces[i].Length] == pieces[i][..];
    }
    assert pieces[..|pieces|] == pieces;
    result := c.Final(Joined(pieces));
  }
}

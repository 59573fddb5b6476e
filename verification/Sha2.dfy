/**
 SHA-256 and SHA-512: the functions of FIPS 180-4, and the code that computes them with
 sixteen words of scratch space, which may be the pending input itself.
 The two differ in word width, number of rounds and logical functions only; these are given.
 */
module Sha2 {
  import opened Bytes
  import opened Words
  import opened Division

  /** What distinguishes the two: width of a word in octets, round constants, logical functions. */
  datatype Variant = Variant(
    width: nat, rounds: nat, k: seq<nat>, initial: seq<nat>,
    bigSigma0: nat -> nat, bigSigma1: nat -> nat, sigma0: nat -> nat, sigma1: nat -> nat,
    ch: (nat, nat, nat) -> nat, maj: (nat, nat, nat) -> nat)
  {
    predicate Valid() {
      && ((width == 4 && rounds == 64) || (width == 8 && rounds == 80))
      && |k| == rounds && |initial| == 8
      && forall i :: 0 <= i < 8 ==> initial[i] < Modulus()
    }

    /** Unsigned words wrap around here. */
    function Modulus(): (m: nat)
      ensures m > 0
    {
      Pow256(width)
    }

    /** Octets in a block, and in one without room for the length. */
    function BlockLength(): nat {
      16 * width
    }

    function ShortBlockLength(): nat {
      14 * width
    }
  }

  // ---------- FIPS 180-4 ----------

  datatype Registers = Registers(a: nat, b: nat, c: nat, d: nat, e: nat, f: nat, g: nat, h: nat)

  function T1(v: Variant, r: Registers, k: nat, w: nat): nat {
    (r.h + v.bigSigma1(r.e) + v.ch(r.e, r.f, r.g) + k + w) % v.Modulus()
  }

  function T2(v: Variant, r: Registers): nat {
    (v.bigSigma0(r.a) + v.maj(r.a, r.b, r.c)) % v.Modulus()
  }

  /** Sections 6.2.2 and 6.4.2, step 3. */
  function Round(v: Variant, r: Registers, k: nat, w: nat): Registers {
    var t1 := T1(v, r, k, w);
    Registers((t1 + T2(v, r)) % v.Modulus(), r.a, r.b, r.c, (r.d + t1) % v.Modulus(), r.e, r.f, r.g)
  }

  /** The word that follows sixteen others in the message schedule: step 1. */
  function NextWord(v: Variant, w2: nat, w7: nat, w15: nat, w16: nat): nat {
    (v.sigma1(w2) + w7 + v.sigma0(w15) + w16) % v.Modulus()
  }

  function Schedule(v: Variant, block: seq<nat>, n: nat): (ws: seq<nat>)
    requires |block| == 16 <= n
    ensures |ws| == n
  {
    if n == 16 then block
    else
      var ws := Schedule(v, block, n - 1);
      ws + [NextWord(v, ws[n - 3], ws[n - 8], ws[n - 16], ws[n - 17])]
  }

  function Rounds(v: Variant, r: Registers, ws: seq<nat>, n: nat): Registers
    requires n <= |ws| && n <= |v.k|
  {
    if n == 0 then r else Round(v, Rounds(v, r, ws, n - 1), v.k[n - 1], ws[n - 1])
  }

  function RegistersOf(state: seq<nat>): Registers
    requires |state| == 8
  {
    Registers(state[0], state[1], state[2], state[3], state[4], state[5], state[6], state[7])
  }

  /** Step 4. */
  function Sum(v: Variant, state: seq<nat>, r: Registers): (s: seq<nat>)
    requires |state| == 8
    ensures |s| == 8 && forall i :: 0 <= i < 8 ==> s[i] < v.Modulus()
  {
    var m := v.Modulus();
    [(state[0] + r.a) % m, (state[1] + r.b) % m, (state[2] + r.c) % m, (state[3] + r.d) % m,
     (state[4] + r.e) % m, (state[5] + r.f) % m, (state[6] + r.g) % m, (state[7] + r.h) % m]
  }

  function Compress(v: Variant, state: seq<nat>, block: seq<nat>): (s: seq<nat>)
    requires v.Valid() && |state| == 8 && |block| == 16
    ensures |s| == 8 && forall i :: 0 <= i < 8 ==> s[i] < v.Modulus()
  {
    Sum(v, state, Rounds(v, RegistersOf(state), Schedule(v, block, v.rounds), v.rounds))
  }

  /** The words of the schedule do not depend on how far it is continued. */
  lemma {:induction false} ScheduleContinues(v: Variant, block: seq<nat>, n: nat, m: nat)
    requires |block| == 16 <= n <= m
    ensures Schedule(v, block, m)[..n] == Schedule(v, block, n)
  {
    if n < m {
      ScheduleContinues(v, block, n, m - 1);
      assert Schedule(v, block, m)[..n] == Schedule(v, block, m - 1)[..n];
    } else {
      assert Schedule(v, block, m)[..n] == Schedule(v, block, n);
    }
  }

  lemma ScheduleWord(v: Variant, block: seq<nat>, n: nat, t: nat)
    requires |block| == 16 <= n && t < n
    ensures var ws := Schedule(v, block, n);
            && (t < 16 ==> ws[t] == block[t])
            && (t >= 16 ==> ws[t] == NextWord(v, ws[t - 2], ws[t - 7], ws[t - 15], ws[t - 16]))
  {
    var ws := Schedule(v, block, n);
    if t < 16 {
      ScheduleContinues(v, block, 16, n);
      assert ws[t] == ws[..16][t];
    } else {
      ScheduleContinues(v, block, t + 1, n);
      ScheduleContinues(v, block, t, t + 1);
      var short := Schedule(v, block, t + 1);
      assert forall i :: 0 <= i <= t ==> ws[i] == ws[..t + 1][i];
      assert forall i :: 0 <= i < t ==> short[i] == Schedule(v, block, t)[i];
    }
  }

  // ---------- Blocks in memory ----------

  /** Where a word starts. */
  function Offset(width: nat, j: nat): nat {
    width * j
  }

  lemma OffsetOrder(width: nat, i: nat, j: nat)
    requires i < j <= 16
    ensures Offset(width, i) + width <= Offset(width, j) <= 16 * width
  {
    assert width * (i + 1) <= width * j by {
      assert width * j == width * (i + 1) + width * (j - i - 1);
    }
  }

  lemma OffsetInBlock(width: nat, j: nat)
    requires j < 16
    ensures Offset(width, j) + width <= 16 * width
  {
    OffsetOrder(width, j, 16);
  }

  lemma SliceOfSlice(s: bytes, a: nat, b: nat, c: nat, d: nat)
    requires a <= b <= |s| && c <= d <= b - a
    ensures s[a..b][c..d] == s[a + c..a + d]
  {
    forall i | 0 <= i < d - c
      ensures s[a..b][c..d][i] == s[a + c..a + d][i]
    {
      assert s[a..b][c + i] == s[a + c + i];
    }
  }

  /** Octets of one word. */
  function WordOctets(width: nat, block: bytes, j: nat): (bs: bytes)
    requires |block| == 16 * width && j < 16
    ensures |bs| == width
  {
    OffsetInBlock(width, j);
    block[Offset(width, j)..Offset(width, j) + width]
  }

  /** A block as words in host order. */
  function HostWords(width: nat, block: bytes): (ws: seq<nat>)
    requires |block| == 16 * width
    ensures |ws| == 16
  {
    seq(16, j requires 0 <= j < 16 => FromLE(WordOctets(width, block, j)))
  }

  /** A block as FIPS 180-4 reads it: big-endian words. */
  function BlockWords(width: nat, block: bytes): (ws: seq<nat>)
    requires |block| == 16 * width
    ensures |ws| == 16
  {
    seq(16, j requires 0 <= j < 16 => FromBE(WordOctets(width, block, j)))
  }

  lemma SwappedWord(width: nat, block: bytes, j: nat)
    requires |block| == 16 * width && j < 16
    ensures Swapped(HostWords(width, block)[j], width) == BlockWords(width, block)[j]
    ensures HostWords(width, block)[j] < Pow256(width) && BlockWords(width, block)[j] < Pow256(width)
  {
    SwappedLoad(WordOctets(width, block, j));
    LittleEndianOctets(WordOctets(width, block, j));
    BigEndianBound(WordOctets(width, block, j));
  }

  /** One word stored in a block. */
  function Stored(width: nat, block: bytes, j: nat, x: nat): (b: bytes)
    requires |block| == 16 * width && j < 16
    ensures |b| == |block|
  {
    OffsetInBlock(width, j);
    block[..Offset(width, j)] + ToLE(x, width) + block[Offset(width, j) + width..]
  }

  /** Octets on either side of those that were exchanged. */
  lemma SliceApart(block: bytes, at: nat, new_: bytes, c: nat, d: nat)
    requires at + |new_| <= |block| && c <= d <= |block| && (d <= at || at + |new_| <= c)
    ensures (block[..at] + new_ + block[at + |new_|..])[c..d] == block[c..d]
  {
  }

  lemma StoredWords(width: nat, block: bytes, j: nat, x: nat)
    requires |block| == 16 * width && j < 16 && x < Pow256(width)
    ensures HostWords(width, Stored(width, block, j, x)) == HostWords(width, block)[j := x]
  {
    var b := Stored(width, block, j, x);
    OffsetInBlock(width, j);
    forall i | 0 <= i < 16
      ensures WordOctets(width, b, i) == if i == j then ToLE(x, width) else WordOctets(width, block, i)
    {
      OffsetInBlock(width, i);
      if i != j {
        OffsetOrder(width, if i < j then i else j, if i < j then j else i);
        hide Offset;
        SliceApart(block, Offset(width, j), ToLE(x, width), Offset(width, i), Offset(width, i) + width);
      }
    }
    LittleEndianRoundTrip(x, width);
    hide Stored, WordOctets, ToLE, FromLE;
    assert HostWords(width, b) == HostWords(width, block)[j := x];
  }

  /** The ring holds the last sixteen words of the schedule, as far as there are that many. */
  predicate RingHolds(ring: seq<nat>, ws: seq<nat>, j: nat)
    requires |ring| == 16 && j <= |ws|
  {
    forall i :: 0 <= i < j && j - 16 <= i ==> ring[i % 16] == ws[i]
  }

  /** The word at its place replaces the one sixteen rounds before. */
  lemma RingAdvances(ring: seq<nat>, ws: seq<nat>, j: nat)
    requires |ring| == 16 && j < |ws| && RingHolds(ring, ws, j)
    ensures RingHolds(ring[j % 16 := ws[j]], ws, j + 1)
  {
    forall i | 0 <= i < j + 1 && j + 1 - 16 <= i
      ensures ring[j % 16 := ws[j]][i % 16] == ws[i]
    {
      if i < j {
        assert i % 16 != j % 16;
      }
    }
  }

  /** The four words of the ring that the expansion uses are the ones the schedule asks for. */
  lemma RingGives(v: Variant, ring: seq<nat>, block: seq<nat>, j: nat)
    requires v.Valid() && |ring| == 16 && |block| == 16 <= j < v.rounds
    requires RingHolds(ring, Schedule(v, block, v.rounds), j)
    ensures (ring[j % 16] + (v.sigma1(ring[(j + 14) % 16]) + ring[(j + 9) % 16] + v.sigma0(ring[(j + 1) % 16]))) % v.Modulus()
            == Schedule(v, block, v.rounds)[j]
  {
    var ws := Schedule(v, block, v.rounds);
    ScheduleWord(v, block, v.rounds, j);
    assert (j + 14) % 16 == (j - 2) % 16 && (j + 9) % 16 == (j - 7) % 16 && (j + 1) % 16 == (j - 15) % 16;
    assert ring[(j - 16) % 16] == ws[j - 16];
  }

  lemma T2Associates(v: Variant, r: Registers, t1: nat)
    ensures (t1 + T2(v, r)) % v.Modulus() == (t1 + v.bigSigma0(r.a) + v.maj(r.a, r.b, r.c)) % v.Modulus()
  {
    ModOfSum(t1, v.bigSigma0(r.a) + v.maj(r.a, r.b, r.c), v.Modulus());
  }

  // ---------- Messages ----------

  /** The hash value after the whole blocks of `bs`: steps of sections 6.2.2 and 6.4.2 for all of them. */
  function Process(v: Variant, state: seq<nat>, bs: bytes): (s: seq<nat>)
    requires v.Valid() && |state| == 8
    ensures |s| == 8
  {
    if |bs| < v.BlockLength() then state
    else
      var last := |bs| - v.BlockLength();
      Compress(v, Process(v, state, bs[..last]), BlockWords(v.width, bs[last..]))
  }

  lemma ProcessBlock(v: Variant, state: seq<nat>, bs: bytes, block: bytes)
    requires v.Valid() && |state| == 8 && |block| == v.BlockLength()
    ensures Process(v, state, bs + block) == Compress(v, Process(v, state, bs), BlockWords(v.width, block))
  {
    assert (bs + block)[..|bs|] == bs && (bs + block)[|bs|..] == block;
  }

  /** Sections 5.1.1 and 5.1.2: a one bit, as few zeros as possible, and the length in bits as two words. */
  function Padding(v: Variant, length: nat): bytes
    requires v.Valid()
  {
    var zeros := ZerosFor(length + 1, v.BlockLength(), v.ShortBlockLength());
    [0x80] + Zeros(zeros) + ToBE(8 * length, 2 * v.width)
  }

  function ZerosFor(n: nat, block: nat, short: nat): (z: nat)
    requires 0 < short < block
  {
    var rest := n % block;
    if rest <= short then short - rest else block + short - rest
  }

  /** So many zeros, and no fewer, leave room for just the length in the last block. */
  lemma ZerosFill(n: nat, block: nat, short: nat, z: nat)
    requires 0 < short < block
    ensures (n + ZerosFor(n, block, short) + (block - short)) % block == 0
    ensures z < ZerosFor(n, block, short) ==> (n + z + (block - short)) % block != 0
  {
    var q, rest := n / block, n % block;
    assert n == block * q + rest;
    if rest <= short {
      assert block * (q + 1) == block * q + block;
      DivisionIsUnique(n + ZerosFor(n, block, short) + (block - short), block, q + 1, 0);
      if z < ZerosFor(n, block, short) {
        DivisionIsUnique(n + z + (block - short), block, q, rest + z + (block - short));
      }
    } else {
      assert block * (q + 2) == block * q + 2 * block && block * (q + 1) == block * q + block;
      DivisionIsUnique(n + ZerosFor(n, block, short) + (block - short), block, q + 2, 0);
      if z < ZerosFor(n, block, short) {
        DivisionIsUnique(n + z + (block - short), block, q + 1, rest + z - short);
      }
    }
  }

  /** The padded message consists of whole blocks, and with fewer zeros it would not. */
  lemma PaddingFills(v: Variant, length: nat, z: nat)
    requires v.Valid()
    ensures (length + |Padding(v, length)|) % v.BlockLength() == 0
    ensures 1 + z + 2 * v.width < |Padding(v, length)| ==> (length + 1 + z + 2 * v.width) % v.BlockLength() != 0
  {
    hide ToBE;
    ZerosFill(length + 1, v.BlockLength(), v.ShortBlockLength(), z);
    hide ZerosFor;
  }

  /** Step 4 of the hash computation: the words of the hash value in big-endian order. */
  function Octets(width: nat, words: seq<nat>): bytes {
    if words == [] then [] else Octets(width, words[..|words| - 1]) + ToBE(words[|words| - 1], width)
  }

  /** The hash of a message: pad it, then process all of its blocks. */
  function Hash(v: Variant, message: bytes): bytes
    requires v.Valid()
  {
    Octets(v.width, Process(v, v.initial, message + Padding(v, |message|)))
  }

  lemma NextRemainder(n: nat, b: nat)
    requires b > 0
    ensures (n + 1) % b == if n % b + 1 == b then 0 else n % b + 1
  {
    var q, r := n / b, n % b;
    assert n == b * q + r;
    if r + 1 == b {
      assert b * (q + 1) == b * q + b;
      DivisionIsUnique(n + 1, b, q + 1, 0);
    } else {
      DivisionIsUnique(n + 1, b, q, r + 1);
    }
  }

  /** How the padding falls on the last block, or on the last two. */
  lemma PaddingIs(v: Variant, length: nat)
    requires v.Valid()
    ensures var used, short, block := length % v.BlockLength(), v.ShortBlockLength(), v.BlockLength();
            var end := ToBE(8 * length, 2 * v.width);
            if used + 1 <= short then Padding(v, length) == [0x80] + Zeros(short - (used + 1)) + end
            else Padding(v, length) == [0x80] + Zeros(block - (used + 1)) + (Zeros(short) + end)
  {
    hide ToBE, ZerosFor;
    var used, short, block := length % v.BlockLength(), v.ShortBlockLength(), v.BlockLength();
    NextRemainder(length, block);
    ZerosForNext(used, length, block, short);
    if used + 1 > short {
      assert Zeros(block + short - (used + 1)) == Zeros(block - (used + 1)) + Zeros(short);
    }
  }

  lemma ZerosForNext(used: nat, length: nat, block: nat, short: nat)
    requires 0 < short < block && used == length % block
    ensures ZerosFor(length + 1, block, short) ==
            if used + 1 <= short then short - (used + 1) else block + short - (used + 1)
  {
    NextRemainder(length, block);
  }

  lemma Regroup(a: bytes, b: bytes, c: bytes, d: bytes)
    ensures (a + b) + (c + d) == a + (b + c) + d
  {
  }

  /** Two more blocks, cut differently. */
  lemma ProcessTwo(v: Variant, state: seq<nat>, whole: bytes, waiting: bytes, p: bytes, second: bytes)
    requires v.Valid() && |state| == 8 && |waiting + p| == |second| == v.BlockLength()
    ensures Process(v, state, (whole + waiting) + (p + second)) ==
            Compress(v, Compress(v, Process(v, state, whole), BlockWords(v.width, waiting + p)), BlockWords(v.width, second))
  {
    hide Process, Compress, BlockWords;
    Regroup(whole, waiting, p, second);
    ProcessBlock(v, state, whole, waiting + p);
    ProcessBlock(v, state, whole + (waiting + p), second);
  }

  lemma ProcessOne(v: Variant, state: seq<nat>, whole: bytes, waiting: bytes, p: bytes)
    requires v.Valid() && |state| == 8 && |waiting + p| == v.BlockLength()
    ensures Process(v, state, (whole + waiting) + p) == Compress(v, Process(v, state, whole), BlockWords(v.width, waiting + p))
  {
    hide Process, Compress, BlockWords;
    Concat(whole, waiting, p);
    ProcessBlock(v, state, whole, waiting + p);
  }

  /** Padding within one block. */
  lemma EndsInOne(v: Variant, message: bytes, block: bytes)
    requires v.Valid() && Used(v, message) + 1 <= v.ShortBlockLength() && |block| == v.BlockLength()
    requires block == message[|message| - Used(v, message)..] +
                      ([0x80] + Zeros(v.ShortBlockLength() - (Used(v, message) + 1)) + ToBE(8 * |message|, 2 * v.width))
    ensures Process(v, v.initial, message + Padding(v, |message|)) ==
            Compress(v, Process(v, v.initial, message[..|message| - Used(v, message)]), BlockWords(v.width, block))
  {
    hide Process, Compress, BlockWords, ToBE, Padding, Zeros, Used;
    UsedIs(v, message);
    PaddingIs(v, |message|);
    var whole, waiting := message[..|message| - Used(v, message)], message[|message| - Used(v, message)..];
    assert message == whole + waiting;
    ProcessOne(v, v.initial, whole, waiting, Padding(v, |message|));
  }

  /** Padding over two blocks. */
  lemma EndsInTwo(v: Variant, message: bytes, first: bytes, second: bytes)
    requires v.Valid() && Used(v, message) + 1 > v.ShortBlockLength() && |first| == |second| == v.BlockLength()
    requires first == message[|message| - Used(v, message)..] + ([0x80] + Zeros(v.BlockLength() - (Used(v, message) + 1)))
    requires second == Zeros(v.ShortBlockLength()) + ToBE(8 * |message|, 2 * v.width)
    ensures Process(v, v.initial, message + Padding(v, |message|)) ==
            Compress(
              v,
              Compress(v, Process(v, v.initial, message[..|message| - Used(v, message)]), BlockWords(v.width, first)),
              BlockWords(v.width, second))
  {
    hide Process, Compress, BlockWords, ToBE, Padding, Zeros, Used;
    UsedIs(v, message);
    PaddingIs(v, |message|);
    var whole, waiting := message[..|message| - Used(v, message)], message[|message| - Used(v, message)..];
    assert message == whole + waiting;
    ProcessTwo(v, v.initial, whole, waiting, [0x80] + Zeros(v.BlockLength() - (Used(v, message) + 1)), second);
  }

  /** How much of a message waits for more. */
  function Used(v: Variant, message: bytes): (u: nat)
    requires v.Valid()
    ensures u <= |message| && u < v.BlockLength()
  {
    |message| % v.BlockLength()
  }

  /** `message` has been taken in: its whole blocks are processed and the rest is at the start of the buffer. */
  predicate TakenIn(v: Variant, message: bytes, state: seq<nat>, buffer: bytes) {
    && v.Valid() && |state| == 8 && |buffer| == v.BlockLength()
    && (var whole := |message| - Used(v, message);
        && state == Process(v, v.initial, message[..whole])
        && buffer[..Used(v, message)] == message[whole..])
  }

  /** Not enough for a block: the octets just join those waiting. */
  lemma Joins(v: Variant, message: bytes, state: seq<nat>, buffer: bytes, more: bytes, buffer': bytes)
    requires TakenIn(v, message, state, buffer) && Used(v, message) + |more| < v.BlockLength() == |buffer'|
    requires buffer'[..Used(v, message) + |more|] == buffer[..Used(v, message)] + more
    ensures TakenIn(v, message + more, state, buffer') && Used(v, message + more) == Used(v, message) + |more|
  {
    hide Process;
    var whole := |message| - Used(v, message);
    UsedGrows(v, message, more);
    assert (message + more)[..whole] == message[..whole];
    assert (message + more)[whole..] == message[whole..] + more;
  }

  lemma UsedGrows(v: Variant, message: bytes, more: bytes)
    requires v.Valid()
    ensures Used(v, message) + |more| < v.BlockLength() ==> Used(v, message + more) == Used(v, message) + |more|
    ensures Used(v, message) + |more| == v.BlockLength() ==> Used(v, message + more) == 0
  {
    var b, q, u := v.BlockLength(), |message| / v.BlockLength(), Used(v, message);
    assert |message| == b * q + u;
    if u + |more| < b {
      DivisionIsUnique(|message + more|, b, q, u + |more|);
    } else if u + |more| == b {
      assert b * (q + 1) == b * q + b;
      DivisionIsUnique(|message + more|, b, q + 1, 0);
    }
  }

  lemma UsedIs(v: Variant, message: bytes)
    requires v.Valid()
    ensures Used(v, message) == |message| % v.BlockLength()
  {
  }

  lemma NothingTaken(v: Variant, buffer: bytes)
    requires v.Valid() && |buffer| == v.BlockLength()
    ensures TakenIn(v, [], v.initial, buffer)
  {
  }

  /** Exactly enough for a block: together with those waiting they are processed. */
  lemma Completes(v: Variant, message: bytes, state: seq<nat>, buffer: bytes, more: bytes, block: bytes, buffer': bytes)
    requires TakenIn(v, message, state, buffer) && Used(v, message) + |more| == v.BlockLength() == |buffer'|
    requires block == buffer[..Used(v, message)] + more
    ensures TakenIn(v, message + more, Compress(v, state, BlockWords(v.width, block)), buffer')
    ensures Used(v, message + more) == 0
  {
    hide Compress, BlockWords;
    var whole := |message| - Used(v, message);
    UsedGrows(v, message, more);
    assert message + more == message[..whole] + block;
    assert (message + more)[..|message + more|] == message + more;
    ProcessBlock(v, v.initial, message[..whole], block);
  }

  // ---------- The hash object ----------

  const TWO64: nat := 0x1_0000_0000_0000_0000

  class Context {
    const v: Variant
    /** SHA2_UNROLL_TRANSFORM. */
    const unrolled: bool
    const state: array<nat>
    const buffer: array<byte>
    /** The least significant word first. */
    const bitcount: array<nat>

    ghost predicate Shaped() {
      && v.Valid()
      && state.Length == 8 && buffer.Length == v.BlockLength() && state != bitcount
    }

    /** The buffer taken as words. */
    ghost function Ring(): (ws: seq<nat>)
      requires Shaped()
      reads buffer
      ensures |ws| == 16
    {
      HostWords(v.width, buffer[..])
    }

    method LoadWord(data: array<byte>, from: nat) returns (x: nat)
      requires from + v.width <= data.Length
      ensures x == FromLE(data[from..from + v.width])
    {
      x := 0;
      var i := v.width;
      assert data[from + i..from + v.width] == [];
      while i > 0
        invariant 0 <= i <= v.width
        invariant x == FromLE(data[from + i..from + v.width])
      {
        i := i - 1;
        assert data[from + i..from + v.width][1..] == data[from + i + 1..from + v.width];
        x := data[from + i] + 256 * x;
      }
    }

    /** The octets of `x`, the least significant one first, from `at` on. */
    method StoreOctets(at: nat, x: nat, n: nat)
      requires at + n <= buffer.Length
      modifies buffer
      ensures buffer[..] == old(buffer[..at]) + ToLE(x, n) + old(buffer[at + n..])
    {
      var rest, i := x, 0;
      while i < n
        invariant 0 <= i <= n && 0 <= rest
        invariant buffer[at..at + i] + ToLE(rest, n - i) == ToLE(x, n)
        invariant buffer[..at] == old(buffer[..at]) && buffer[at + n..] == old(buffer[at + n..])
      {
        buffer[at + i] := rest % 256;
        assert buffer[at..at + i + 1] == buffer[at..at + i] + [rest % 256];
        rest, i := rest / 256, i + 1;
      }
      assert buffer[..] == buffer[..at] + buffer[at..at + n] + buffer[at + n..];
    }

    method StoreWord(j: nat, x: nat)
      requires Shaped() && j < 16 && x < v.Modulus()
      modifies buffer
      ensures Ring() == old(Ring())[j := x]
      ensures buffer[..] == Stored(v.width, old(buffer[..]), j, x)
    {
      OffsetInBlock(v.width, j);
      StoredWords(v.width, buffer[..], j, x);
      StoreOctets(Offset(v.width, j), x, v.width);
    }

    /** The words still to be read, in host order. */
    ghost function Input(data: array<byte>, from: nat): (ws: seq<nat>)
      requires Shaped() && from + v.BlockLength() <= data.Length
      reads data
      ensures |ws| == 16
    {
      HostWords(v.width, data[from..from + v.BlockLength()])
    }

    method LoadInput(data: array<byte>, from: nat, j: nat) returns (x: nat)
      requires Shaped() && j < 16 && from + v.BlockLength() <= data.Length
      ensures x == Input(data, from)[j] < v.Modulus()
      ensures Swapped(x, v.width) < v.Modulus()
    {
      OffsetInBlock(v.width, j);
      ghost var block := data[from..from + v.BlockLength()];
      SwappedWord(v.width, block, j);
      var at := from + Offset(v.width, j);
      SliceOfSlice(data[..], from, from + v.BlockLength(), Offset(v.width, j), Offset(v.width, j) + v.width);
      assert data[at..at + v.width] == WordOctets(v.width, block, j);
      x := LoadWord(data, at);
    }

    /** Copy one word of the data into the ring, which may be where it comes from, exchanging its octets. */
    method CopyWord(data: array<byte>, from: nat, j: nat) returns (w: nat)
      requires Shaped() && j < 16 && from + v.BlockLength() <= data.Length && (data == buffer ==> from == 0)
      modifies buffer
      ensures w == Swapped(old(Input(data, from))[j], v.width)
      ensures Ring() == old(Ring())[j := w]
      ensures forall t :: j < t < 16 ==> Input(data, from)[t] == old(Input(data, from))[t]
    {
      hide HostWords, Stored;
      assert data == buffer ==> data[from..from + v.BlockLength()] == buffer[..];
      var x := LoadInput(data, from, j);
      w := Swapped(x, v.width);
      StoreWord(j, w);
      assert data == buffer ==> data[from..from + v.BlockLength()] == buffer[..];
    }

    /** One step of the expansion: the word sixteen rounds back is overwritten. */
    method ExpandWord(j: nat, ghost block: seq<nat>) returns (w: nat)
      requires Shaped() && |block| == 16 <= j < v.rounds
      requires RingHolds(Ring(), Schedule(v, block, v.rounds), j)
      modifies buffer
      ensures w == Schedule(v, block, v.rounds)[j]
      ensures RingHolds(Ring(), Schedule(v, block, v.rounds), j + 1)
    {
      hide Schedule, RingHolds, HostWords;
      ghost var ws := Schedule(v, block, v.rounds);
      RingGives(v, Ring(), block, j);
      var w1 := RingWord((j + 1) % 16);
      var s0 := v.sigma0(w1);
      var w14 := RingWord((j + 14) % 16);
      var s1 := v.sigma1(w14);
      var w9 := RingWord((j + 9) % 16);
      var w0 := RingWord(j % 16);
      w := (w0 + (s1 + w9 + s0)) % v.Modulus();
      RingAdvances(Ring(), ws, j);
      StoreWord(j % 16, w);
    }

    method RingWord(j: nat) returns (x: nat)
      requires Shaped() && j < 16
      ensures x == Ring()[j]
    {
      OffsetInBlock(v.width, j);
      var at := Offset(v.width, j);
      assert buffer[at..at + v.width] == WordOctets(v.width, buffer[..], j);
      x := LoadWord(buffer, at);
    }

    /** The word of round `j`: read from the data in the first sixteen rounds, made from the ring after that. */
    method WordOf(data: array<byte>, from: nat, j: nat, ghost octets: bytes) returns (w: nat)
      requires Shaped() && Feeding(data, from, j, octets) && j < v.rounds
      modifies buffer
      ensures w == Schedule(v, BlockWords(v.width, octets), v.rounds)[j]
      ensures Feeding(data, from, j + 1, octets)
    {
      hide Schedule, RingHolds, HostWords, BlockWords;
      ghost var block := BlockWords(v.width, octets);
      ghost var ws := Schedule(v, block, v.rounds);
      if j < 16 {
        SwappedWord(v.width, octets, j);
        ScheduleWord(v, block, v.rounds, j);
        RingAdvances(Ring(), ws, j);
        w := CopyWord(data, from, j);
      } else {
        w := ExpandWord(j, block);
      }
    }

    /** Before round `j`: the ring holds the schedule so far, and what is still to be read has not been disturbed. */
    ghost predicate Feeding(data: array<byte>, from: nat, j: nat, octets: bytes)
      requires Shaped()
      reads buffer, data
    {
      && from + v.BlockLength() <= data.Length && (data == buffer ==> from == 0)
      && |octets| == v.BlockLength() && j <= v.rounds
      && (forall t :: j <= t < 16 ==> Input(data, from)[t] == HostWords(v.width, octets)[t])
      && RingHolds(Ring(), Schedule(v, BlockWords(v.width, octets), v.rounds), j)
    }

    /** SHA256_Transform and SHA512_Transform, looped. */
    method TransformLooped(data: array<byte>, from: nat)
      requires Shaped() && from + v.BlockLength() <= data.Length && (data == buffer ==> from == 0)
      modifies state, buffer
      ensures state[..] == Compress(v, old(state[..]), BlockWords(v.width, old(data[from..from + v.BlockLength()])))
    {
      hide Schedule, HostWords, BlockWords, RingHolds, Rounds;
      ghost var octets := data[from..from + v.BlockLength()];
      ghost var start := RegistersOf(state[..]);
      ghost var ws := Schedule(v, BlockWords(v.width, octets), v.rounds);
      var a: nat, b: nat, c: nat, d: nat, e: nat, f: nat, g: nat, h: nat :=
        state[0], state[1], state[2], state[3], state[4], state[5], state[6], state[7];
      var j := 0;
      NothingYet(start, ws, data, from, octets);
      while j < v.rounds
        invariant 0 <= j <= v.rounds && Feeding(data, from, j, octets) && state[..] == old(state[..])
        invariant Registers(a, b, c, d, e, f, g, h) == Rounds(v, start, ws, j)
      {
        var w := WordOf(data, from, j, octets);
        OneRound(start, ws, j);
        var t1 := (h + v.bigSigma1(e) + v.ch(e, f, g) + v.k[j] + w) % v.Modulus();
        var t2 := (v.bigSigma0(a) + v.maj(a, b, c)) % v.Modulus();
        h := g;
        g := f;
        f := e;
        e := (d + t1) % v.Modulus();
        d := c;
        c := b;
        b := a;
        a := (t1 + t2) % v.Modulus();
        j := j + 1;
      }
      AddToState(Registers(a, b, c, d, e, f, g, h));
    }

    lemma NothingYet(start: Registers, ws: seq<nat>, data: array<byte>, from: nat, octets: bytes)
      requires Shaped() && from + v.BlockLength() <= data.Length && (data == buffer ==> from == 0)
      requires octets == data[from..from + v.BlockLength()]
      ensures Feeding(data, from, 0, octets) && Rounds(v, start, ws, 0) == start
    {
    }

    lemma OneRound(start: Registers, ws: seq<nat>, j: nat)
      requires j < |ws| && j < |v.k|
      ensures Rounds(v, start, ws, j + 1) == Round(v, Rounds(v, start, ws, j), v.k[j], ws[j])
    {
    }

    /** The end of a transform. */
    method AddToState(r: Registers)
      requires Shaped()
      modifies state
      ensures state[..] == Sum(v, old(state[..]), r)
    {
      var m := v.Modulus();
      state[0] := (state[0] + r.a) % m;
      state[1] := (state[1] + r.b) % m;
      state[2] := (state[2] + r.c) % m;
      state[3] := (state[3] + r.d) % m;
      state[4] := (state[4] + r.e) % m;
      state[5] := (state[5] + r.f) % m;
      state[6] := (state[6] + r.g) % m;
      state[7] := (state[7] + r.h) % m;
    }

    /** ROUND256_0_TO_15, ROUND256 and their counterparts: only two registers change, the caller renames them all. */
    method UnrolledRound(
      a: nat, b: nat, c: nat, d: nat, e: nat, f: nat, g: nat, h: nat, data: array<byte>, from: nat, j: nat, ghost octets: bytes)
      returns (d': nat, h': nat)
      requires Shaped() && Feeding(data, from, j, octets) && j < v.rounds
      modifies buffer
      ensures Feeding(data, from, j + 1, octets)
      ensures Registers(h', a, b, c, d', e, f, g) ==
              Round(v, Registers(a, b, c, d, e, f, g, h), v.k[j], Schedule(v, BlockWords(v.width, octets), v.rounds)[j])
    {
      hide Schedule, HostWords, BlockWords, RingHolds, Feeding;
      var w := WordOf(data, from, j, octets);
      var t1 := (h + v.bigSigma1(e) + v.ch(e, f, g) + v.k[j] + w) % v.Modulus();
      T2Associates(v, Registers(a, b, c, d, e, f, g, h), t1);
      d' := (d + t1) % v.Modulus();
      h' := (t1 + v.bigSigma0(a) + v.maj(a, b, c)) % v.Modulus();
    }

    /** SHA256_Transform and SHA512_Transform, unrolled: eight rounds rename the registers all the way round. */
    method TransformUnrolled(data: array<byte>, from: nat)
      requires Shaped() && from + v.BlockLength() <= data.Length && (data == buffer ==> from == 0)
      modifies state, buffer
      ensures state[..] == Compress(v, old(state[..]), BlockWords(v.width, old(data[from..from + v.BlockLength()])))
    {
      hide Schedule, HostWords, BlockWords, RingHolds, Rounds, Round, Feeding;
      ghost var octets := data[from..from + v.BlockLength()];
      ghost var start := RegistersOf(state[..]);
      ghost var ws := Schedule(v, BlockWords(v.width, octets), v.rounds);
      var a: nat, b: nat, c: nat, d: nat, e: nat, f: nat, g: nat, h: nat :=
        state[0], state[1], state[2], state[3], state[4], state[5], state[6], state[7];
      var j := 0;
      NothingYet(start, ws, data, from, octets);
      while j < v.rounds
        invariant 0 <= j <= v.rounds && j % 8 == 0 && Feeding(data, from, j, octets) && state[..] == old(state[..])
        invariant Registers(a, b, c, d, e, f, g, h) == Rounds(v, start, ws, j)
      {
        EightRounds(start, ws, j);
        d, h := UnrolledRound(a, b, c, d, e, f, g, h, data, from, j, octets);
        c, g := UnrolledRound(h, a, b, c, d, e, f, g, data, from, j + 1, octets);
        b, f := UnrolledRound(g, h, a, b, c, d, e, f, data, from, j + 2, octets);
        a, e := UnrolledRound(f, g, h, a, b, c, d, e, data, from, j + 3, octets);
        h, d := UnrolledRound(e, f, g, h, a, b, c, d, data, from, j + 4, octets);
        g, c := UnrolledRound(d, e, f, g, h, a, b, c, data, from, j + 5, octets);
        f, b := UnrolledRound(c, d, e, f, g, h, a, b, data, from, j + 6, octets);
        e, a := UnrolledRound(b, c, d, e, f, g, h, a, data, from, j + 7, octets);
        j := j + 8;
      }
      AddToState(Registers(a, b, c, d, e, f, g, h));
    }

    lemma EightRounds(start: Registers, ws: seq<nat>, j: nat)
      requires j + 8 <= |ws| && j + 8 <= |v.k|
      ensures forall i :: j <= i < j + 8 ==> Rounds(v, start, ws, i + 1) == Round(v, Rounds(v, start, ws, i), v.k[i], ws[i])
    {
      hide Round;
    }

    /** Whichever of the two was compiled in. */
    method Transform(data: array<byte>, from: nat)
      requires Shaped() && from + v.BlockLength() <= data.Length && (data == buffer ==> from == 0)
      modifies state, buffer
      ensures state[..] == Compress(v, old(state[..]), BlockWords(v.width, old(data[from..from + v.BlockLength()])))
    {
      hide Compress, BlockWords;
      if unrolled {
        TransformUnrolled(data, from);
      } else {
        TransformLooped(data, from);
      }
    }

    // ---------- Streaming ----------

    /** The number of bits, which the object keeps in one or two words of 64 bits. */
    ghost function Bits(): nat
      requires Counted()
      reads bitcount
    {
      if bitcount.Length == 1 then bitcount[0] else bitcount[0] + TWO64 * bitcount[1]
    }

    ghost predicate Counted()
      reads bitcount
    {
      && (v.width == 4 ==> bitcount.Length == 1) && (v.width == 8 ==> bitcount.Length == 2)
      && v.Valid()
      && forall i :: 0 <= i < bitcount.Length ==> bitcount[i] < TWO64
    }

    /** Bits that fit into the counter. */
    ghost function Capacity(): nat
    {
      if v.width == 4 then TWO64 else TWO64 * TWO64
    }

    /** The message so far has been taken in and counted. */
    ghost predicate Holds(message: bytes)
      reads state, buffer, bitcount
    {
      && Shaped() && Counted()
      && TakenIn(v, message, state[..], buffer[..])
      && Bits() == 8 * |message| < Capacity()
    }

    constructor (v: Variant, unrolled: bool)
      requires v.Valid()
      ensures this.v == v && Holds([]) && fresh(state) && fresh(buffer) && fresh(bitcount)
    {
      hide Process;
      this.v, this.unrolled := v, unrolled;
      state := new nat[8](i requires 0 <= i < 8 => v.initial[i]);
      buffer := new byte[v.BlockLength()](_ => 0);
      bitcount := new nat[v.width / 4](_ => 0);
      new;
      assert state[..] == v.initial;
      NothingTaken(v, buffer[..]);
    }

    /** bitcount += n, or ADDINC128. */
    method AddBits(n: nat)
      requires Counted() && n < TWO64 && Bits() + n < Capacity()
      modifies bitcount
      ensures Counted() && Bits() == old(Bits()) + n
    {
      bitcount[0] := (bitcount[0] + n) % TWO64;
      if bitcount.Length == 2 && bitcount[0] < n {
        bitcount[1] := (bitcount[1] + 1) % TWO64;
      }
    }

    /** (bitcount >> 3) % BLOCK_LENGTH, from the least significant word. */
    method UsedSpace(ghost message: bytes) returns (used: nat)
      requires Holds(message)
      ensures used == Used(v, message)
    {
      used := bitcount[0] / 8 % v.BlockLength();
      if bitcount.Length == 2 {
        assert |message| == bitcount[0] / 8 + TWO64 / 8 * bitcount[1];
        MultipleOfBlock(bitcount[0] / 8, bitcount[1]);
      }
    }

    lemma MultipleOfBlock(x: nat, y: nat)
      ensures (x + TWO64 / 8 * y) % 128 == x % 128
    {
      var z := TWO64 / 1024 * y;
      assert TWO64 / 8 * y == 128 * z;
    }

    /** memcpy into the buffer. */
    method CopyIn(at: nat, data: array<byte>, from: nat, n: nat)
      requires at + n <= buffer.Length && from + n <= data.Length && data != buffer
      modifies buffer
      ensures buffer[..at + n] == old(buffer[..at]) + data[from..from + n]
    {
      forall i | 0 <= i < n {
        buffer[at + i] := data[from + i];
      }
    }

    lemma CapacityIs()
      ensures Capacity() == if v.width == 4 then TWO64 else TWO64 * TWO64
    {
    }

    lemma HoldsMeans(message: bytes)
      requires Holds(message)
      ensures Shaped()
    {
    }

    /** SHA256_Update and SHA512_Update. */
    method Update(data: array<byte>, len: nat, ghost message: bytes)
      requires Holds(message) && len <= data.Length && data != buffer
      requires 8 * (|message| + len) < Capacity()
      modifies state, buffer, bitcount
      ensures Holds(message + data[..len])
    {
      hide Holds, Used, Capacity;
      HoldsMeans(message);
      assert message + data[..0] == message;
      if len == 0 {
        return;
      }
      var from := 0;
      var usedspace := UsedSpace(message);
      if usedspace > 0 {
        var freespace := v.BlockLength() - usedspace;
        if len >= freespace {
          FillBlock(data, freespace, usedspace, message);
          from := freespace;
        } else {
          Append(data, 0, len, usedspace, message);
          return;
        }
      }
      WholeBlocks(data, from, len, message);
    }

    /** The rest of an update, once nothing waits in the buffer. */
    method WholeBlocks(data: array<byte>, start: nat, len: nat, ghost message: bytes)
      requires start <= len <= data.Length && data != buffer
      requires Holds(message + data[..start]) && Used(v, message + data[..start]) == 0
      requires 8 * (|message| + len) < Capacity()
      modifies state, buffer, bitcount
      ensures Holds(message + data[..len])
    {
      hide Holds, Used, Capacity;
      HoldsMeans(message + data[..start]);
      ghost var d := data[..len];
      assert data[..start] == d[..start];
      var from := start;
      while len - from >= v.BlockLength()
        invariant start <= from <= len && data[..len] == d
        invariant Holds(message + d[..from]) && Used(v, message + d[..from]) == 0
      {
        SliceOfSlice(data[..], 0, len, from, from + v.BlockLength());
        assert message + d[..from] + d[from..from + v.BlockLength()] == message + d[..from + v.BlockLength()];
        WholeBlock(data, from, message + d[..from]);
        from := from + v.BlockLength();
      }
      if len > from {
        assert data[from..len] == d[from..len];
        assert message + d[..from] + d[from..len] == message + d;
        Append(data, from, len - from, 0, message + d[..from]);
      } else {
        assert d[..from] == d;
      }
    }

    /** Put octets behind those waiting. */
    method Append(data: array<byte>, from: nat, n: nat, used: nat, ghost message: bytes)
      requires Holds(message) && used == Used(v, message) && used + n < v.BlockLength()
      requires from + n <= data.Length && data != buffer && 8 * (|message| + n) < Capacity()
      modifies buffer, bitcount
      ensures Holds(message + data[from..from + n])
    {
      hide Process;
      ghost var before := buffer[..];
      CopyIn(used, data, from, n);
      Joins(v, message, state[..], before, data[from..from + n], buffer[..]);
      AddBits(8 * n);
    }

    /** The data fill what was left of the buffer, which is a whole block then. */
    method FillBlock(data: array<byte>, n: nat, used: nat, ghost message: bytes)
      requires Holds(message) && used == Used(v, message) && used + n == v.BlockLength()
      requires n <= data.Length && data != buffer && 8 * (|message| + n) < Capacity()
      modifies state, buffer, bitcount
      ensures Holds(message + data[..n]) && Used(v, message + data[..n]) == 0
    {
      hide Process, Compress, BlockWords;
      ghost var before, hash := buffer[..], state[..];
      CopyIn(used, data, 0, n);
      AddBits(8 * n);
      ghost var block := buffer[0..v.BlockLength()];
      assert block == before[..used] + data[..n];
      Transform(buffer, 0);
      Completes(v, message, hash, before, data[..n], block, buffer[..]);
    }

    /** Process a block of the data itself; the buffer, which is empty, serves as scratch space. */
    method WholeBlock(data: array<byte>, from: nat, ghost message: bytes)
      requires Holds(message) && Used(v, message) == 0 && from + v.BlockLength() <= data.Length && data != buffer
      requires 8 * (|message| + v.BlockLength()) < Capacity()
      modifies state, buffer, bitcount
      ensures Holds(message + data[from..from + v.BlockLength()]) && Used(v, message + data[from..from + v.BlockLength()]) == 0
    {
      hide Process, Compress, BlockWords;
      ghost var before, hash := buffer[..], state[..];
      ghost var block := data[from..from + v.BlockLength()];
      assert before[..0] + block == block;
      Transform(data, from);
      AddBits(8 * v.BlockLength());
      Completes(v, message, hash, before, block, block, buffer[..]);
    }

    // ---------- The end of a message ----------

    /** memset with zeros. */
    method Clear(at: nat, n: nat)
      requires at + n <= buffer.Length
      modifies buffer
      ensures buffer[..at + n] == old(buffer[..at]) + Zeros(n)
      ensures buffer[at + n..] == old(buffer[at + n..])
    {
      forall i | 0 <= i < n {
        buffer[at + i] := 0;
      }
    }

    /** Store a word of 64 bits in network order. */
    method StoreCount(at: nat, x: nat)
      requires at + 8 <= buffer.Length && x < TWO64
      modifies buffer
      ensures buffer[..] == old(buffer[..at]) + ToBE(x, 8) + old(buffer[at + 8..])
    {
      EightOctets();
      SwappedStore(x, 8);
      hide ToLE, ToBE, Swapped;
      StoreOctets(at, Swapped(x, 8), 8);
    }

    /** Set the bit count: the most significant word first. */
    method StoreLength()
      requires Shaped() && Counted()
      modifies buffer
      ensures buffer[..] == old(buffer[..v.ShortBlockLength()]) + ToBE(Bits(), 2 * v.width)
    {
      hide ToBE;
      EightOctets();
      if bitcount.Length == 1 {
        StoreCount(v.ShortBlockLength(), bitcount[0]);
      } else {
        BigEndianParts(bitcount[0], bitcount[1], 8, 8);
        StoreCount(v.ShortBlockLength(), bitcount[1]);
        StoreCount(v.ShortBlockLength() + 8, bitcount[0]);
      }
    }

    /** Process the buffer as it is. */
    method TransformBuffer()
      requires Shaped()
      modifies state, buffer
      ensures state[..] == Compress(v, old(state[..]), BlockWords(v.width, old(buffer[..])))
    {
      hide Compress, BlockWords;
      assert buffer[0..v.BlockLength()] == buffer[..];
      Transform(buffer, 0);
    }

    /** Pad, and process what that gives. */
    method PadAndProcess(ghost message: bytes)
      requires Holds(message)
      modifies state, buffer
      ensures state[..] == Process(v, v.initial, message + Padding(v, |message|))
      ensures forall i :: 0 <= i < 8 ==> state[i] < v.Modulus()
    {
      hide Process, Compress, BlockWords, Padding, ToBE;
      var used := UsedSpace(message);
      if used > 0 {
        buffer[used] := 0x80;
        used := used + 1;
        assert buffer[..used] == message[|message| - Used(v, message)..] + [0x80];
        if used <= v.ShortBlockLength() {
          Clear(used, v.ShortBlockLength() - used);
          PadOneBlock(message);
        } else {
          PadTwoBlocks(message, used);
        }
      } else {
        PadEmptyBlock(message);
      }
    }

    /** There was nothing in the buffer: the padding makes a block of its own. */
    method PadEmptyBlock(ghost message: bytes)
      requires Shaped() && Counted() && Bits() == 8 * |message| && Used(v, message) == 0
      requires state[..] == Process(v, v.initial, message[..|message| - Used(v, message)])
      modifies state, buffer
      ensures state[..] == Process(v, v.initial, message + Padding(v, |message|))
      ensures forall i :: 0 <= i < 8 ==> state[i] < v.Modulus()
    {
      hide Process, Compress, BlockWords, Padding, ToBE;
      Clear(0, v.ShortBlockLength());
      buffer[0] := 0x80;
      assert buffer[..v.ShortBlockLength()] == [] + ([0x80] + Zeros(v.ShortBlockLength() - 1));
      assert message[|message|..] == [];
      PadOneBlock(message);
    }

    /** The last block but for the length is set up: store the length and do the last transform. */
    method PadOneBlock(ghost message: bytes)
      requires Shaped() && Counted() && Bits() == 8 * |message| && Used(v, message) + 1 <= v.ShortBlockLength()
      requires state[..] == Process(v, v.initial, message[..|message| - Used(v, message)])
      requires buffer[..v.ShortBlockLength()] ==
               message[|message| - Used(v, message)..] + ([0x80] + Zeros(v.ShortBlockLength() - (Used(v, message) + 1)))
      modifies state, buffer
      ensures state[..] == Process(v, v.initial, message + Padding(v, |message|))
      ensures forall i :: 0 <= i < 8 ==> state[i] < v.Modulus()
    {
      hide Process, Compress, BlockWords, Padding, ToBE, Zeros, Used;
      StoreLength();
      EndsInOne(v, message, buffer[..]);
      TransformBuffer();
    }

    /** Do the second-to-last transform, and the last one. */
    method PadTwoBlocks(ghost message: bytes, used: nat)
      requires Shaped() && Counted() && Bits() == 8 * |message|
      requires used == Used(v, message) + 1 > v.ShortBlockLength()
      requires state[..] == Process(v, v.initial, message[..|message| - Used(v, message)])
      requires buffer[..used] == message[|message| - Used(v, message)..] + [0x80]
      modifies state, buffer
      ensures state[..] == Process(v, v.initial, message + Padding(v, |message|))
      ensures forall i :: 0 <= i < 8 ==> state[i] < v.Modulus()
    {
      hide Process, Compress, BlockWords, Padding, ToBE, Used;
      if used < v.BlockLength() {
        Clear(used, v.BlockLength() - used);
      }
      ghost var first := buffer[..];
      assert first == message[|message| - Used(v, message)..] + ([0x80] + Zeros(v.BlockLength() - used));
      TransformBuffer();
      Clear(0, v.ShortBlockLength());
      StoreLength();
      EndsInTwo(v, message, first, buffer[..]);
      TransformBuffer();
    }

    /** SHA256_Final and SHA512_Final. */
    method Final(ghost message: bytes) returns (digest: bytes)
      requires Holds(message)
      modifies state, buffer
      ensures digest == Hash(v, message)
    {
      hide Process, Padding, ToBE;
      PadAndProcess(message);
      digest := [];
      ghost var words := state[..];
      assert words[..0] == [];
      for j := 0 to 8
        invariant state[..] == words && digest == Octets(v.width, words[..j])
      {
        SwappedStore(state[j], v.width);
        assert words[..j + 1][..j] == words[..j];
        digest := digest + ToLE(Swapped(state[j], v.width), v.width);
      }
      assert words[..8] == words;
    }
  }

  /** The contents of arrays, one after the other. */
  ghost function Joined(pieces: seq<array<byte>>): bytes
    reads pieces
  {
    if pieces == [] then [] else Joined(pieces[..|pieces| - 1]) + pieces[|pieces| - 1][..]
  }

  /** However a message is split over updates, its hash comes out. */
  method HashInPieces(v: Variant, unrolled: bool, pieces: seq<array<byte>>) returns (digest: bytes)
    requires v.Valid() && 8 * |Joined(pieces)| < (if v.width == 4 then TWO64 else TWO64 * TWO64)
    ensures digest == Hash(v, Joined(pieces))
  {
    hide Hash, Context.Holds, Context.Capacity;
    var c := new Context(v, unrolled);
    assert pieces[..0] == [];
    for i := 0 to |pieces|
      invariant fresh(c.state) && fresh(c.buffer) && fresh(c.bitcount) && c.v == v
      invariant c.Holds(Joined(pieces[..i]))
    {
      assert pieces[..i + 1][..i] == pieces[..i];
      JoinedLength(pieces, i + 1);
      c.CapacityIs();
      c.Update(pieces[i], pieces[i].Length, Joined(pieces[..i]));
      assert pieces[i][..pieces[i].Length] == pieces[i][..];
    }
    assert pieces[..|pieces|] == pieces;
    digest := c.Final(Joined(pieces));
  }

  lemma {:induction false} JoinedLength(pieces: seq<array<byte>>, n: nat)
    requires n <= |pieces|
    ensures |Joined(pieces[..n])| <= |Joined(pieces)|
  {
    if n < |pieces| {
      assert pieces[..|pieces| - 1][..n] == pieces[..n];
      JoinedLength(pieces[..|pieces| - 1], n);
    } else {
      assert pieces[..n] == pieces;
    }
  }
}
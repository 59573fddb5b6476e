/** Words in memory: little- and big-endian octets, and the macros that exchange them. */
module Words {
  import opened Bytes

  function Zeros(n: nat): (z: bytes)
    ensures |z| == n
  {
    seq(n, _ => 0)
  }

  function Pow256(n: nat): (p: nat)
    ensures p > 0
  {
    if n == 0 then 1 else 256 * Pow256(n - 1)
  }

  /** The value of octets in memory on a little-endian machine. */
  function FromLE(bs: bytes): nat {
    if bs == [] then 0 else bs[0] + 256 * FromLE(bs[1..])
  }

  function ToLE(x: nat, n: nat): (bs: bytes)
    ensures |bs| == n
  {
    if n == 0 then [] else [x % 256] + ToLE(x / 256, n - 1)
  }

  /** Octets as FIPS 180-4 and network protocols order them: the most significant one first. */
  function FromBE(bs: bytes): nat {
    if bs == [] then 0 else 256 * FromBE(bs[..|bs| - 1]) + bs[|bs| - 1]
  }

  function ToBE(x: nat, n: nat): (bs: bytes)
    ensures |bs| == n
  {
    if n == 0 then [] else ToBE(x / 256, n - 1) + [x % 256]
  }

  lemma {:induction false} LittleEndianRoundTrip(x: nat, n: nat)
    requires x < Pow256(n)
    ensures FromLE(ToLE(x, n)) == x
  {
    if n > 0 {
      LittleEndianRoundTrip(x / 256, n - 1);
      assert ToLE(x, n)[1..] == ToLE(x / 256, n - 1);
    }
  }

  lemma {:induction false} LittleEndianOctets(bs: bytes)
    ensures FromLE(bs) < Pow256(|bs|) && ToLE(FromLE(bs), |bs|) == bs
  {
    if bs != [] {
      LittleEndianOctets(bs[1..]);
      assert FromLE(bs) / 256 == FromLE(bs[1..]) && FromLE(bs) % 256 == bs[0];
    }
  }

  lemma {:induction false} BigEndianBound(bs: bytes)
    ensures FromBE(bs) < Pow256(|bs|)
  {
    if bs != [] {
      BigEndianBound(bs[..|bs| - 1]);
    }
  }

  /** Reading the octets of a word in the other order: what REVERSE32 and REVERSE64 do. */
  function Swapped(x: nat, n: nat): nat {
    FromBE(ToLE(x, n))
  }

  /** Loading a word in host order and swapping it gives its big-endian value. */
  lemma SwappedLoad(bs: bytes)
    ensures Swapped(FromLE(bs), |bs|) == FromBE(bs)
  {
    LittleEndianOctets(bs);
  }

  lemma {:induction false} ToLEIsToBEReversed(x: nat, n: nat, i: nat)
    requires i < n
    ensures ToLE(x, n)[i] == ToBE(x, n)[n - 1 - i]
  {
    if i > 0 {
      ToLEIsToBEReversed(x / 256, n - 1, i - 1);
    }
  }

  lemma {:induction false} BigEndianRoundTrip(x: nat, n: nat)
    requires x < Pow256(n)
    ensures FromBE(ToBE(x, n)) == x
  {
    if n > 0 {
      BigEndianRoundTrip(x / 256, n - 1);
      assert ToBE(x, n)[..n - 1] == ToBE(x / 256, n - 1);
    }
  }

  lemma {:induction false} BigEndianOctets(bs: bytes)
    ensures ToBE(FromBE(bs), |bs|) == bs
  {
    if bs != [] {
      BigEndianOctets(bs[..|bs| - 1]);
      assert FromBE(bs) / 256 == FromBE(bs[..|bs| - 1]) && FromBE(bs) % 256 == bs[|bs| - 1];
    }
  }

  lemma {:induction false} BigEndianParts(lo: nat, hi: nat, n: nat, m: nat)
    requires lo < Pow256(m)
    ensures ToBE(lo + Pow256(m) * hi, n + m) == ToBE(hi, n) + ToBE(lo, m)
  {
    if m > 0 {
      var x := lo + Pow256(m) * hi;
      assert Pow256(m) * hi == 256 * (Pow256(m - 1) * hi);
      assert x / 256 == lo / 256 + Pow256(m - 1) * hi && x % 256 == lo % 256;
      BigEndianParts(lo / 256, hi, n, m - 1);
    }
  }

  lemma EightOctets()
    ensures Pow256(8) == 0x1_0000_0000_0000_0000
  {
    assert Pow256(2) == 0x1_0000;
    assert Pow256(4) == 0x1_0000_0000;
    assert Pow256(6) == 0x1_0000_0000_0000;
  }

  /** Storing a swapped word in host order writes its big-endian octets. */
  lemma SwappedStore(x: nat, n: nat)
    requires x < Pow256(n)
    ensures ToLE(Swapped(x, n), n) == ToBE(x, n)
  {
    var le := ToLE(x, n);
    BigEndianOctets(le);
    forall i | 0 <= i < n
      ensures ToLE(FromBE(le), n)[i] == ToBE(x, n)[i]
    {
      ToLEIsToBEReversed(FromBE(le), n, i);
      ToLEIsToBEReversed(x, n, n - 1 - i);
    }
  }

  // ---------- The macros ----------

  function Reverse32(w: bv32): bv32 {
    var tmp := (w >> 16) | (w << 16);
    ((tmp & 0xff00ff00) >> 8) | ((tmp & 0x00ff00ff) << 8)
  }

  /** The word with the given octets, the first one at the lowest address. */
  function Host32(b0: bv32, b1: bv32, b2: bv32, b3: bv32): bv32 {
    b0 | (b1 << 8) | (b2 << 16) | (b3 << 24)
  }

  lemma Reverse32Swaps(b0: bv32, b1: bv32, b2: bv32, b3: bv32)
    requires b0 <= 0xff && b1 <= 0xff && b2 <= 0xff && b3 <= 0xff
    ensures Reverse32(Host32(b0, b1, b2, b3)) == Host32(b3, b2, b1, b0)
  {
  }

  function Reverse64(w: bv64): bv64 {
    var tmp := (w >> 32) | (w << 32);
    var tmp2 := ((tmp & 0xff00ff00ff00ff00) >> 8) | ((tmp & 0x00ff00ff00ff00ff) << 8);
    ((tmp2 & 0xffff0000ffff0000) >> 16) | ((tmp2 & 0x0000ffff0000ffff) << 16)
  }

  function Host64(b0: bv64, b1: bv64, b2: bv64, b3: bv64, b4: bv64, b5: bv64, b6: bv64, b7: bv64): bv64 {
    b0 | (b1 << 8) | (b2 << 16) | (b3 << 24) | (b4 << 32) | (b5 << 40) | (b6 << 48) | (b7 << 56)
  }

  lemma Reverse64Swaps(b0: bv64, b1: bv64, b2: bv64, b3: bv64, b4: bv64, b5: bv64, b6: bv64, b7: bv64)
    requires b0 <= 0xff && b1 <= 0xff && b2 <= 0xff && b3 <= 0xff && b4 <= 0xff && b5 <= 0xff && b6 <= 0xff && b7 <= 0xff
    ensures Reverse64(Host64(b0, b1, b2, b3, b4, b5, b6, b7)) == Host64(b7, b6, b5, b4, b3, b2, b1, b0)
  {
  }
}

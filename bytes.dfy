/** Bytes, big-endian words and bit strings: the arithmetic behind the
    `int.from_bytes`, `int.to_bytes`, binary formatting and `int(s, 2)`
    calls of explorebits.py. */
module Bytes {

  /** One byte of a configuration stream. */
  type Byte = b: int | 0 <= b < 256

  function Pow2(n: nat): (r: nat)
    ensures r >= 1
  {
    if n == 0 then 1 else 2 * Pow2(n - 1)
  }

  function Pow256(n: nat): (r: nat)
    ensures r >= 1
  {
    if n == 0 then 1 else 256 * Pow256(n - 1)
  }

  lemma Pow2Plus8(m: nat)
    ensures Pow2(m + 8) == 256 * Pow2(m)
  {
    assert Pow2(m + 8) == 2 * Pow2(m + 7) == 4 * Pow2(m + 6) == 8 * Pow2(m + 5)
      == 16 * Pow2(m + 4) == 32 * Pow2(m + 3) == 64 * Pow2(m + 2) == 128 * Pow2(m + 1)
      == 256 * Pow2(m);
  }

  /** n bytes hold exactly 8n bits. */
  lemma {:induction false} Pow2Bytes(n: nat)
    ensures Pow2(8 * n) == Pow256(n)
  {
    if n > 0 {
      Pow2Bytes(n - 1);
      Pow2Plus8(8 * (n - 1));
    }
  }

  lemma {:induction false} Pow256Monotone(m: nat, n: nat)
    requires m <= n
    ensures Pow256(m) <= Pow256(n)
  {
    if m < n {
      Pow256Monotone(m, n - 1);
    }
  }

  /** `int.from_bytes(s, byteorder='big')`: the unsigned big-endian value of s. */
  function BeValue(s: seq<Byte>): (v: nat)
    ensures v < Pow256(|s|)
  {
    if s == [] then 0 else 256 * BeValue(s[..|s| - 1]) + s[|s| - 1]
  }

  /** `v.to_bytes(n, byteorder='big')`, which Python defines only when v fits in n bytes. */
  function BeBytes(v: nat, n: nat): (s: seq<Byte>)
    requires v < Pow256(n)
    ensures |s| == n
  {
    if n == 0 then [] else BeBytes(v / 256, n - 1) + [v % 256]
  }

  /** Decoding what was encoded gives the value back. */
  lemma {:induction false} BeValueOfBeBytes(v: nat, n: nat)
    requires v < Pow256(n)
    ensures BeValue(BeBytes(v, n)) == v
  {
    if n > 0 {
      var s := BeBytes(v, n);
      assert s[..n - 1] == BeBytes(v / 256, n - 1);
      BeValueOfBeBytes(v / 256, n - 1);
    }
  }

  /** Encoding a decoded value at its own width gives the bytes back. */
  lemma {:induction false} BeBytesOfBeValue(s: seq<Byte>)
    ensures BeBytes(BeValue(s), |s|) == s
  {
    if s != [] {
      var init := s[..|s| - 1];
      BeBytesOfBeValue(init);
      assert BeValue(s) / 256 == BeValue(init);
      assert BeValue(s) % 256 == s[|s| - 1];
      assert s == init + [s[|s| - 1]];
    }
  }

  /** The value of four bytes, written out. */
  lemma BeValue4(s: seq<Byte>)
    requires |s| == 4
    ensures BeValue(s) == (s[0] as int) * 0x100_0000 + (s[1] as int) * 0x1_0000 + (s[2] as int) * 0x100 + s[3]
  {
    var s1, s2, s3 := s[..1], s[..2], s[..3];
    assert s1[..0] == [] && s1[0] == s[0];
    assert s2[..1] == s1 && s2[1] == s[1];
    assert s3[..2] == s2 && s3[2] == s[2];
    assert s[..3] == s3;
    assert BeValue(s1) == s[0];
    assert BeValue(s2) == 256 * BeValue(s1) + s[1];
    assert BeValue(s3) == 256 * BeValue(s2) + s[2];
    assert BeValue(s) == 256 * BeValue(s3) + s[3];
  }

  /** Python clamps a slice bound to the length of the sequence: the
      non-negative case of `Container.SliceBound`. */
  function Clamp(i: nat, n: nat): nat
  {
    if i <= n then i else n
  }

  lemma SliceValueBound(s: seq<Byte>)
    requires |s| <= 4
    ensures BeValue(s) < 0x1_0000_0000
    ensures |s| < 4 ==> BeValue(s) < 0x100_0000
  {
    Pow256Monotone(|s|, 4);
    if |s| < 4 {
      Pow256Monotone(|s|, 3);
    }
  }

  /** `int.from_bytes(buf[p:p+4], byteorder='big')`. A read that runs past the
      end of the buffer takes the value of the shorter slice Python returns
      (zero when the slice is empty), as the source does. */
  function WordAt(buf: seq<Byte>, p: nat): (w: nat)
    ensures w < 0x1_0000_0000
    ensures p + 4 > |buf| ==> w < 0x100_0000
    ensures p >= |buf| ==> w == 0
  {
    var s := buf[Clamp(p, |buf|)..Clamp(p + 4, |buf|)];
    SliceValueBound(s);
    BeValue(s)
  }

  /** The value of a read: the four bytes at p inside the buffer, and the
      bytes that remain when the read runs past the end. */
  lemma WordAtValue(buf: seq<Byte>, p: nat)
    ensures p + 4 <= |buf| ==> WordAt(buf, p) == BeValue(buf[p..p + 4])
    ensures p < |buf| < p + 4 ==> WordAt(buf, p) == BeValue(buf[p..])
  {
    if p < |buf| < p + 4 {
      assert buf[Clamp(p, |buf|)..Clamp(p + 4, |buf|)] == buf[p..];
    }
  }

  /** The width low bits of v, most significant first. For v < Pow2(width),
      which `ReverseBits` requires, this is `'{:0{width}b}'.format(v)`;
      Python prints every bit of a larger value. */
  function ToBits(v: nat, width: nat): (bits: seq<bool>)
    ensures |bits| == width
  {
    if width == 0 then [] else ToBits(v / 2, width - 1) + [v % 2 == 1]
  }

  /** `int(bits, 2)`. */
  function FromBits(bits: seq<bool>): (v: nat)
    ensures v < Pow2(|bits|)
  {
    if bits == [] then 0
    else 2 * FromBits(bits[..|bits| - 1]) + (if bits[|bits| - 1] then 1 else 0)
  }

  /** `s[::-1]`. */
  function Reverse<T>(s: seq<T>): (r: seq<T>)
    ensures |r| == |s|
    ensures forall i :: 0 <= i < |s| ==> r[i] == s[|s| - 1 - i]
  {
    if s == [] then [] else [s[|s| - 1]] + Reverse(s[..|s| - 1])
  }

  /** `int('{:0{width}b}'.format(v)[::-1], 2)` for a value that fits in width bits. */
  function ReverseBits(v: nat, width: nat): (r: nat)
    requires v < Pow2(width)
    ensures r < Pow2(width)
  {
    FromBits(Reverse(ToBits(v, width)))
  }

  lemma {:induction false} FromBitsOfToBits(v: nat, width: nat)
    requires v < Pow2(width)
    ensures FromBits(ToBits(v, width)) == v
  {
    if width > 0 {
      var bits := ToBits(v, width);
      assert bits[..width - 1] == ToBits(v / 2, width - 1);
      FromBitsOfToBits(v / 2, width - 1);
    }
  }

  lemma {:induction false} ToBitsOfFromBits(bits: seq<bool>)
    ensures ToBits(FromBits(bits), |bits|) == bits
  {
    if bits != [] {
      var init := bits[..|bits| - 1];
      ToBitsOfFromBits(init);
      var v := FromBits(bits);
      assert v / 2 == FromBits(init);
      assert (v % 2 == 1) == bits[|bits| - 1];
      assert bits == init + [bits[|bits| - 1]];
    }
  }

  /** Bit i of the reversed value is bit width-1-i of the original. */
  lemma ReverseBitsReverses(v: nat, width: nat)
    requires v < Pow2(width)
    ensures ToBits(ReverseBits(v, width), width) == Reverse(ToBits(v, width))
  {
    ToBitsOfFromBits(Reverse(ToBits(v, width)));
  }

  /** Reversing the bits twice gives the value back. */
  lemma ReverseBitsInvolution(v: nat, width: nat)
    requires v < Pow2(width)
    ensures ReverseBits(ReverseBits(v, width), width) == v
  {
    var bits := ToBits(v, width);
    ReverseBitsReverses(v, width);
    assert Reverse(Reverse(bits)) == bits;
    FromBitsOfToBits(v, width);
  }
}

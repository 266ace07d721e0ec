/** Bytes, 64-bit counters and the byte-level operations of the container format. */
module Bytes {
  type byte = x: int | 0 <= x < 256
  const U64: int := 0x1_0000_0000_0000_0000
  type uint64 = x: int | 0 <= x < U64

  datatype Option<+T> = None | Some(value: T)

  /** Go's `counter++` on a uint64. */
  function Inc(c: uint64): uint64 { (c + 1) % U64 }

  lemma IncWraps(k: nat)
    ensures Inc(k % U64) == (k + 1) % U64
  {
  }

  /** Go's `byte(c >> (8*i))`: shift right by whole bytes, keep the low byte. */
  function ByteOf(c: nat, i: nat): byte {
    if i == 0 then c % 256 else ByteOf(c / 256, i - 1)
  }

  /** Bitwise exclusive or of the low `bits` bits. */
  function XorBits(a: nat, b: nat, bits: nat): (r: nat)
    ensures r < Pow(2, bits)
  {
    if bits == 0 then 0
    else (if a % 2 == b % 2 then 0 else 1) + 2 * XorBits(a / 2, b / 2, bits - 1)
  }

  function Xor(a: byte, b: byte): byte {
    assert Pow(2, 8) == 256;
    XorBits(a, b, 8)
  }

  function Pow(b: nat, e: nat): nat {
    if e == 0 then 1 else b * Pow(b, e - 1)
  }

  lemma LowBit(low: nat, high: nat)
    requires low < 2
    ensures (low + 2 * high) % 2 == low && (low + 2 * high) / 2 == high
  {
  }

  /** Bit i of x, counted from the lowest. */
  predicate Bit(x: nat, i: nat) {
    if i == 0 then x % 2 == 1 else Bit(x / 2, i - 1)
  }

  /** A bit of the result is set exactly when that bit of the operands differs. */
  lemma {:induction false} XorBitAt(a: nat, b: nat, bits: nat, i: nat)
    requires i < bits
    ensures Bit(XorBits(a, b, bits), i) <==> Bit(a, i) != Bit(b, i)
  {
    var low, high := if a % 2 == b % 2 then 0 else 1, XorBits(a / 2, b / 2, bits - 1);
    LowBit(low, high);
    if i > 0 {
      XorBitAt(a / 2, b / 2, bits - 1, i - 1);
    }
  }

  lemma {:induction false} XorZero(a: nat, bits: nat)
    requires a < Pow(2, bits)
    ensures XorBits(a, 0, bits) == a
  {
    if bits > 0 {
      XorZero(a / 2, bits - 1);
    }
  }

  lemma {:induction false} XorBitsInvolution(a: nat, b: nat, bits: nat)
    requires a < Pow(2, bits)
    ensures XorBits(XorBits(a, b, bits), b, bits) == a
  {
    if bits > 0 {
      var low, high := if a % 2 == b % 2 then 0 else 1, XorBits(a / 2, b / 2, bits - 1);
      LowBit(low, high);
      XorBitsInvolution(a / 2, b / 2, bits - 1);
    }
  }

  lemma XorInvolution(a: byte, b: byte)
    ensures Xor(Xor(a, b), b) == a
  {
    assert Pow(2, 8) == 256;
    XorBitsInvolution(a, b, 8);
  }

  lemma {:induction false} XorBitsCommutes(a: nat, b: nat, bits: nat)
    ensures XorBits(a, b, bits) == XorBits(b, a, bits)
  {
    if bits > 0 {
      XorBitsCommutes(a / 2, b / 2, bits - 1);
    }
  }

  /** For a fixed left operand, exclusive or is injective in the right one. */
  lemma XorCancels(a: byte, b: byte, b': byte)
    requires Xor(a, b) == Xor(a, b')
    ensures b == b'
  {
    XorBitsCommutes(a, b, 8);
    XorBitsCommutes(a, b', 8);
    XorInvolution(b, a);
    XorInvolution(b', a);
  }

  /** A number below 256^n is determined by its n low bytes. */
  lemma {:induction false} BytesDetermine(c: nat, d: nat, n: nat)
    requires c < Pow(256, n) && d < Pow(256, n)
    requires forall i: nat :: i < n ==> ByteOf(c, i) == ByteOf(d, i)
    ensures c == d
  {
    if n > 0 {
      assert ByteOf(c, 0) == ByteOf(d, 0);
      forall i: nat | i < n - 1
        ensures ByteOf(c / 256, i) == ByteOf(d / 256, i)
      {
        assert ByteOf(c, i + 1) == ByteOf(d, i + 1);
      }
      BytesDetermine(c / 256, d / 256, n - 1);
    }
  }

  /** A byte string as a number, most significant byte first. */
  function BigEndian(s: seq<byte>): nat {
    if s == [] then 0 else 256 * BigEndian(s[..|s| - 1]) + s[|s| - 1]
  }

  function Shift(c: nat, k: nat): nat {
    if k == 0 then c else 2 * Shift(c, k - 1)
  }

  lemma ShiftByte(c: nat)
    ensures Shift(c, 8) == 256 * c
  {
    assert Shift(c, 1) == 2 * c;
    assert Shift(c, 3) == 8 * c;
    assert Shift(c, 5) == 32 * c;
    assert Shift(c, 7) == 128 * c;
  }

  lemma Halve(high: nat, low: nat)
    ensures (2 * high + low) % 2 == low % 2 && (2 * high + low) / 2 == high + low / 2
  {
  }

  /** The bits of `low` come first, those of `high` after them. */
  lemma {:induction false} BitsSplit(high: nat, low: nat, m: nat, k: nat)
    requires low < Pow(2, m)
    ensures Bit(Shift(high, m) + low, k) <==> if k < m then Bit(low, k) else Bit(high, k - m)
  {
    if m > 0 {
      Halve(Shift(high, m - 1), low);
      if k > 0 {
        BitsSplit(high, low / 2, m - 1, k - 1);
      }
    }
  }

  /** Byte i of c holds its bits 8i to 8i+7. */
  lemma {:induction false} ByteBits(c: nat, i: nat, k: nat)
    requires k < 8
    ensures Bit(ByteOf(c, i), k) <==> Bit(c, 8 * i + k)
  {
    assert Pow(2, 8) == 256;
    ShiftByte(c / 256);
    BitsSplit(c / 256, c % 256, 8, 8 * i + k);
    if i > 0 {
      ByteBits(c / 256, i - 1, k);
      assert 8 * i + k - 8 == 8 * (i - 1) + k;
    }
  }

  /** Exclusive or works on the k low bits and on the rest separately. */
  lemma {:induction false} XorSplit(a: nat, b: nat, k: nat, c: nat, d: nat, n: nat)
    requires a < Pow(2, k) && b < Pow(2, k)
    ensures XorBits(Shift(c, k) + a, Shift(d, k) + b, k + n) == Shift(XorBits(c, d, n), k) + XorBits(a, b, k)
  {
    if k > 0 {
      Halve(Shift(c, k - 1), a);
      Halve(Shift(d, k - 1), b);
      XorSplit(a / 2, b / 2, k - 1, c, d, n);
    }
  }

  /** Exclusive or byte by byte is exclusive or of the numbers. */
  lemma {:induction false} XorBytewise(s: seq<byte>, t: seq<byte>, u: seq<byte>)
    requires |s| == |t| == |u| && forall i :: 0 <= i < |s| ==> u[i] == Xor(s[i], t[i])
    ensures BigEndian(u) == XorBits(BigEndian(s), BigEndian(t), 8 * |s|)
  {
    if s != [] {
      var m := |s| - 1;
      XorBytewise(s[..m], t[..m], u[..m]);
      assert Pow(2, 8) == 256;
      var x, y := BigEndian(s[..m]), BigEndian(t[..m]);
      XorSplit(s[m], t[m], 8, x, y, 8 * m);
      ShiftByte(x);
      ShiftByte(y);
      ShiftByte(XorBits(x, y, 8 * m));
    }
  }

  /** A number below 256^n is its n low bytes, most significant first. */
  lemma {:induction false} BytesOfNumber(c: nat, s: seq<byte>)
    requires c < Pow(256, |s|) && forall j :: 0 <= j < |s| ==> s[j] == ByteOf(c, |s| - 1 - j)
    ensures BigEndian(s) == c
  {
    if s != [] {
      var m := |s| - 1;
      forall j | 0 <= j < m ensures s[..m][j] == ByteOf(c / 256, m - 1 - j) {
        assert s[j] == ByteOf(c, m - j);
      }
      BytesOfNumber(c / 256, s[..m]);
    }
  }

  /** What a destination that takes at most `room` more bytes keeps of s. */
  function Fit<T>(s: seq<T>, room: Option<nat>): seq<T> {
    if room.Some? && room.value < |s| then s[..room.value] else s
  }

  predicate Fits<T>(s: seq<T>, room: Option<nat>) {
    room.Some? ==> |s| <= room.value
  }

  function Flatten<T>(ss: seq<seq<T>>): seq<T> {
    if ss == [] then [] else ss[0] + Flatten(ss[1..])
  }
}

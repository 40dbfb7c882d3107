// lib/endian.hh: little-endian numbers of 1 to 8 bytes, in the portable byte-wise forms. The functions choose by
// width, and the cases of their switches fall through into each other. Shifted bytes never overlap, so their bitwise
// or is a sum.
module Endian {
  import opened SearchSpec

  /** The n low bytes of v, lowest first. */
  function LittleEndian(v: nat, n: nat): (s: seq<Byte>)
    ensures |s| == n
  {
    if n == 0 then [] else [v % 256] + LittleEndian(v / 256, n - 1)
  }

  function FromLittleEndian(s: seq<Byte>): nat {
    if s == [] then 0 else s[0] + 256 * FromLittleEndian(s[1..])
  }

  function Pow256(n: nat): nat {
    if n == 0 then 1 else 256 * Pow256(n - 1)
  }

  /** The lowest byte comes first. */
  lemma LowByteFirst(low: Byte, rest: nat, n: nat, s: seq<Byte>)
    ensures LittleEndian(low + 256 * rest, n + 1) == [low] + LittleEndian(rest, n)
    ensures FromLittleEndian([low] + s) == low + 256 * FromLittleEndian(s)
  {
    assert ([low] + s)[1..] == s;
  }

  /** A number that fits comes back; one that does not loses its high bytes. */
  lemma {:induction false} RoundTrip(v: nat, n: nat)
    ensures FromLittleEndian(LittleEndian(v, n)) < Pow256(n)
    ensures v < Pow256(n) <==> FromLittleEndian(LittleEndian(v, n)) == v
  {
    if n != 0 {
      RoundTrip(v / 256, n - 1);
      assert LittleEndian(v, n)[1..] == LittleEndian(v / 256, n - 1);
    }
  }

  // ---- Reading ----

  function Get8(data: seq<Byte>, p: nat): nat
    requires p < |data|
  {
    data[p]
  }

  function Get16(data: seq<Byte>, p: nat): nat
    requires p + 2 <= |data|
  {
    Get8(data, p) + 0x100 * Get8(data, p + 1)
  }

  function Get32(data: seq<Byte>, p: nat): nat
    requires p + 4 <= |data|
  {
    Get16(data, p) + 0x1_0000 * Get16(data, p + 2)
  }

  function Get64(data: seq<Byte>, p: nat): nat
    requires p + 8 <= |data|
  {
    Get32(data, p) + 0x1_0000_0000 * Get32(data, p + 4)
  }

  /** get_n: the cases of the switch fall through from 7 to 6, 5, 3 and 1. */
  function GetN(data: seq<Byte>, p: nat, bytes: nat): nat
    requires 1 <= bytes <= 8 && p + bytes <= |data|
  {
    if bytes == 8 then Get64(data, p)
    else if bytes == 4 then Get32(data, p)
    else if bytes == 2 then Get16(data, p)
    else
      (if bytes >= 7 then Get8(data, p + 6) * 0x1_0000_0000_0000 else 0)
      + (if bytes >= 6 then Get8(data, p + 5) * 0x100_0000_0000 else 0)
      + (if bytes >= 5 then Get16(data, p + 3) * 0x100_0000 else 0)
      + (if bytes >= 3 then Get16(data, p + 1) * 0x100 else 0)
      + Get8(data, p)
  }

  lemma SliceStep(data: seq<Byte>, p: nat, n: nat)
    requires 0 < n && p + n <= |data|
    ensures FromLittleEndian(data[p..p + n]) == data[p] + 256 * FromLittleEndian(data[p + 1..p + n])
  {
    assert data[p..p + n][1..] == data[p + 1..p + n];
  }

  lemma UpTo4(data: seq<Byte>, p: nat, n: nat)
    requires 0 < n <= 4 && p + n <= |data|
    ensures FromLittleEndian(data[p..p + n])
            == Get8(data, p) + (if n > 1 then 0x100 * Get8(data, p + 1) else 0)
               + (if n > 2 then 0x1_0000 * Get8(data, p + 2) else 0)
               + (if n > 3 then 0x100_0000 * Get8(data, p + 3) else 0)
  {
    assert data[p + n..p + n] == [];
    SliceStep(data, p, n);
    if n > 1 {
      SliceStep(data, p + 1, n - 1);
    }
    if n > 2 {
      SliceStep(data, p + 2, n - 2);
    }
    if n > 3 {
      SliceStep(data, p + 3, n - 3);
    }
  }

  lemma Above4(data: seq<Byte>, p: nat, n: nat)
    requires 4 < n && p + n <= |data|
    ensures FromLittleEndian(data[p..p + n])
            == Get8(data, p) + 0x100 * Get8(data, p + 1) + 0x1_0000 * Get8(data, p + 2) + 0x100_0000 * Get8(data, p + 3)
               + 0x1_0000_0000 * FromLittleEndian(data[p + 4..p + n])
  {
    SliceStep(data, p, n);
    SliceStep(data, p + 1, n - 1);
    SliceStep(data, p + 2, n - 2);
    SliceStep(data, p + 3, n - 3);
  }

  /** Every width reads the bytes as one little-endian number. */
  lemma GetNReads(data: seq<Byte>, p: nat, bytes: nat)
    requires 1 <= bytes <= 8 && p + bytes <= |data|
    ensures GetN(data, p, bytes) == FromLittleEndian(data[p..p + bytes])
  {
    hide FromLittleEndian;
    if bytes <= 4 {
      UpTo4(data, p, bytes);
    } else {
      Above4(data, p, bytes);
      UpTo4(data, p + 4, bytes - 4);
      assert p + 4 + (bytes - 4) == p + bytes;
    }
  }

  // ---- Writing ----

  /** data with bytes written over it from p on. */
  function Over(data: seq<Byte>, p: nat, bytes: seq<Byte>): (r: seq<Byte>)
    requires p + |bytes| <= |data|
    ensures |r| == |data|
  {
    data[..p] + bytes + data[p + |bytes|..]
  }

  lemma OverSplit(data: seq<Byte>, p: nat, low: seq<Byte>, high: seq<Byte>)
    requires p + |low| + |high| <= |data|
    ensures Over(Over(data, p + |low|, high), p, low) == Over(data, p, low + high)
  {
  }

  /** v >> 8 * m. */
  function Shift(v: nat, m: nat): nat {
    if m == 0 then v else Shift(v / 256, m - 1)
  }

  lemma {:induction false} DigitsSplit(v: nat, m: nat, n: nat)
    ensures LittleEndian(v, m + n) == LittleEndian(v, m) + LittleEndian(Shift(v, m), n)
  {
    if m != 0 {
      DigitsSplit(v / 256, m - 1, n);
      assert LittleEndian(v, m) == [v % 256] + LittleEndian(v / 256, m - 1);
    }
  }

  lemma Shifts(v: nat)
    ensures Shift(v, 1) == v / 0x100 && Shift(v, 2) == v / 0x1_0000 && Shift(v, 4) == v / 0x1_0000_0000
  {
    assert Shift(v, 2) == Shift(v / 256, 1) == v / 256 / 256;
    assert Shift(v, 4) == Shift(v / 256, 3) == Shift(v / 256 / 256, 2) == v / 256 / 256 / 256 / 256;
  }

  lemma Digit(v: nat)
    ensures LittleEndian(v, 1) == [v % 256]
  {
    assert LittleEndian(v / 256, 0) == [];
  }

  method Put8(data: array<Byte>, p: nat, value: nat)
    requires p + 1 <= data.Length
    modifies data
    ensures data[..] == Over(old(data[..]), p, LittleEndian(value, 1))
  {
    Digit(value);
    data[p] := value % 256;
  }

  method Put16(data: array<Byte>, p: nat, value: nat)
    requires p + 2 <= data.Length
    modifies data
    ensures data[..] == Over(old(data[..]), p, LittleEndian(value, 2))
  {
    DigitsSplit(value, 1, 1);
    Shifts(value);
    hide LittleEndian, Shift;
    Put8(data, p, value);
    Put8(data, p + 1, value / 0x100);
  }

  method Put24(data: array<Byte>, p: nat, value: nat)
    requires p + 3 <= data.Length
    modifies data
    ensures data[..] == Over(old(data[..]), p, LittleEndian(value, 3))
  {
    DigitsSplit(value, 2, 1);
    Shifts(value);
    hide LittleEndian, Shift;
    Put16(data, p, value);
    Put8(data, p + 2, value / 0x1_0000);
  }

  method Put32(data: array<Byte>, p: nat, value: nat)
    requires p + 4 <= data.Length
    modifies data
    ensures data[..] == Over(old(data[..]), p, LittleEndian(value, 4))
  {
    DigitsSplit(value, 2, 2);
    Shifts(value);
    hide LittleEndian, Shift;
    Put16(data, p, value);
    Put16(data, p + 2, value / 0x1_0000);
  }

  method Put64(data: array<Byte>, p: nat, value: nat)
    requires p + 8 <= data.Length
    modifies data
    ensures data[..] == Over(old(data[..]), p, LittleEndian(value, 8))
  {
    DigitsSplit(value, 4, 4);
    Shifts(value);
    hide LittleEndian, Shift;
    Put32(data, p, value);
    Put32(data, p + 4, value / 0x1_0000_0000);
  }

  /** The highest byte written first, and then the others. */
  lemma HighByteFirst(data: seq<Byte>, p: nat, value: nat, bytes: nat)
    requires 5 <= bytes <= 7 && p + bytes <= |data|
    ensures var top := if bytes == 7 then value / 0x1_0000_0000_0000
                       else if bytes == 6 then value / 0x100_0000_0000
                       else value / 0x1_0000_0000;
            Over(Over(data, p + bytes - 1, LittleEndian(top, 1)), p, LittleEndian(value, bytes - 1))
            == Over(data, p, LittleEndian(value, bytes))
  {
    DigitsSplit(value, bytes - 1, 1);
    HighShifts(value);
    OverSplit(data, p, LittleEndian(value, bytes - 1), LittleEndian(Shift(value, bytes - 1), 1));
    hide LittleEndian, Shift, Over;
  }

  /** put_n: the cases of the switch from 7 down to 5 write one byte each and fall through. */
  method PutN(data: array<Byte>, p: nat, value: nat, bytes: nat)
    requires 1 <= bytes <= 8 && p + bytes <= data.Length
    modifies data
    ensures data[..] == Over(old(data[..]), p, LittleEndian(value, bytes))
    decreases bytes
  {
    hide *;
    if bytes == 8 {
      Put64(data, p, value);
    } else if bytes >= 5 {
      HighByteFirst(data[..], p, value, bytes);
      Put8(data, p + bytes - 1,
           if bytes == 7 then value / 0x1_0000_0000_0000
           else if bytes == 6 then value / 0x100_0000_0000
           else value / 0x1_0000_0000);
      PutN(data, p, value, bytes - 1);
    } else if bytes == 4 {
      Put32(data, p, value);
    } else if bytes == 3 {
      Put24(data, p, value);
    } else if bytes == 2 {
      Put16(data, p, value);
    } else {
      Put8(data, p, value);
    }
  }

  lemma HighShifts(v: nat)
    ensures Shift(v, 4) == v / 0x1_0000_0000 && Shift(v, 5) == v / 0x100_0000_0000
            && Shift(v, 6) == v / 0x1_0000_0000_0000
  {
    Shifts(v);
    ShiftMore(v, 4);
    ShiftMore(v, 5);
  }

  lemma {:induction false} ShiftMore(v: nat, m: nat)
    ensures Shift(v, m + 1) == Shift(v, m) / 256
  {
    if m != 0 {
      ShiftMore(v / 256, m - 1);
    }
  }

  /** A number written at any width the format uses is read back, when it fits. */
  lemma PutThenGet(data: seq<Byte>, p: nat, value: nat, bytes: nat)
    requires 1 <= bytes <= 8 && p + bytes <= |data|
    ensures GetN(Over(data, p, LittleEndian(value, bytes)), p, bytes) == value <==> value < Pow256(bytes)
  {
    var data' := Over(data, p, LittleEndian(value, bytes));
    assert data'[p..p + bytes] == LittleEndian(value, bytes);
    GetNReads(data', p, bytes);
    RoundTrip(value, bytes);
  }
}

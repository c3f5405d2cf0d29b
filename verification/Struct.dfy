/**
 The part of Python's `struct` module the generated code uses: little-endian,
 standard sizes, integer format characters.
 */
module Struct {
  import opened Bits
  import opened Wrappers

  type byte = b: int | 0 <= b < 256

  /** 'B', 'H', 'I' (or 'L'), 'Q' and their signed counterparts. */
  datatype Code = Code(width: nat, signed: bool)

  function CalcSize(fmt: seq<Code>): nat {
    if fmt == [] then 0 else fmt[0].width + CalcSize(fmt[1..])
  }

  predicate InRange(c: Code, v: int) {
    if c.signed && c.width > 0 then
      var half: int := Pow2(8 * c.width - 1);
      -half <= v && v < half
    else
      0 <= v < Pow2(8 * c.width)
  }

  function ToBytes(v: int, n: nat): (b: seq<byte>)
    ensures |b| == n
    decreases n
  {
    if n == 0 then [] else [v % 256] + ToBytes(v / 256, n - 1)
  }

  function FromBytes(b: seq<byte>): (v: nat) {
    if b == [] then 0 else b[0] + 256 * FromBytes(b[1..])
  }

  /** Two's complement reading of the unsigned value u of n bytes. */
  function SignExtend(u: nat, n: nat): int {
    if n > 0 && u >= Pow2(8 * n - 1) then u - Pow2(8 * n) else u
  }

  function ReadOne(c: Code, b: seq<byte>): int {
    if c.signed then SignExtend(FromBytes(b), c.width) else FromBytes(b)
  }

  /** `struct.pack`: `struct.error` on a wrong number of values or one out of range. */
  function Pack(fmt: seq<Code>, vals: seq<int>): Option<seq<byte>> {
    if fmt == [] then
      if vals == [] then Some([]) else None
    else if vals == [] || !InRange(fmt[0], vals[0]) then None
    else
      match Pack(fmt[1..], vals[1..])
      case None => None
      case Some(rest) => Some(ToBytes(vals[0], fmt[0].width) + rest)
  }

  function Unpack(fmt: seq<Code>, b: seq<byte>): (vals: seq<int>)
    requires |b| == CalcSize(fmt)
    ensures |vals| == |fmt|
  {
    if fmt == [] then []
    else [ReadOne(fmt[0], b[..fmt[0].width])] + Unpack(fmt[1..], b[fmt[0].width..])
  }

  lemma Pow256(n: nat)
    ensures Pow2(8 * (n + 1)) == 256 * Pow2(8 * n)
  {
    Pow2Add(8, 8 * n);
    assert Pow2(8) == 256;
  }

  lemma {:induction false} BytesRoundTrip(v: int, n: nat)
    ensures FromBytes(ToBytes(v, n)) == v % Pow2(8 * n)
    decreases n
  {
    if n > 0 {
      BytesRoundTrip(v / 256, n - 1);
      Pow256(n - 1);
      DivDiv(v, 256, Pow2(8 * (n - 1)));
      assert ToBytes(v, n)[1..] == ToBytes(v / 256, n - 1);
    }
  }

  lemma OneRoundTrip(c: Code, v: int)
    requires InRange(c, v)
    ensures ReadOne(c, ToBytes(v, c.width)) == v
  {
    BytesRoundTrip(v, c.width);
    if c.signed && c.width > 0 {
      assert Pow2(8 * c.width) == 2 * Pow2(8 * c.width - 1);
      if v < 0 {
        RemainderIs(v, Pow2(8 * c.width), -1, v + Pow2(8 * c.width));
      } else {
        RemainderIs(v, Pow2(8 * c.width), 0, v);
      }
    } else {
      RemainderIs(v, Pow2(8 * c.width), 0, v);
    }
  }

  /** What was packed is what is unpacked, and the bytes have the size of the format. */
  lemma {:induction false} PackUnpack(fmt: seq<Code>, vals: seq<int>)
    requires Pack(fmt, vals).Some?
    ensures |Pack(fmt, vals).value| == CalcSize(fmt)
    ensures Unpack(fmt, Pack(fmt, vals).value) == vals
  {
    if fmt != [] {
      PackUnpack(fmt[1..], vals[1..]);
      var first, rest := ToBytes(vals[0], fmt[0].width), Pack(fmt[1..], vals[1..]).value;
      OneRoundTrip(fmt[0], vals[0]);
      assert (first + rest)[..fmt[0].width] == first;
      assert (first + rest)[fmt[0].width..] == rest;
    }
  }

  /** Packing succeeds exactly on as many values as slots, each in the range of its slot. */
  lemma {:induction false} PackSucceeds(fmt: seq<Code>, vals: seq<int>)
    ensures Pack(fmt, vals).Some? <==>
            |vals| == |fmt| && forall i :: 0 <= i < |fmt| ==> InRange(fmt[i], vals[i])
  {
    if fmt != [] && vals != [] {
      PackSucceeds(fmt[1..], vals[1..]);
      if |vals| == |fmt| && InRange(fmt[0], vals[0]) {
        assert forall i :: 0 < i < |fmt| ==> fmt[1..][i - 1] == fmt[i] && vals[1..][i - 1] == vals[i];
        assert forall i :: 0 <= i < |fmt| - 1 ==> fmt[1..][i] == fmt[i + 1] && vals[1..][i] == vals[i + 1];
      }
    }
  }

  lemma {:induction false} CalcSizeConcat(a: seq<Code>, b: seq<Code>)
    ensures CalcSize(a + b) == CalcSize(a) + CalcSize(b)
  {
    if a == [] {
      assert a + b == b;
    } else {
      CalcSizeConcat(a[1..], b);
      assert (a + b)[1..] == a[1..] + b;
    }
  }

  // ---- the bytes themselves ----

  lemma DivisorsCommute(v: int, i: nat)
    ensures v / 256 / Pow2(8 * i) == v / Pow2(8 * (i + 1))
  {
    Pow256(i);
    DivDiv(v, 256, Pow2(8 * i));
  }

  lemma {:induction false} ByteOf(v: int, n: nat, i: nat)
    requires i < n
    ensures ToBytes(v, n)[i] == v / Pow2(8 * i) % 256
    decreases n
  {
    assert Pow2(0) == 1;
    if i > 0 {
      ByteOf(v / 256, n - 1, i - 1);
      DivisorsCommute(v, i - 1);
    }
  }

  /**
   Little-endian: byte i of slot k, which begins behind the slots before it, is digit i of
   the packed value to base 256, least significant first; of a negative value that of its
   two's complement.
   */
  lemma {:induction false} PackedBytes(fmt: seq<Code>, vals: seq<int>, k: nat, i: nat, at: nat)
    requires Pack(fmt, vals).Some? && k < |fmt| && i < fmt[k].width && at == CalcSize(fmt[..k]) + i
    ensures |vals| == |fmt| && at < |Pack(fmt, vals).value|
    ensures Pack(fmt, vals).value[at] == vals[k] / Pow2(8 * i) % 256
    decreases |fmt|
  {
    PackSucceeds(fmt, vals);
    var first, rest := ToBytes(vals[0], fmt[0].width), Pack(fmt[1..], vals[1..]).value;
    assert Pack(fmt, vals).value == first + rest;
    if k == 0 {
      ByteOf(vals[0], fmt[0].width, i);
    } else {
      assert fmt[..k][1..] == fmt[1..][..k - 1];
      PackedBytes(fmt[1..], vals[1..], k - 1, i, at - fmt[0].width);
    }
  }

  /** The number whose digits to base 256 are the n bytes from `at` on, least significant first. */
  function PlaceValue(b: seq<byte>, at: nat, n: nat): nat
    requires at + n <= |b|
  {
    if n == 0 then 0 else PlaceValue(b, at, n - 1) + b[at + n - 1] * Pow2(8 * (n - 1))
  }

  lemma {:induction false} PlaceValueShift(b: seq<byte>, b': seq<byte>, at: nat, at': nat, n: nat)
    requires at + n <= |b| && at' + n <= |b'| && b'[at'..at' + n] == b[at..at + n]
    ensures PlaceValue(b', at', n) == PlaceValue(b, at, n)
  {
    if n > 0 {
      assert b[at + n - 1] == b[at..at + n][n - 1] && b'[at' + n - 1] == b'[at'..at' + n][n - 1];
      assert b[at..at + n - 1] == b[at..at + n][..n - 1] && b'[at'..at' + n - 1] == b'[at'..at' + n][..n - 1];
      PlaceValueShift(b, b', at, at', n - 1);
    }
  }

  /** Taking the lowest digit off. */
  lemma {:induction false} LowestDigit(b: seq<byte>, n: nat)
    requires n < |b|
    ensures PlaceValue(b, 0, n + 1) == b[0] + 256 * PlaceValue(b, 1, n)
  {
    if n > 0 {
      LowestDigit(b, n - 1);
      Pow256(n - 1);
      var d, p := b[n], Pow2(8 * (n - 1));
      assert d * (256 * p) == 256 * (d * p);
    } else {
      assert Pow2(0) == 1 && PlaceValue(b, 0, 0) == 0 && PlaceValue(b, 1, 0) == 0;
    }
  }

  lemma {:induction false} FromBytesIs(b: seq<byte>)
    ensures FromBytes(b) == PlaceValue(b, 0, |b|)
  {
    if b != [] {
      FromBytesIs(b[1..]);
      LowestDigit(b, |b| - 1);
      PlaceValueShift(b, b[1..], 1, 0, |b| - 1);
    }
  }

  lemma {:induction false} UnpackedSlot(fmt: seq<Code>, b: seq<byte>, k: nat, at: nat)
    requires |b| == CalcSize(fmt) && k < |fmt| && at == CalcSize(fmt[..k])
    ensures at + fmt[k].width <= |b| && Unpack(fmt, b)[k] == ReadOne(fmt[k], b[at..at + fmt[k].width])
    decreases |fmt|
  {
    var w := fmt[0].width;
    if k > 0 {
      assert fmt[..k][1..] == fmt[1..][..k - 1];
      UnpackedSlot(fmt[1..], b[w..], k - 1, at - w);
      assert b[w..][at - w..at - w + fmt[k].width] == b[at..at + fmt[k].width];
    }
  }

  /**
   Slot k is read from its bytes least significant first: an unsigned one as their number,
   a signed one as the two's complement of it.
   */
  lemma UnpackedValue(fmt: seq<Code>, b: seq<byte>, k: nat, at: nat)
    requires |b| == CalcSize(fmt) && k < |fmt| && at == CalcSize(fmt[..k])
    ensures at + fmt[k].width <= |b|
    ensures var n, u := fmt[k].width, PlaceValue(b, at, fmt[k].width);
            Unpack(fmt, b)[k] == if fmt[k].signed && n > 0 && u >= Pow2(8 * n - 1) then u - Pow2(8 * n) else u
  {
    UnpackedSlot(fmt, b, k, at);
    SlotNumber(b, at, fmt[k].width, b[at..at + fmt[k].width]);
  }

  lemma SlotNumber(b: seq<byte>, at: nat, n: nat, slot: seq<byte>)
    requires at + n <= |b| && slot == b[at..at + n]
    ensures FromBytes(slot) == PlaceValue(b, at, n)
  {
    FromBytesIs(slot);
    assert slot[0..0 + n] == slot;
    PlaceValueShift(b, slot, at, 0, n);
  }
}

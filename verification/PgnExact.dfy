/**
 Exactly which attribute values a numeric segment carries: the value fits its slots and
 the decoded attribute is the encoded one, if and only if a range condition holds.
 */
module PgnExact {
  import opened Bits
  import opened Wrappers
  import opened Struct
  import opened PgnFields
  import opened PgnIr
  import opened PgnSegment
  import opened PgnValues
  import opened PgnDecode

  // ---- the condition ----

  /** A named sub-field: the value fits its mask, and its shifted bits the half that survives. */
  predicate SubExact(s: Sub, twoSlots: bool, x: int, corrected: bool) {
    0 <= x < Pow2(s.width) && (twoSlots && !corrected ==> x * Pow2(s.offset) < 65536)
  }

  /** The raw integers a scalar's slots hold; signed halves are each range-checked by struct. */
  predicate ScalarFits(f: Field, x: int, corrected: bool)
    requires f.Scalar? && WellFormed(f)
  {
    if Slots(f) == 2 && f.signed && !corrected then 0 <= x < 0x80_0000 && x % 65536 < 32768
    else InRange(Code(ByteLength(f), f.signed), x)
  }

  predicate Exact(f: Field, obj: Object, counter: Option<string>, corrected: bool)
    requires f.Number() && WellFormed(f) && Typed(f, obj)
  {
    match f
    case BitField(subs) =>
      forall s :: s in subs && s.name.Some? ==> SubExact(s, Slots(f) == 2, obj[s.name.value].i, corrected)
    case Scalar(None, _, _, _) => true
    case Scalar(Some(name), bits, signed, isFloat) =>
      var x, invalid := Raw(f, obj), ScalarInvalid(bits, signed);
      && ScalarFits(f, x, corrected)
      && (counter == Some(name) ==> !isFloat && (x != invalid || invalid == 0))
      && (isFloat ==> obj[name].NaN? || (x != -1 && x != invalid))
  }

  /** struct accepts the field's values. */
  predicate Packs(f: Field, obj: Object, corrected: bool)
    requires f.Number() && Typed(f, obj)
  {
    forall i :: 0 <= i < Slots(f) ==> InRange(Format(f, corrected)[i], SlotVals(f, obj, corrected)[i])
  }

  predicate Recovered(names: seq<string>, obj: Object, obj': Object) {
    forall x :: x in names ==> x in obj && x in obj' && obj'[x] == obj[x]
  }

  // ---- bit-fields ----

  /** The word below a bit position is the word of the sub-fields below it. */
  lemma {:induction false} WordBelow(subs: seq<Sub>, i: nat, k: nat, low: nat, obj: Object)
    requires i <= k <= |subs|
    requires forall j :: i <= j < |subs| ==> low <= subs[j].offset
    requires PrefixWord(subs, i, obj) < Pow2(low)
    ensures PrefixWord(subs, k, obj) % Pow2(low) == PrefixWord(subs, i, obj)
  {
    if i == k {
      RemainderIs(PrefixWord(subs, i, obj), Pow2(low), 0, PrefixWord(subs, i, obj));
    } else {
      WordBelow(subs, i, k - 1, low, obj);
      HigherPart(PrefixWord(subs, k - 1, obj), Part(subs[k - 1], obj), low, subs[k - 1].offset);
    }
  }

  /** Adding a part above a bit position leaves what is below it. */
  lemma HigherPart(w: nat, part: nat, low: nat, offset: nat)
    requires low <= offset
    ensures (w + part * Pow2(offset)) % Pow2(low) == w % Pow2(low)
  {
    ShiftedPart(part, low, offset);
    AddMultiple(w, part * Pow2(offset - low), Pow2(low));
  }

  lemma ShiftedPart(part: nat, low: nat, offset: nat)
    requires low <= offset
    ensures part * Pow2(offset) == part * Pow2(offset - low) * Pow2(low)
  {
    var p, q := Pow2(offset - low), Pow2(low);
    Pow2Add(offset - low, low);
    assert part * (p * q) == part * p * q;
  }

  lemma AddMultiple(w: int, k: int, m: int)
    requires m > 0
    ensures (w + k * m) % m == w % m
  {
    assert w == w / m * m + w % m;
    assert (w / m + k) * m == w / m * m + k * m;
    RemainderIs(w + k * m, m, w / m + k, w % m);
  }

  lemma {:induction false} BitLengthMonotone(subs: seq<Sub>, i: nat, k: nat)
    requires i <= k <= |subs|
    ensures BitLength(subs[..i]) <= BitLength(subs[..k])
  {
    if i < k {
      assert subs[..k][..k - 1] == subs[..k - 1];
      BitLengthMonotone(subs, i, k - 1);
    }
  }

  /** The part of a digit string above p and below p * q. */
  lemma MiddleDigits(w: nat, low: nat, part: nat, offset: nat, width: nat)
    requires low < Pow2(offset) && w % Pow2(offset + width) == low + part * Pow2(offset)
    ensures w / Pow2(offset) % Pow2(width) == part
  {
    ShiftedRemainder(w, offset, width);
    RemainderIs(low + part * Pow2(offset), Pow2(offset), part, low);
  }

  lemma LaterSubsAreHigher(subs: seq<Sub>, i: nat, j: nat)
    requires i < j < |subs| && Contiguous(subs)
    ensures subs[i].offset + subs[i].width <= subs[j].offset
  {
    assert subs[..i + 1][..i] == subs[..i];
    BitLengthMonotone(subs, i + 1, j);
  }

  lemma PrefixBelowEnd(subs: seq<Sub>, i: nat, obj: Object)
    requires i < |subs| && Contiguous(subs)
    ensures PrefixWord(subs, i, obj) < Pow2(subs[i].offset)
    ensures PrefixWord(subs, i + 1, obj) < Pow2(subs[i].offset + subs[i].width)
  {
    assert subs[..i + 1][..i] == subs[..i];
    PrefixWordBound(subs, i, obj);
    PrefixWordBound(subs, i + 1, obj);
  }

  /** The full word gives every sub-field back. */
  lemma SubValueOfWord(subs: seq<Sub>, i: nat, obj: Object)
    requires i < |subs| && Contiguous(subs)
    ensures SubValue(subs[i], PrefixWord(subs, |subs|, obj)) == Part(subs[i], obj)
  {
    var s := subs[i];
    PrefixBelowEnd(subs, i, obj);
    forall j | i + 1 <= j < |subs| ensures s.offset + s.width <= subs[j].offset {
      LaterSubsAreHigher(subs, i, j);
    }
    WordBelow(subs, i + 1, |subs|, s.offset + s.width, obj);
    MiddleDigits(PrefixWord(subs, |subs|, obj), PrefixWord(subs, i, obj), Part(s, obj), s.offset, s.width);
  }

  lemma ModMod(y: int, a: nat, b: nat)
    requires a <= b
    ensures y % Pow2(b) % Pow2(a) == y % Pow2(a)
  {
    Pow2Add(a, b - a);
    DivDiv(y, Pow2(a), Pow2(b - a));
    RemainderIs(y % Pow2(b), Pow2(a), y / Pow2(a) % Pow2(b - a), y % Pow2(a));
  }

  lemma CutBelow(w: nat, low: nat, offset: nat, room: nat)
    requires offset + room == 16 && low == w % 65536
    ensures low / Pow2(offset) == w / Pow2(offset) % Pow2(room)
  {
    ThreeBytes();
    ShiftedRemainder(w, offset, room);
  }

  lemma BelowRoom(x: nat, offset: nat, room: nat)
    requires offset + room == 16
    ensures x * Pow2(offset) < 65536 <==> x < Pow2(room)
  {
    ThreeBytes();
    Pow2Add(room, offset);
    FitsBelow(x, Pow2(offset), Pow2(room));
  }

  lemma CutDigits(cut: int, y: nat, offset: nat, room: nat, width: nat, x: nat)
    requires offset + room == 16 && cut == y % Pow2(room) && x == y % Pow2(width)
    ensures cut % Pow2(width) == x <==> x * Pow2(offset) < 65536
  {
    RemainderTwice(y, width, room);
    BelowRoom(x, offset, room);
  }

  /** A sub-field of value x read from a word cut to 16 bits. */
  lemma SubValueOfLowHalf(s: Sub, w: nat, low: nat, x: nat)
    requires SubValue(s, w) == x && low == w % 65536
    ensures SubValue(s, low) == x <==> x * Pow2(s.offset) < 65536
  {
    if s.offset >= 16 {
      SubAboveLowHalf(s, low, x);
    } else {
      var cut := Quotient(low, Pow2(s.offset));
      LowHalfDigits(s.offset, s.width, w, low, x, cut);
    }
  }

  lemma LowHalfDigits(offset: nat, width: nat, w: nat, low: nat, x: nat, cut: nat)
    requires offset < 16 && low == w % 65536 && x == w / Pow2(offset) % Pow2(width) && cut == low / Pow2(offset)
    ensures cut % Pow2(width) == x <==> x * Pow2(offset) < 65536
  {
    CutBelow(w, low, offset, 16 - offset);
    var y := Quotient(w, Pow2(offset));
    CutDigits(cut, y, offset, 16 - offset, width, x);
  }

  lemma Quotient(w: nat, p: nat) returns (q: nat)
    requires p > 0
    ensures q == w / p
  {
    q := w / p;
  }

  lemma SubAboveLowHalf(s: Sub, low: nat, x: nat)
    requires s.offset >= 16 && low < 65536
    ensures SubValue(s, low) == 0
    ensures x == 0 <==> x * Pow2(s.offset) < 65536
  {
    ThreeBytes();
    var p := Pow2(s.offset);
    Pow2Monotone(16, s.offset);
    RemainderIs(low, p, 0, low);
    RemainderIs(0, Pow2(s.width), 0, 0);
    if x > 0 {
      MulMonotone(1, x, p);
    }
  }

  /** Two masks in a row: the low `width` bits survive a cut to `room` bits iff they are below it. */
  lemma RemainderTwice(y: nat, width: nat, room: nat)
    ensures y % Pow2(room) % Pow2(width) == y % Pow2(width) <==> y % Pow2(width) < Pow2(room)
  {
    if room >= width {
      ModMod(y, width, room);
      Pow2Monotone(width, room);
    } else {
      var x := y % Pow2(width);
      ModMod(y, room, width);
      Pow2Monotone(room, width);
      RemainderIs(y % Pow2(room), Pow2(width), 0, y % Pow2(room));
      if x < Pow2(room) {
        RemainderIs(x, Pow2(room), 0, x);
      }
    }
  }

  lemma FitsBelow(x: nat, p: nat, q: nat)
    requires p > 0
    ensures x * p < q * p <==> x < q
  {
    if x < q {
      MulMonotone(x + 1, q, p);
      assert (x + 1) * p == x * p + p;
    } else {
      MulMonotone(q, x, p);
    }
  }

  /** What the slots carry of one sub-field: all of it, or only what lies in the low half. */
  lemma SubThroughSlots(f: Field, i: nat, obj: Object, corrected: bool)
    requires f.BitField? && WellFormed(f) && Typed(f, obj) && i < |f.subs|
    ensures var s, raw := f.subs[i], Joined(f, SlotVals(f, obj, corrected));
            SubValue(s, raw) == Part(s, obj)
            <==> (Slots(f) == 2 && !corrected ==> Part(s, obj) * Pow2(s.offset) < 65536)
    ensures 0 <= SubValue(f.subs[i], Joined(f, SlotVals(f, obj, corrected))) < Pow2(f.subs[i].width)
  {
    SubValueOfWord(f.subs, i, obj);
    WordThroughSlots(f, obj, corrected);
    if Slots(f) == 2 && !corrected {
      SubValueOfLowHalf(f.subs[i], Raw(f, obj), Raw(f, obj) % 65536, Part(f.subs[i], obj));
    }
  }

  /** The word itself comes through the slots, or its low half. */
  lemma WordThroughSlots(f: Field, obj: Object, corrected: bool)
    requires f.BitField? && WellFormed(f) && Typed(f, obj)
    ensures Raw(f, obj) >= 0
    ensures Joined(f, SlotVals(f, obj, corrected))
         == if Slots(f) == 2 && !corrected then Raw(f, obj) % 65536 else Raw(f, obj)
  {
    WordFits(f, obj);
    if Slots(f) == 2 && corrected {
      JoinHalves(Raw(f, obj));
    }
  }

  /** The value a sub-field attribute has after the round trip, and when it is the old one. */
  lemma SubRoundTrip(f: Field, i: nat, obj: Object, corrected: bool)
    requires f.BitField? && WellFormed(f) && Typed(f, obj)
    requires i < |f.subs| && f.subs[i].name.Some?
    ensures var x := obj[f.subs[i].name.value].i;
            var raw := Joined(f, SlotVals(f, obj, corrected));
            SubValue(f.subs[i], raw) == x <==> SubExact(f.subs[i], Slots(f) == 2, x, corrected)
  {
    var s := f.subs[i];
    var x := obj[s.name.value].i;
    assert s in f.subs;
    SubThroughSlots(f, i, obj, corrected);
    if 0 <= x < Pow2(s.width) {
      RemainderIs(x, Pow2(s.width), 0, x);
    }
  }

  lemma JoinHalves(w: nat)
    requires w < 0x100_0000
    ensures w % 65536 + w / 65536 % 256 * 65536 == w
  {
  }

  lemma WordFits(f: Field, obj: Object)
    requires f.BitField? && WellFormed(f) && Typed(f, obj)
    ensures 0 <= Raw(f, obj) < Pow2(8 * ByteLength(f))
    ensures Slots(f) == 2 ==> Raw(f, obj) < 0x100_0000
  {
    PrefixWordBound(f.subs, |f.subs|, obj);
    assert f.subs[..|f.subs|] == f.subs;
    Pow2Monotone(BitLength(f.subs), 8 * ByteLength(f));
    ThreeBytes();
  }

  lemma ThreeBytes()
    ensures Pow2(8) == 256 && Pow2(16) == 65536 && Pow2(15) == 32768 && Pow2(7) == 128
    ensures Pow2(24) == 0x100_0000 && Pow2(23) == 0x80_0000
  {
    assert Pow2(7) == 128 && Pow2(8) == 256;
    Pow2Add(7, 8);
    Pow2Add(8, 8);
    Pow2Add(8, 16);
    Pow2Add(7, 16);
  }

  /** Setting the sub-fields one after the other. */
  lemma {:induction false} SetSubsValues(subs: seq<Sub>, i: nat, raw: int, obj: Object)
    requires i <= |subs| && Distinct(SubNames(subs[i..]))
    ensures forall x :: x !in SubNames(subs[i..]) ==>
              (x in SetSubs(subs, i, raw, obj) <==> x in obj)
              && (x in obj ==> SetSubs(subs, i, raw, obj)[x] == obj[x])
    ensures forall k :: i <= k < |subs| && subs[k].name.Some? ==>
              subs[k].name.value in SubNames(subs[i..])
              && subs[k].name.value in SetSubs(subs, i, raw, obj)
              && SetSubs(subs, i, raw, obj)[subs[k].name.value] == Int(SubValue(subs[k], raw))
    ensures forall x :: x in SubNames(subs[i..]) ==>
              exists k :: i <= k < |subs| && subs[k].name == Some(x)
    decreases |subs| - i
  {
    if i < |subs| {
      var s, rest := subs[i], SubNames(subs[i + 1..]);
      assert subs[i..][1..] == subs[i + 1..];
      var names := SubNames(subs[i..]);
      if s.name.Some? {
        assert names == [s.name.value] + rest;
        assert forall j :: 0 <= j < |rest| ==> rest[j] == names[j + 1];
        assert s.name.value !in rest by {
          assert names[0] == s.name.value;
        }
      } else {
        assert names == rest;
      }
      SetSubsValues(subs, i + 1, raw, SetSub(s, raw, obj));
      forall x | x in names ensures exists k :: i <= k < |subs| && subs[k].name == Some(x) {
        if s.name == Some(x) {
          assert subs[i].name == Some(x);
        } else {
          assert x in rest;
        }
      }
    }
  }

  lemma BitFieldRoundTrip(f: Field, obj: Object, obj0: Object, counter: Option<string>, corrected: bool)
    requires f.BitField? && WellFormed(f) && Typed(f, obj) && Distinct(Names(f))
    ensures Packs(f, obj, corrected)
    ensures Recovered(Names(f), obj, DecodedField(f, Joined(f, SlotVals(f, obj, corrected)), counter, obj0))
       <==> Exact(f, obj, counter, corrected)
  {
    var subs, raw := f.subs, Joined(f, SlotVals(f, obj, corrected));
    var obj1 := SetSubs(subs, 0, raw, obj0);
    WordFits(f, obj);
    ThreeBytes();
    assert subs[0..] == subs;
    SetSubsValues(subs, 0, raw, obj0);
    forall i | 0 <= i < |subs| && subs[i].name.Some?
      ensures var x := subs[i].name.value;
              obj1[x] == obj[x] <==> SubExact(subs[i], Slots(f) == 2, obj[x].i, corrected)
    {
      assert subs[i] in subs;
      SubRoundTrip(f, i, obj, corrected);
    }
    if Exact(f, obj, counter, corrected) {
      forall x | x in Names(f) ensures x in obj && x in obj1 && obj1[x] == obj[x] {
        var k :| 0 <= k < |subs| && subs[k].name == Some(x);
        assert subs[k] in subs;
      }
    }
    if Recovered(Names(f), obj, obj1) {
      forall s | s in subs && s.name.Some? ensures SubExact(s, Slots(f) == 2, obj[s.name.value].i, corrected) {
        var k :| 0 <= k < |subs| && subs[k] == s;
        assert s.name.value in Names(f);
      }
    }
  }

  // ---- scalars ----

  lemma InvalidFits(bits: nat, signed: bool, n: nat)
    requires 0 < bits <= 8 * n
    ensures InRange(Code(n, signed), ScalarInvalid(bits, signed))
  {
    Pow2Monotone(bits, 8 * n);
    Pow2Monotone(bits - 1, 8 * n - 1);
  }

  /** A signed 24-bit invalid value has a low half of 0xFFFF, which 'h' refuses. */
  lemma SignedInvalidLowHalf(bits: nat)
    requires 17 <= bits <= 24
    ensures ScalarInvalid(bits, true) % 65536 == 65535
  {
    ThreeBytes();
    Pow2Add(16, bits - 17);
    var q := Pow2(bits - 17);
    RemainderIs(ScalarInvalid(bits, true), 65536, q - 1, 65535);
  }

  /** Through the slots: what struct accepts and what the joined halves are. */
  lemma ScalarThroughSlots(f: Field, obj: Object, corrected: bool)
    requires f.Scalar? && WellFormed(f) && Typed(f, obj)
    ensures Packs(f, obj, corrected) && Joined(f, SlotVals(f, obj, corrected)) == Raw(f, obj)
       <==> ScalarFits(f, Raw(f, obj), corrected)
    ensures Packs(f, obj, corrected) && Signed(f) && !corrected && Slots(f) == 2 ==>
              Joined(f, SlotVals(f, obj, corrected)) % 65536 < 32768
  {
    var x, fmt, vals := Raw(f, obj), Format(f, corrected), SlotVals(f, obj, corrected);
    ThreeBytes();
    if Slots(f) == 2 {
      assert Packs(f, obj, corrected) <==> InRange(fmt[0], vals[0]) && InRange(fmt[1], vals[1]);
      assert x == x / 65536 * 65536 + x % 65536;
      assert x / 65536 == x / 65536 / 256 * 256 + x / 65536 % 256;
    } else {
      assert Packs(f, obj, corrected) <==> InRange(fmt[0], vals[0]);
    }
  }

  lemma ScalarRoundTrip(f: Field, obj: Object, obj0: Object, counter: Option<string>, corrected: bool)
    requires f.Scalar? && WellFormed(f) && Typed(f, obj)
    requires AlignedField(f, corrected)
    ensures Packs(f, obj, corrected)
            && Recovered(Names(f), obj, DecodedField(f, Joined(f, SlotVals(f, obj, corrected)), counter, obj0))
       <==> Exact(f, obj, counter, corrected)
  {
    ScalarThroughSlots(f, obj, corrected);
    InvalidFits(f.bits, f.signed, ByteLength(f));
    match f.name
    case None =>
    case Some(name) =>
      var invalid := ScalarInvalid(f.bits, f.signed);
      var raw := Joined(f, SlotVals(f, obj, corrected));
      var obj1 := DecodedField(f, raw, counter, obj0);
      assert Names(f) == [name];
      assert Recovered(Names(f), obj, obj1) <==> obj1[name] == obj[name] by {
        assert name in Names(f);
      }
      if f.isFloat && obj[name].NaN? && Slots(f) == 2 && f.signed {
        SignedInvalidLowHalf(f.bits);
      }
  }
}

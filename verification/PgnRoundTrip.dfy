/** Round trip of a list of numeric fields through the slots of one segment. */
module PgnRoundTrip {
  import opened Bits
  import opened Wrappers
  import opened Struct
  import opened PgnFields
  import opened PgnIr
  import opened PgnEmit
  import opened PgnSegment
  import opened PgnValues
  import opened PgnDecode
  import opened PgnExact

  /** Numeric fields whose generated encode and decode both address the right slots. */
  predicate Supported(f: Field, corrected: bool)
    requires f.Number()
  {
    WellFormed(f) && AlignedField(f, corrected) && DecodeReady(f, corrected)
  }

  /** A list the generator handles correctly, whatever the values. */
  predicate Emittable(fs: seq<Field>, corrected: bool) {
    forall f :: f in fs ==> f.Number() && Supported(f, corrected)
  }

  predicate AllTyped(fs: seq<Field>, obj: Object) {
    forall f :: f in fs ==> Typed(f, obj)
  }

  /** Every value is in the range its field carries. */
  predicate AllExact(fs: seq<Field>, obj: Object, counter: Option<string>, corrected: bool)
    requires Emittable(fs, corrected) && AllTyped(fs, obj)
  {
    fs == [] || (Exact(fs[0], obj, counter, corrected) && AllExact(fs[1..], obj, counter, corrected))
  }

  /** struct accepts every value. */
  predicate AllPack(fs: seq<Field>, obj: Object, corrected: bool)
    requires Emittable(fs, corrected) && AllTyped(fs, obj)
  {
    fs == [] || (Packs(fs[0], obj, corrected) && AllPack(fs[1..], obj, corrected))
  }

  /** Attributes outside the given names are not touched. */
  ghost predicate SameOutside(names: seq<string>, obj: Object, obj': Object) {
    forall x :: x !in names ==> (x in obj <==> x in obj') && (x in obj ==> obj'[x] == obj[x])
  }

  lemma {:induction false} PackConcat(a: seq<Code>, b: seq<Code>, x: seq<int>, y: seq<int>)
    requires |a| == |x|
    ensures Pack(a + b, x + y).Some? <==> Pack(a, x).Some? && Pack(b, y).Some?
  {
    if a == [] {
      assert a + b == b && x + y == y;
    } else {
      assert (a + b)[1..] == a[1..] + b && (x + y)[1..] == x[1..] + y;
      PackConcat(a[1..], b, x[1..], y);
    }
  }

  /** pack_into accepts the segment exactly when struct accepts every field. */
  lemma {:induction false} PacksAll(fs: seq<Field>, obj: Object, corrected: bool)
    requires Emittable(fs, corrected) && AllTyped(fs, obj)
    ensures Pack(FormatOf(fs, corrected), AllSlotVals(fs, obj, corrected)).Some? <==> AllPack(fs, obj, corrected)
    decreases |fs|
  {
    if fs != [] {
      PacksAll(fs[1..], obj, corrected);
      var fmt, vals := Format(fs[0], corrected), SlotVals(fs[0], obj, corrected);
      PackConcat(fmt, FormatOf(fs[1..], corrected), vals, AllSlotVals(fs[1..], obj, corrected));
      PackSucceeds(fmt, vals);
    }
  }

  lemma FieldRoundTrip(f: Field, obj: Object, obj0: Object, counter: Option<string>, corrected: bool)
    requires f.Number() && Supported(f, corrected) && Typed(f, obj) && Distinct(Names(f))
    ensures var obj1 := DecodedField(f, Joined(f, SlotVals(f, obj, corrected)), counter, obj0);
            && SameOutside(Names(f), obj0, obj1)
            && (Packs(f, obj, corrected) && Recovered(Names(f), obj, obj1) <==> Exact(f, obj, counter, corrected))
  {
    if f.BitField? {
      BitFieldRoundTrip(f, obj, obj0, counter, corrected);
      assert f.subs[0..] == f.subs;
      SetSubsValues(f.subs, 0, Joined(f, SlotVals(f, obj, corrected)), obj0);
    } else {
      ScalarRoundTrip(f, obj, obj0, counter, corrected);
      if f.name.Some? {
        assert f.name.value in Names(f);
      }
    }
  }

  /**
   A list of distinctly named fields: struct accepts every value and every attribute
   comes back, if and only if each value is in the range its field carries.
   */
  lemma {:induction false} FieldsRoundTrip(fs: seq<Field>, obj: Object, obj0: Object, counter: Option<string>,
                                           corrected: bool)
    requires Emittable(fs, corrected) && AllTyped(fs, obj)
    requires Distinct(AllNames(fs))
    ensures var obj1 := DecodedFields(fs, AllSlotVals(fs, obj, corrected), counter, obj0);
            && SameOutside(AllNames(fs), obj0, obj1)
            && (AllPack(fs, obj, corrected) && Recovered(AllNames(fs), obj, obj1)
                <==> AllExact(fs, obj, counter, corrected))
    decreases |fs|
  {
    if fs != [] {
      var f, rest := fs[0], fs[1..];
      var names, more := Names(f), AllNames(rest);
      var vals := AllSlotVals(fs, obj, corrected);
      assert vals[Slots(f)..] == AllSlotVals(rest, obj, corrected);
      assert Joined(f, vals) == Joined(f, SlotVals(f, obj, corrected));
      DistinctParts(names, more);
      var obj1 := DecodedField(f, Joined(f, vals), counter, obj0);
      FieldRoundTrip(f, obj, obj0, counter, corrected);
      FieldsRoundTrip(rest, obj, obj1, counter, corrected);
      var obj2 := DecodedFields(rest, AllSlotVals(rest, obj, corrected), counter, obj1);
      RecoveredParts(names, more, obj, obj0, obj1, obj2);
    }
  }

  /** Assigning the names of one part, then of another, disjoint one. */
  lemma RecoveredParts(a: seq<string>, b: seq<string>, obj: Object, obj0: Object, obj1: Object, obj2: Object)
    requires SameOutside(a, obj0, obj1) && SameOutside(b, obj1, obj2)
    requires forall x :: x in a ==> x !in b
    ensures SameOutside(a + b, obj0, obj2)
    ensures Recovered(a + b, obj, obj2) <==> Recovered(a, obj, obj1) && Recovered(b, obj, obj2)
  {
    assert Recovered(a + b, obj, obj2) <==> Recovered(a, obj, obj2) && Recovered(b, obj, obj2) by {
      assert forall x :: x in a + b <==> x in a || x in b;
    }
    assert Recovered(a, obj, obj2) <==> Recovered(a, obj, obj1);
  }

  lemma DistinctParts(a: seq<string>, b: seq<string>)
    requires Distinct(a + b)
    ensures Distinct(a) && Distinct(b)
    ensures forall x :: x in a ==> x !in b
  {
    assert forall i :: 0 <= i < |a| ==> (a + b)[i] == a[i];
    assert forall i :: 0 <= i < |b| ==> (a + b)[|a| + i] == b[i];
  }

  // ---- reserved bits ----

  /** Every reserved bit that leaves through the slots carries its default, all ones. */
  lemma ReservedBitsCarryDefault(f: Field, i: nat, obj: Object, corrected: bool)
    requires f.BitField? && WellFormed(f) && Typed(f, obj)
    requires i < |f.subs| && f.subs[i].name.None?
    ensures SubValue(f.subs[i], Joined(f, SlotVals(f, obj, corrected))) == Pow2(f.subs[i].width) - 1
       <==> (Slots(f) == 2 && !corrected ==> (Pow2(f.subs[i].width) - 1) * Pow2(f.subs[i].offset) < 65536)
  {
    SubThroughSlots(f, i, obj, corrected);
  }

  /** A reserved scalar leaves as its default: all ones, or the largest positive number. */
  lemma ReservedScalarCarriesDefault(f: Field, obj: Object, corrected: bool)
    requires f.Scalar? && f.name.None? && WellFormed(f) && AlignedField(f, corrected)
    ensures Packs(f, obj, corrected)
    ensures Joined(f, SlotVals(f, obj, corrected)) == ScalarInvalid(f.bits, f.signed)
  {
    InvalidFits(f.bits, f.signed, ByteLength(f));
    ScalarThroughSlots(f, obj, corrected);
  }

  // ---- the whole segment, from emitted code to emitted code ----

  /** `val` of the decode code, read back from the bytes of the encode code. */
  lemma SegmentRoundTrip(fs: seq<Field>, obj: Object, m0: Machine, m1: Machine, counter: Option<string>,
                         corrected: bool)
    returns (e: Emission, m0': Machine, m1': Machine)
    requires Emittable(fs, corrected) && AllTyped(fs, obj)
    requires Distinct(AllNames(fs)) && m0.obj == obj
    ensures EmitAttrs(NO_EMISSION, AttrsFrom(fs, 0), corrected) == Ok(e)
    ensures Run(e.out, m0) == Some(m0') && m0'.obj == obj
    ensures ReadAll(e.args, m0') == Some(AllSlotVals(fs, obj, corrected))
    ensures var packed := Pack(FormatOf(fs, corrected), AllSlotVals(fs, obj, corrected));
            && (packed.Some? ==>
                 && |packed.value| == CalcSize(FormatOf(fs, corrected))
                 && Run(DecodeAttrs(AttrsFrom(fs, 0), counter, corrected),
                        m1.(val := Unpack(FormatOf(fs, corrected), packed.value))) == Some(m1')
                 && SameOutside(AllNames(fs), m1.obj, m1'.obj))
            && (packed.Some? && Recovered(AllNames(fs), obj, m1'.obj)
                <==> AllExact(fs, obj, counter, corrected))
  {
    EmitAlignedFields(NO_EMISSION, fs, corrected);
    var code := FieldsCode(fs, 0, Unset, corrected);
    e := Append(NO_EMISSION, code);
    assert e.out == code.out && e.args == code.args;
    m0' := RunFields(fs, 0, Unset, corrected, m0);
    var fmt, vals := FormatOf(fs, corrected), AllSlotVals(fs, obj, corrected);
    PacksAll(fs, obj, corrected);
    FieldsRoundTrip(fs, obj, m1.obj, counter, corrected);
    if Pack(fmt, vals).Some? {
      PackUnpack(fmt, vals);
      assert vals[0..] == vals;
      m1' := RunDecodeFields(fs, 0, counter, corrected, m1.(val := vals));
    } else {
      m1' := m1;
    }
  }
}

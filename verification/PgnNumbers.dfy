/**
 Messages made of numbers only: one segment, whose compiled methods pack the slot values
 of all fields and set every attribute from them.
 */
module PgnNumbers {
  import opened Wrappers
  import opened Struct
  import opened PgnFields
  import opened PgnIr
  import opened PgnEmit
  import opened PgnSegment
  import opened PgnValues
  import opened PgnDecode
  import opened PgnExact
  import opened PgnRoundTrip
  import opened PgnText
  import opened PgnProgram
  import opened PgnMessage
  import opened PgnCompiler

  predicate AllNumbers(fs: seq<Field>) { forall f :: f in fs ==> f.Number() }

  lemma {:induction false} OneGroup(fs: seq<Field>)
    requires fs != [] && AllNumbers(fs)
    ensures Groups(fs) == [fs] && IsGroup(fs)
    decreases |fs|
  {
    var front, last := fs[..|fs| - 1], fs[|fs| - 1];
    assert last in fs && fs == front + [last];
    if front == [] {
      assert Groups(front) == [];
      assert [] + [[last]] == [fs];
    } else {
      OneGroup(front);
      JoinsOnly(front, last);
      assert Groups(fs) == WithField(Groups(front), last);
    }
  }

  lemma JoinsOnly(g: seq<Field>, f: Field)
    requires IsGroup(g) && g[0].Number() && f.Number()
    ensures WithField([g], f) == [g + [f]]
  {
    assert [g][..0] == [];
    assert [] + [g + [f]] == [g + [f]];
  }

  lemma OneSegment(fs: seq<Field>, corrected: bool)
    requires fs != [] && Emittable(fs, corrected)
    ensures IsGroup(fs) && LayoutOf([fs], 0, corrected) == [ValueSet(0, FormatOf(fs, corrected), AttrsFrom(fs, 0))]
    ensures StaticSize(LayoutOf([fs], 0, corrected)) == CalcSize(FormatOf(fs, corrected))
  {
    assert fs[0] in fs && [fs][1..] == [];
    assert LayoutOf([fs][1..], CalcSize(FormatOf(fs, corrected)), corrected) == [];
    assert LayoutOf([fs], 0, corrected)[1..] == [];
  }

  /** The program of a message of numbers: the emitted code, with no locals to start from. */
  lemma NumbersCompile(fs: seq<Field>, corrected: bool) returns (p: Program, e: Emission)
    requires fs != [] && Emittable(fs, corrected)
    ensures Compile(fs, None, false, corrected) == Ok(p)
    ensures e == Append(NO_EMISSION, FieldsCode(fs, 0, Unset, corrected))
    ensures p == Program([PackInto(e.out, FormatOf(fs, corrected), e.args, 0)],
                         [UnpackFrom(FormatOf(fs, corrected), DecodeAttrs(AttrsFrom(fs, 0), None, corrected)),
                          SkipBytes(CalcSize(FormatOf(fs, corrected)))],
                         CalcSize(FormatOf(fs, corrected)))
  {
    OneGroup(fs);
    OneSegment(fs, corrected);
    EmitAlignedFields(NO_EMISSION, fs, corrected);
    e := Append(NO_EMISSION, FieldsCode(fs, 0, Unset, corrected));
    var segment := ValueSet(0, FormatOf(fs, corrected), AttrsFrom(fs, 0));
    var enc := [PackInto(e.out, FormatOf(fs, corrected), e.args, 0)];
    assert enc + [] == enc;
    assert GenEncode(segment, false, corrected) == Ok(enc);
    assert GenEncodeAll([segment], false, corrected) == Ok(enc) by {
      assert [segment][1..] == [];
    }
    var dec := [UnpackFrom(FormatOf(fs, corrected), DecodeAttrs(AttrsFrom(fs, 0), None, corrected)),
                SkipBytes(segment.Length())];
    assert GenDecodeAll([segment], None, corrected) == Ok(dec) by {
      assert [segment][1..] == [] && dec + [] == dec;
    }
    p := Program(enc, dec, CalcSize(FormatOf(fs, corrected)));
  }

  /**
   What a compiled message of numbers does to an object: encoding packs the slot values of
   its fields, or raises where struct does; decoding sets every named attribute to what
   its slots hold, whatever the values were.
   */
  lemma NumbersRun(fs: seq<Field>, obj: Object, obj0: Object, corrected: bool) returns (p: Program)
    requires fs != [] && Emittable(fs, corrected) && AllTyped(fs, obj)
    ensures Compile(fs, None, false, corrected) == Ok(p)
    ensures var vals := AllSlotVals(fs, obj, corrected);
            && EncodeFixed(p, obj) == Pack(FormatOf(fs, corrected), vals)
            && (EncodeFixed(p, obj).Some? ==>
                 DecodeFixed(p, EncodeFixed(p, obj).value, obj0) == Some(DecodedFields(fs, vals, None, obj0)))
  {
    var e;
    p, e := NumbersCompile(fs, corrected);
    RunEncodeNumbers(fs, p, e, obj, corrected);
    if EncodeFixed(p, obj).Some? {
      PackUnpack(FormatOf(fs, corrected), AllSlotVals(fs, obj, corrected));
      RunDecodeNumbers(fs, p, AllSlotVals(fs, obj, corrected), EncodeFixed(p, obj).value, obj0, corrected);
    }
  }

  lemma RunEncodeNumbers(fs: seq<Field>, p: Program, e: Emission, obj: Object, corrected: bool)
    requires fs != [] && Emittable(fs, corrected) && AllTyped(fs, obj)
    requires e == Append(NO_EMISSION, FieldsCode(fs, 0, Unset, corrected))
             && p.size == CalcSize(FormatOf(fs, corrected))
    requires p.encode == [PackInto(e.out, FormatOf(fs, corrected), e.args, 0)]
    ensures EncodeFixed(p, obj) == Pack(FormatOf(fs, corrected), AllSlotVals(fs, obj, corrected))
  {
    var fmt, vals := FormatOf(fs, corrected), AllSlotVals(fs, obj, corrected);
    var m := RunFields(fs, 0, Unset, corrected, Fresh(obj));
    assert e.out == FieldsCode(fs, 0, Unset, corrected).out && e.args == FieldsCode(fs, 0, Unset, corrected).args;
    var st := EncodeState(Zeros(p.size), 0, Fresh(obj));
    PackIntoUnfolds(e.out, fmt, e.args, 0, st, m, vals);
    RunEncodeSteps(p.encode, st);
    if Pack(fmt, vals).Some? {
      PackUnpack(fmt, vals);
      assert Splice(st.buf, 0, Pack(fmt, vals).value) == Pack(fmt, vals).value;
    }
  }

  lemma RunDecodeNumbers(fs: seq<Field>, p: Program, vals: seq<int>, b: seq<byte>, obj0: Object, corrected: bool)
    requires fs != [] && Emittable(fs, corrected) && |b| == CalcSize(FormatOf(fs, corrected))
    requires Unpack(FormatOf(fs, corrected), b) == vals
    requires p.decode == [UnpackFrom(FormatOf(fs, corrected), DecodeAttrs(AttrsFrom(fs, 0), None, corrected)),
                          SkipBytes(CalcSize(FormatOf(fs, corrected)))]
    ensures DecodeFixed(p, b, obj0) == Some(DecodedFields(fs, vals, None, obj0))
  {
    var fmt, body := FormatOf(fs, corrected), DecodeAttrs(AttrsFrom(fs, 0), None, corrected);
    var st := DecodeState(0, Fresh(obj0));
    assert b[0..0 + |b|] == b && vals[0..] == vals;
    UnpackRuns(fmt, body, b, b, st);
    var m := RunDecodeFields(fs, 0, None, corrected, st.m.(val := vals));
    RunDecodeTwo(UnpackFrom(fmt, body), SkipBytes(CalcSize(fmt)), b, st);
  }

  /** Decoding a list is decoding its first part, then the rest. */
  lemma ConsConcat(a: seq<Field>, b: seq<Field>)
    requires AllNumbers(a) && AllNumbers(b) && a != []
    ensures a[0].Number() && AllNumbers(a[1..]) && AllNumbers(a[1..] + b) && AllNumbers([a[0]] + (a[1..] + b))
    ensures a + b == [a[0]] + (a[1..] + b)
  {
  }

  lemma SlotsConcat(a: seq<Field>, b: seq<Field>)
    requires AllNumbers(a) && AllNumbers(b)
    ensures AllNumbers(a + b) && SlotCount(a + b) == SlotCount(a) + SlotCount(b)
  {
    AttrsFromConcat(a, b, 0);
  }

  lemma {:induction false} DecodedConcat(a: seq<Field>, b: seq<Field>, x: seq<int>, y: seq<int>,
                                         counter: Option<string>, obj: Object)
    requires AllNumbers(a) && AllNumbers(b) && AllNumbers(a + b) && |x| == SlotCount(a) && |y| == SlotCount(b)
    ensures |x + y| == SlotCount(a + b)
    ensures DecodedFields(a + b, x + y, counter, obj) == DecodedFields(b, y, counter, DecodedFields(a, x, counter, obj))
    decreases |a|
  {
    SlotsConcat(a, b);
    if a == [] {
      assert a + b == b && x + y == y;
    } else {
      var n := Slots(a[0]);
      ConsConcat(a, b);
      FirstDecoded(a[0], a[1..] + b, x + y, counter, obj);
      assert (x + y)[n..] == x[n..] + y && Joined(a[0], x + y) == Joined(a[0], x);
      DecodedConcat(a[1..], b, x[n..], y, counter, DecodedField(a[0], Joined(a[0], x), counter, obj));
    }
  }

  lemma FirstDecoded(f: Field, rest: seq<Field>, val: seq<int>, counter: Option<string>, obj: Object)
    requires f.Number() && AllNumbers(rest) && AllNumbers([f] + rest) && |val| == SlotCount([f] + rest)
    ensures |val| == Slots(f) + SlotCount(rest)
    ensures DecodedFields([f] + rest, val, counter, obj)
         == DecodedFields(rest, val[Slots(f)..], counter, DecodedField(f, Joined(f, val), counter, obj))
  {
    assert ([f] + rest)[1..] == rest;
  }

  lemma TypedConcat(a: seq<Field>, b: seq<Field>, obj: Object)
    requires AllTyped(a, obj) && AllTyped(b, obj) && a != []
    ensures Typed(a[0], obj) && AllTyped(a[1..], obj) && AllTyped(a[1..] + b, obj)
            && AllTyped([a[0]] + (a[1..] + b), obj)
  {
  }

  lemma {:induction false} SlotValsConcat(a: seq<Field>, b: seq<Field>, obj: Object, corrected: bool)
    requires AllNumbers(a) && AllNumbers(b) && AllNumbers(a + b) && AllTyped(a, obj) && AllTyped(b, obj)
             && AllTyped(a + b, obj)
    ensures AllSlotVals(a + b, obj, corrected) == AllSlotVals(a, obj, corrected) + AllSlotVals(b, obj, corrected)
    decreases |a|
  {
    if a == [] {
      assert a + b == b;
    } else {
      ConsConcat(a, b);
      TypedConcat(a, b, obj);
      FirstSlotVals(a[0], a[1..] + b, obj, corrected);
      SlotValsConcat(a[1..], b, obj, corrected);
      Regroup(SlotVals(a[0], obj, corrected), AllSlotVals(a[1..], obj, corrected), AllSlotVals(b, obj, corrected));
    }
  }

  lemma Regroup(x: seq<int>, y: seq<int>, z: seq<int>)
    ensures x + (y + z) == (x + y) + z
  {
  }

  lemma FirstSlotVals(f: Field, rest: seq<Field>, obj: Object, corrected: bool)
    requires f.Number() && AllNumbers(rest) && AllNumbers([f] + rest) && Typed(f, obj) && AllTyped(rest, obj)
             && AllTyped([f] + rest, obj)
    ensures AllSlotVals([f] + rest, obj, corrected) == SlotVals(f, obj, corrected) + AllSlotVals(rest, obj, corrected)
  {
    assert ([f] + rest)[1..] == rest;
  }

  /** A field keeps the attributes it does not name. */
  lemma DecodedOutside(f: Field, raw: int, counter: Option<string>, obj: Object)
    requires f.Number() && Distinct(Names(f))
    ensures SameOutside(Names(f), obj, DecodedField(f, raw, counter, obj))
  {
    if f.BitField? {
      assert f.subs[0..] == f.subs;
      SetSubsValues(f.subs, 0, raw, obj);
    } else if f.name.Some? {
      assert f.name.value in Names(f);
    }
  }

  lemma {:induction false} DecodedFieldsOutside(fs: seq<Field>, val: seq<int>, counter: Option<string>, obj: Object)
    requires AllNumbers(fs) && |val| == SlotCount(fs) && Distinct(AllNames(fs))
    ensures SameOutside(AllNames(fs), obj, DecodedFields(fs, val, counter, obj))
    decreases |fs|
  {
    if fs != [] {
      DistinctParts(Names(fs[0]), AllNames(fs[1..]));
      DecodedOutside(fs[0], Joined(fs[0], val), counter, obj);
      DecodedFieldsOutside(fs[1..], val[Slots(fs[0])..], counter,
                           DecodedField(fs[0], Joined(fs[0], val), counter, obj));
    }
  }
}

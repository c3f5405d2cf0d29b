/**
 Meaning preservation for whole messages: what the generated encode program writes, the
 generated decode program reads back, over every layout of numbers and strings.
 */
module PgnMessage {
  import opened Wrappers
  import opened Struct
  import opened PgnFields
  import opened PgnIr
  import opened PgnEmit
  import opened PgnSegment
  import opened PgnValues
  import opened PgnExact
  import opened PgnRoundTrip
  import opened PgnText
  import opened PgnProgram

  /** The fields the generator turns into correct code: strings need a name. */
  predicate SupportedField(f: Field, corrected: bool) {
    if f.Number() then Supported(f, corrected) else WellFormed(f) && f.name.Some?
  }

  predicate SupportedFields(fs: seq<Field>, corrected: bool) {
    forall f :: f in fs ==> SupportedField(f, corrected)
  }

  /** The values one field carries through encode and decode. */
  predicate FieldExact(f: Field, obj: Object, counter: Option<string>, corrected: bool)
    requires SupportedField(f, corrected) && Typed(f, obj)
  {
    match f
    case Text(name, length) => CleanText(obj[name.value].s) && |obj[name.value].s| <= length
    case VarText(name) => CleanText(obj[name.value].s) && |obj[name.value].s| + 2 <= 255
    case _ => Exact(f, obj, counter, corrected)
  }

  predicate MessageExact(fs: seq<Field>, obj: Object, counter: Option<string>, corrected: bool)
    requires SupportedFields(fs, corrected) && AllTyped(fs, obj)
  {
    fs == [] || (FieldExact(fs[0], obj, counter, corrected) && MessageExact(fs[1..], obj, counter, corrected))
  }

  lemma {:induction false} MessageExactConcat(a: seq<Field>, b: seq<Field>, obj: Object, counter: Option<string>,
                                              corrected: bool)
    requires SupportedFields(a, corrected) && SupportedFields(b, corrected) && SupportedFields(a + b, corrected)
    requires AllTyped(a, obj) && AllTyped(b, obj) && AllTyped(a + b, obj)
    ensures MessageExact(a + b, obj, counter, corrected)
       <==> MessageExact(a, obj, counter, corrected) && MessageExact(b, obj, counter, corrected)
    decreases |a|
  {
    if a == [] {
      assert a + b == b;
    } else {
      assert (a + b)[1..] == a[1..] + b;
      MessageExactConcat(a[1..], b, obj, counter, corrected);
    }
  }

  lemma {:induction false} NumbersExact(g: seq<Field>, obj: Object, counter: Option<string>, corrected: bool)
    requires Emittable(g, corrected) && AllTyped(g, obj)
    ensures SupportedFields(g, corrected)
    ensures MessageExact(g, obj, counter, corrected) <==> AllExact(g, obj, counter, corrected)
    decreases |g|
  {
    if g != [] {
      assert g[0] in g;
      NumbersExact(g[1..], obj, counter, corrected);
    }
  }

  lemma {:induction false} NamesConcat(a: seq<Field>, b: seq<Field>)
    ensures AllNames(a + b) == AllNames(a) + AllNames(b)
    decreases |a|
  {
    if a == [] {
      assert a + b == b;
    } else {
      assert (a + b)[1..] == a[1..] + b;
      NamesConcat(a[1..], b);
      assert Names(a[0]) + (AllNames(a[1..]) + AllNames(b)) == (Names(a[0]) + AllNames(a[1..])) + AllNames(b);
    }
  }

  // ---- one segment ----

  predicate GroupOk(g: seq<Field>, obj: Object, corrected: bool) {
    IsGroup(g) && SupportedFields(g, corrected) && AllTyped(g, obj)
  }

  /** The bytes of a segment; None where the generated encode raises. */
  function GroupBytes(g: seq<Field>, obj: Object, corrected: bool): Option<seq<byte>>
    requires GroupOk(g, obj, corrected)
  {
    assert g[0] in g;
    match g[0]
    case Text(name, length) => Some(FixedText(obj[name.value].s, length))
    case VarText(name) =>
      var s := obj[name.value].s;
      if |s| + 2 <= 255 then Some([|s| + 2, 1] + s) else None
    case _ => Pack(FormatOf(g, corrected), AllSlotVals(g, obj, corrected))
  }

  function Position(st: EncodeState, start: nat, variable: bool): nat {
    if variable then st.cursor else st.cursor + start
  }

  /** The state after a segment of bytes b was written. */
  ghost predicate Wrote(st: EncodeState, st': EncodeState, start: nat, b: seq<byte>, variable: bool)
    requires Position(st, start, variable) + |b| <= |st.buf|
  {
    && st'.buf == Splice(st.buf, Position(st, start, variable), b)
    && st'.cursor == st.cursor + (if variable then |b| else 0)
    && st'.m.obj == st.m.obj
  }

  /** Running ops writes b in place, or raises when there is no b. */
  ghost predicate Encodes(ops: seq<EncodeOp>, st: EncodeState, start: nat, b: Option<seq<byte>>, variable: bool) {
    && (b.None? ==> RunEncode(ops, st) == None)
    && (b.Some? && Position(st, start, variable) + |b.value| <= |st.buf| ==>
         RunEncode(ops, st).Some? && Wrote(st, RunEncode(ops, st).value, start, b.value, variable))
    && (RunEncode(ops, st).Some? ==> RunEncode(ops, st).value.m.obj == st.m.obj)
  }

  /** One encode statement that writes b at a constant distance from start_byte. */
  ghost predicate PutsAt(op: EncodeOp, at: nat, b: Option<seq<byte>>, st: EncodeState) {
    && (b.None? ==> RunEncodeOp(op, st) == None)
    && (b.Some? && st.cursor + at + |b.value| <= |st.buf| ==>
         && RunEncodeOp(op, st).Some?
         && RunEncodeOp(op, st).value.buf == Splice(st.buf, st.cursor + at, b.value))
    && (RunEncodeOp(op, st).Some? ==>
         && RunEncodeOp(op, st).value.m.obj == st.m.obj
         && RunEncodeOp(op, st).value.cursor == st.cursor)
  }

  lemma PutNumbers(g: seq<Field>, at: nat, st: EncodeState, corrected: bool)
    requires GroupOk(g, st.m.obj, corrected) && Distinct(AllNames(g)) && g[0].Number()
    ensures var e := Append(NO_EMISSION, FieldsCode(g, 0, Unset, corrected));
            PutsAt(PackInto(e.out, FormatOf(g, corrected), e.args, at), at, GroupBytes(g, st.m.obj, corrected), st)
    ensures GroupBytes(g, st.m.obj, corrected).Some? ==>
              |GroupBytes(g, st.m.obj, corrected).value| == CalcSize(FormatOf(g, corrected))
  {
    assert forall f :: f in g ==> f.Number();
    EmitAlignedFields(NO_EMISSION, g, corrected);
    var e, m0', m1' := SegmentRoundTrip(g, st.m.obj, st.m, Machine(map[], map[], []), None, corrected);
    PackIntoUnfolds(e.out, FormatOf(g, corrected), e.args, at, st, m0', AllSlotVals(g, st.m.obj, corrected));
  }

  lemma PackIntoUnfolds(body: seq<Stmt>, format: seq<Code>, args: seq<Loc>, at: nat, st: EncodeState, m: Machine,
                        vals: seq<int>)
    requires Run(body, st.m) == Some(m) && ReadAll(args, m) == Some(vals)
    ensures RunEncodeOp(PackInto(body, format, args, at), st) ==
            var b := Pack(format, vals);
            if b.None? || st.cursor + at + |b.value| > |st.buf| then None
            else Some(EncodeState(Splice(st.buf, st.cursor + at, b.value), st.cursor, m))
  {
  }

  lemma PutText(f: Field, at: nat, st: EncodeState, corrected: bool)
    requires f.Text? && GroupOk([f], st.m.obj, corrected)
    ensures f.name.Some? && PutsAt(PutString(f.name.value, f.length, at), at, GroupBytes([f], st.m.obj, corrected), st)
  {
    assert f in [f];
    if st.cursor + at + f.length <= |st.buf| {
      InsertStringSplices(st.buf, st.cursor + at, f.length, st.m.obj[f.name.value].s);
    }
  }

  lemma PutVarText(f: Field, st: EncodeState, corrected: bool)
    requires f.VarText? && GroupOk([f], st.m.obj, corrected)
    ensures f.name.Some?
    ensures var r, b := RunEncodeOp(PutVarString(f.name.value), st), GroupBytes([f], st.m.obj, corrected);
            && (b.None? ==> r == None)
            && (b.Some? && st.cursor + |b.value| <= |st.buf| ==> r.Some? && Wrote(st, r.value, 0, b.value, true))
            && (r.Some? ==> r.value.m.obj == st.m.obj)
  {
    assert f in [f];
    var s := st.m.obj[f.name.value].s;
    if |s| + 2 <= 255 && st.cursor + |s| + 2 <= |st.buf| {
      InsertVarStrSplices(st.buf, st.cursor, s);
    }
  }

  lemma GroupBytesLength(g: seq<Field>, start: nat, obj: Object, corrected: bool)
    requires GroupOk(g, obj, corrected) && Distinct(AllNames(g)) && !g[0].VarText?
    requires GroupBytes(g, obj, corrected).Some?
    ensures |GroupBytes(g, obj, corrected).value| == SegmentOf(g, start, corrected).Length()
  {
    if g[0].Number() {
      PackUnpack(FormatOf(g, corrected), AllSlotVals(g, obj, corrected));
    }
  }

  /** The generated encode of a segment writes its bytes at the segment's place, or raises. */
  lemma EncodeGroup(g: seq<Field>, start: nat, st: EncodeState, variable: bool, corrected: bool)
    returns (ops: seq<EncodeOp>)
    requires GroupOk(g, st.m.obj, corrected) && Distinct(AllNames(g))
    requires g[0].VarText? ==> variable
    ensures GenEncode(SegmentOf(g, start, corrected), variable, corrected) == Ok(ops)
    ensures Encodes(ops, st, start, GroupBytes(g, st.m.obj, corrected), variable)
  {
    ops := GenEncodeOk(g, start, variable, corrected);
    assert g[0] in g;
    var at, length := if variable then 0 else start, SegmentOf(g, start, corrected).Length();
    var b := GroupBytes(g, st.m.obj, corrected);
    if !g[0].VarText? && b.Some? {
      GroupBytesLength(g, start, st.m.obj, corrected);
    }
    match g[0]
    case Text(_, _) =>
      assert g == [g[0]];
      PutText(g[0], at, st, corrected);
      EncodesByPut(ops, at, st, start, b, variable, length);
    case VarText(_) =>
      assert g == [g[0]];
      RunEncodeSteps(ops, st);
      PutVarText(g[0], st, corrected);
    case _ =>
      PutNumbers(g, at, st, corrected);
      EncodesByPut(ops, at, st, start, b, variable, length);
  }

  /** A statement that puts b, and the one that moves start_byte past it. */
  lemma EncodesByPut(ops: seq<EncodeOp>, at: nat, st: EncodeState, start: nat, b: Option<seq<byte>>, variable: bool,
                     length: nat)
    requires at == if variable then 0 else start
    requires |ops| == (if variable then 2 else 1) && PutsAt(ops[0], at, b, st)
    requires variable ==> ops[1] == AdvanceBy(length)
    requires b.Some? ==> |b.value| == length
    ensures Encodes(ops, st, start, b, variable)
  {
    RunEncodeSteps(ops, st);
  }

  lemma GenEncodeOk(g: seq<Field>, start: nat, variable: bool, corrected: bool) returns (ops: seq<EncodeOp>)
    requires IsGroup(g) && SupportedFields(g, corrected)
    ensures GenEncode(SegmentOf(g, start, corrected), variable, corrected) == Ok(ops)
    ensures |ops| == if variable && !g[0].VarText? then 2 else 1
    ensures ops[0] == match g[0]
                      case Text(name, length) => PutString(name.value, length, if variable then 0 else start)
                      case VarText(name) => PutVarString(name.value)
                      case _ => var e := Append(NO_EMISSION, FieldsCode(g, 0, Unset, corrected));
                                PackInto(e.out, FormatOf(g, corrected), e.args, if variable then 0 else start)
    ensures |ops| == 2 ==> ops[1] == AdvanceBy(SegmentOf(g, start, corrected).Length())
  {
    assert g[0] in g;
    if g[0].Number() {
      EmitAlignedFields(NO_EMISSION, g, corrected);
    }
    ops := GenEncode(SegmentOf(g, start, corrected), variable, corrected).value;
  }

  lemma RunEncodeSteps(ops: seq<EncodeOp>, st: EncodeState)
    requires |ops| == 1 || |ops| == 2
    ensures RunEncode(ops, st) == match RunEncodeOp(ops[0], st)
                                  case None => None
                                  case Some(st1) => if |ops| == 1 then Some(st1) else RunEncodeOp(ops[1], st1)
  {
    match RunEncodeOp(ops[0], st)
    case None =>
    case Some(st1) =>
      if |ops| == 1 {
        assert ops[1..] == [];
      } else {
        assert ops[1..][1..] == [];
        assert ops[1..][0] == ops[1];
      }
  }

  /** The payload holds b where the decode cursor stands. */
  predicate Holds(payload: seq<byte>, at: nat, b: seq<byte>) {
    at + |b| <= |payload| && payload[at..at + |b|] == b
  }

  /** Decoding b: the cursor moves past it, only the group's names change, and what comes back. */
  ghost predicate ReadsBack(st: DecodeState, r: Option<DecodeState>, b: seq<byte>, names: seq<string>, obj: Object,
                            exact: bool) {
    && r.Some?
    && r.value.cursor == st.cursor + |b|
    && SameOutside(names, st.m.obj, r.value.m.obj)
    && (Recovered(names, obj, r.value.m.obj) <==> exact)
  }

  /** Running ops over a payload that holds b reads it back; without b the values are out of range. */
  ghost predicate Decodes(ops: seq<DecodeOp>, payload: seq<byte>, st: DecodeState, b: Option<seq<byte>>,
                          names: seq<string>, obj: Object, exact: bool) {
    && (b.Some? && Holds(payload, st.cursor, b.value) ==>
         ReadsBack(st, RunDecode(ops, payload, st), b.value, names, obj, exact))
    && (b.None? ==> !exact)
  }

  lemma RunDecodeTwo(a: DecodeOp, b: DecodeOp, payload: seq<byte>, st: DecodeState)
    ensures RunDecode([a, b], payload, st)
         == match RunDecodeOp(a, payload, st) case None => None case Some(st1) => RunDecodeOp(b, payload, st1)
  {
    assert [a, b][1..] == [b] && [b][1..] == [];
    match RunDecodeOp(a, payload, st)
    case None =>
    case Some(st1) => assert RunDecode([b], payload, st1) == RunDecodeOp(b, payload, st1);
  }

  lemma ReadThenSkip(read: DecodeOp, payload: seq<byte>, st: DecodeState, m: Machine, b: seq<byte>,
                     names: seq<string>, obj: Object, exact: bool)
    requires RunDecodeOp(read, payload, st) == Some(st.(m := m))
    requires SameOutside(names, st.m.obj, m.obj) && (Recovered(names, obj, m.obj) <==> exact)
    ensures ReadsBack(st, RunDecode([read, SkipBytes(|b|)], payload, st), b, names, obj, exact)
  {
    RunDecodeTwo(read, SkipBytes(|b|), payload, st);
  }

  lemma DecodeNumbers(g: seq<Field>, b: seq<byte>, payload: seq<byte>, st: DecodeState, obj: Object,
                      counter: Option<string>, corrected: bool)
    requires GroupOk(g, obj, corrected) && Distinct(AllNames(g)) && g[0].Number()
    requires GroupBytes(g, obj, corrected) == Some(b) && Holds(payload, st.cursor, b)
    ensures |b| == CalcSize(FormatOf(g, corrected))
    ensures var read := UnpackFrom(FormatOf(g, corrected), DecodeAttrs(AttrsFrom(g, 0), counter, corrected));
            ReadsBack(st, RunDecode([read, SkipBytes(|b|)], payload, st), b, AllNames(g), obj,
                      MessageExact(g, obj, counter, corrected))
  {
    assert forall f :: f in g ==> f.Number();
    NumbersExact(g, obj, counter, corrected);
    var e, m0', m := SegmentRoundTrip(g, obj, Machine(map[], obj, []), st.m, counter, corrected);
    var read := UnpackFrom(FormatOf(g, corrected), DecodeAttrs(AttrsFrom(g, 0), counter, corrected));
    UnpackRuns(FormatOf(g, corrected), DecodeAttrs(AttrsFrom(g, 0), counter, corrected), b, payload, st);
    ReadThenSkip(read, payload, st, m, b, AllNames(g), obj, MessageExact(g, obj, counter, corrected));
  }

  lemma UnpackRuns(fmt: seq<Code>, body: seq<Stmt>, b: seq<byte>, payload: seq<byte>, st: DecodeState)
    requires |b| == CalcSize(fmt) && Holds(payload, st.cursor, b)
    ensures RunDecodeOp(UnpackFrom(fmt, body), payload, st) ==
            match Run(body, st.m.(val := Unpack(fmt, b))) case None => None case Some(m) => Some(st.(m := m))
  {
  }

  lemma UnpackableOnlyIfExact(g: seq<Field>, obj: Object, counter: Option<string>, corrected: bool)
    requires GroupOk(g, obj, corrected) && Distinct(AllNames(g)) && g[0].Number()
    requires GroupBytes(g, obj, corrected).None?
    ensures !MessageExact(g, obj, counter, corrected)
  {
    assert forall f :: f in g ==> f.Number();
    NumbersExact(g, obj, counter, corrected);
    FieldsRoundTrip(g, obj, obj, counter, corrected);
    PacksAll(g, obj, corrected);
  }

  lemma DecodeText(f: Field, payload: seq<byte>, st: DecodeState, obj: Object, corrected: bool)
    requires f.Text? && GroupOk([f], obj, corrected)
    requires Holds(payload, st.cursor, GroupBytes([f], obj, corrected).value)
    ensures f in [f] && Typed(f, obj) && SupportedField(f, corrected)
    ensures ReadsBack(st, RunDecode([GetString(f.name.value, f.length), SkipBytes(f.length)], payload, st),
                      GroupBytes([f], obj, corrected).value, Names(f), obj, FieldExact(f, obj, None, corrected))
  {
    assert f in [f];
    var name, s := f.name.value, obj[f.name.value].s;
    var b := FixedText(s, f.length);
    assert Slice(payload, st.cursor, st.cursor + f.length) == b;
    var m := SetString(name, CleanString(b), st.m);
    FixedTextRoundTrip(s, f.length);
    OneName(name, m.obj, obj, st.m.obj);
    ReadThenSkip(GetString(name, f.length), payload, st, m, b, [name], obj, FieldExact(f, obj, None, corrected));
  }

  lemma OneName(name: string, obj1: Object, obj: Object, obj0: Object)
    requires name in obj && name in obj1 && obj1 == obj0[name := obj1[name]]
    ensures SameOutside([name], obj0, obj1)
    ensures Recovered([name], obj, obj1) <==> obj1[name] == obj[name]
  {
    assert name in [name];
  }

  lemma DecodeVarText(f: Field, payload: seq<byte>, st: DecodeState, obj: Object, corrected: bool)
    requires f.VarText? && GroupOk([f], obj, corrected)
    requires GroupBytes([f], obj, corrected).Some?
    requires Holds(payload, st.cursor, GroupBytes([f], obj, corrected).value)
    ensures f in [f] && Typed(f, obj) && SupportedField(f, corrected)
    ensures ReadsBack(st, RunDecode([GetVarString(f.name.value)], payload, st),
                      GroupBytes([f], obj, corrected).value, Names(f), obj, FieldExact(f, obj, None, corrected))
  {
    assert f in [f];
    var op := GetVarString(f.name.value);
    VarTextRoundTrip(obj[f.name.value].s, payload, st.cursor);
    assert [op][1..] == [];
    assert RunDecode([op], payload, st) == RunDecodeOp(op, payload, st);
    assert f.name.value in Names(f);
  }

  /** The generated decode of a segment reads its bytes back, wherever they stand. */
  lemma DecodeGroup(g: seq<Field>, start: nat, payload: seq<byte>, st: DecodeState, obj: Object,
                    counter: Option<string>, corrected: bool) returns (ops: seq<DecodeOp>)
    requires GroupOk(g, obj, corrected) && Distinct(AllNames(g))
    ensures GenDecode(SegmentOf(g, start, corrected), counter, corrected) == Ok(ops)
    ensures Decodes(ops, payload, st, GroupBytes(g, obj, corrected), AllNames(g), obj,
                    MessageExact(g, obj, counter, corrected))
  {
    assert g[0] in g;
    var b := GroupBytes(g, obj, corrected);
    if g[0].Number() {
      ops := GenDecode(SegmentOf(g, start, corrected), counter, corrected).value;
      if b.None? {
        UnpackableOnlyIfExact(g, obj, counter, corrected);
      } else if Holds(payload, st.cursor, b.value) {
        DecodeNumbers(g, b.value, payload, st, obj, counter, corrected);
      }
    } else {
      assert g == [g[0]] && g[1..] == [];
      assert AllNames(g) == Names(g[0]) + [] == Names(g[0]);
      ops := GenDecode(SegmentOf(g, start, corrected), counter, corrected).value;
      if b.Some? && Holds(payload, st.cursor, b.value) {
        if g[0].Text? {
          DecodeText(g[0], payload, st, obj, corrected);
        } else {
          DecodeVarText(g[0], payload, st, obj, corrected);
        }
      }
    }
  }
}

/**
 Two objects that differ in one attribute, encoded and decoded side by side: through
 segments that do not name the attribute and that the emission handles, nothing differs.
 */
module PgnTwoRuns {
  import opened Wrappers
  import opened Struct
  import opened PgnFields
  import opened PgnIr
  import opened PgnEmit
  import opened PgnValues
  import opened PgnRoundTrip
  import opened PgnText
  import opened PgnProgram
  import opened PgnMessage
  import opened PgnInterference
  import opened PgnMisaligned
  import opened PgnFrames

  /** Two encoders at the same point, with objects that differ in x only. */
  ghost predicate Alike(st0: EncodeState, st1: EncodeState, x: string) {
    st0.buf == st1.buf && st0.cursor == st1.cursor && Agree(st0.m, st1.m, x, 0)
  }

  /** The bytes a segment takes. */
  function GroupSize(g: seq<Field>, o: Object): nat
    requires IsGroup(g) && AllTyped(g, o)
  {
    assert g[0] in g;
    match g[0]
    case Text(_, length) => length
    case VarText(name) => if name.Some? then |o[name.value].s| + 2 else 0
    case _ => CalcSize(FormatOf(g, false))
  }

  /** The payload has the bytes of the buffer, as far as there are any. */
  predicate Carried(payload: seq<byte>, buf: seq<byte>, lo: nat, hi: nat) {
    forall k :: lo <= k < hi && k < |buf| ==> SameByte(payload, buf, k)
  }

  predicate SameByte(payload: seq<byte>, buf: seq<byte>, k: nat)
    requires k < |buf|
  {
    k < |payload| && payload[k] == buf[k]
  }

  lemma BytesSame(g: seq<Field>, o0: Object, o1: Object, x: string)
    requires GroupOk(g, o0, false) && GroupOk(g, o1, false) && SameBut(o0, o1, x) && x !in AllNames(g)
    ensures GroupBytes(g, o0, false) == GroupBytes(g, o1, false)
  {
    assert g[0] in g;
    if g[0].Number() {
      SlotValsSame(g, o0, o1, x);
    } else {
      assert g == [g[0]] && g[1..] == [] && AllNames(g) == Names(g[0]) + [];
      assert g[0].name.value in Names(g[0]);
    }
  }

  lemma BytesSize(g: seq<Field>, o: Object)
    requires GroupOk(g, o, false) && Distinct(AllNames(g)) && GroupBytes(g, o, false).Some?
    ensures |GroupBytes(g, o, false).value| == GroupSize(g, o)
  {
    assert g[0] in g;
    if !g[0].VarText? {
      GroupBytesLength(g, 0, o, false);
    }
  }

  /** The locals after a segment do not depend on x. */
  lemma LocalsAlike(g: seq<Field>, start: nat, variable: bool, ops: seq<EncodeOp>, x: string,
                    st0: EncodeState, st1: EncodeState, mid0: EncodeState, mid1: EncodeState)
    requires IsGroup(g) && GenEncode(SegmentOf(g, start, false), variable, false) == Ok(ops) && x !in AllNames(g)
    requires g[0].VarText? ==> variable
    requires Agree(st0.m, st1.m, x, 0) && RunEncode(ops, st0) == Some(mid0) && RunEncode(ops, st1) == Some(mid1)
    ensures Agree(mid0.m, mid1.m, x, 0)
  {
    assert g[0] in g;
    GroupOps(g, start, variable, ops);
    RunEncodeSteps(ops, st0);
    RunEncodeSteps(ops, st1);
    if g[0].Number() {
      var e := EmitAttrs(NO_EMISSION, AttrsFrom(g, 0), false).value;
      AttrFacts(g, 0);
      EmitBlind(NO_EMISSION, AttrsFrom(g, 0), x);
      RunAgree(e.out, st0.m, st1.m, x, 0);
    }
  }

  /** Reading the same bytes gives the same result. */
  lemma ReadsAlike(g: seq<Field>, start: nat, counter: Option<string>, dops: seq<DecodeOp>, b: seq<byte>, o: Object,
                   payload0: seq<byte>, payload1: seq<byte>, ds: DecodeState)
    requires GroupOk(g, o, false) && GroupBytes(g, o, false) == Some(b) && Distinct(AllNames(g))
    requires GenDecode(SegmentOf(g, start, false), counter, false) == Ok(dops)
    requires Holds(payload0, ds.cursor, b) && Holds(payload1, ds.cursor, b)
    ensures RunDecode(dops, payload0, ds) == RunDecode(dops, payload1, ds)
  {
    assert g[0] in g;
    match g[0]
    case Text(name, length) =>
      assert dops == [GetString(name.value, length), SkipBytes(length)];
      TextReadsAlike(name.value, length, b, payload0, payload1, ds);
    case VarText(name) =>
      assert dops == [GetVarString(name.value)];
      VarTextReadsAlike(name.value, o[name.value].s, b, payload0, payload1, ds);
    case _ =>
      var fmt, body := FormatOf(g, false), DecodeAttrs(AttrsFrom(g, 0), counter, false);
      PackUnpack(fmt, AllSlotVals(g, o, false));
      assert dops == [UnpackFrom(fmt, body), SkipBytes(CalcSize(fmt))];
      NumbersReadAlike(fmt, body, b, payload0, payload1, ds);
  }

  lemma NumbersReadAlike(fmt: seq<Code>, body: seq<Stmt>, b: seq<byte>, payload0: seq<byte>, payload1: seq<byte>,
                         ds: DecodeState)
    requires |b| == CalcSize(fmt) && Holds(payload0, ds.cursor, b) && Holds(payload1, ds.cursor, b)
    ensures RunDecode([UnpackFrom(fmt, body), SkipBytes(CalcSize(fmt))], payload0, ds)
         == RunDecode([UnpackFrom(fmt, body), SkipBytes(CalcSize(fmt))], payload1, ds)
  {
    UnpackRuns(fmt, body, b, payload0, ds);
    UnpackRuns(fmt, body, b, payload1, ds);
    RunDecodeTwo(UnpackFrom(fmt, body), SkipBytes(CalcSize(fmt)), payload0, ds);
    RunDecodeTwo(UnpackFrom(fmt, body), SkipBytes(CalcSize(fmt)), payload1, ds);
  }

  lemma TextReadsAlike(name: string, length: nat, b: seq<byte>, payload0: seq<byte>, payload1: seq<byte>,
                       ds: DecodeState)
    requires |b| == length && Holds(payload0, ds.cursor, b) && Holds(payload1, ds.cursor, b)
    ensures RunDecode([GetString(name, length), SkipBytes(length)], payload0, ds)
         == RunDecode([GetString(name, length), SkipBytes(length)], payload1, ds)
  {
    SliceHeld(payload0, ds.cursor, ds.cursor + length, b);
    SliceHeld(payload1, ds.cursor, ds.cursor + length, b);
    assert RunDecodeOp(GetString(name, length), payload0, ds) == RunDecodeOp(GetString(name, length), payload1, ds);
    RunDecodeTwo(GetString(name, length), SkipBytes(length), payload0, ds);
    RunDecodeTwo(GetString(name, length), SkipBytes(length), payload1, ds);
  }

  lemma SliceHeld(payload: seq<byte>, at: nat, end: nat, b: seq<byte>)
    requires Holds(payload, at, b) && end == at + |b|
    ensures Slice(payload, at, end) == b
  {
  }

  lemma VarTextReadsAlike(name: string, s: seq<byte>, b: seq<byte>, payload0: seq<byte>, payload1: seq<byte>,
                          ds: DecodeState)
    requires |s| + 2 <= 255 && b == [|s| + 2, 1] + s && Holds(payload0, ds.cursor, b) && Holds(payload1, ds.cursor, b)
    ensures RunDecode([GetVarString(name)], payload0, ds) == RunDecode([GetVarString(name)], payload1, ds)
  {
    VarTextFound(s, payload0, ds.cursor);
    VarTextFound(s, payload1, ds.cursor);
    assert [GetVarString(name)][1..] == [];
  }

  lemma CarriedHolds(payload: seq<byte>, buf: seq<byte>, at: nat, b: seq<byte>)
    requires at + |b| <= |buf| && buf[at..at + |b|] == b && Carried(payload, buf, at, at + |b|)
    requires b != []
    ensures Holds(payload, at, b)
  {
    assert SameByte(payload, buf, at + |b| - 1);
    forall i | 0 <= i < |b| ensures payload[at + i] == b[i] {
      assert SameByte(payload, buf, at + i);
      assert buf[at..at + |b|][i] == b[i];
    }
  }

  lemma NoEmptySegment(g: seq<Field>, o: Object)
    requires IsGroup(g) && AllTyped(g, o) && SupportedFields(g, true)
    ensures GroupSize(g, o) > 0
  {
    assert g[0] in g;
    if g[0].Number() {
      assert FormatOf(g, false)[0] == Format(g[0], false)[0];
    }
  }

  /** A segment the emission handles is written alike, with the bytes it has, by both encoders. */
  lemma WritesAlike(g: seq<Field>, start: nat, variable: bool, ops: seq<EncodeOp>, x: string,
                    st0: EncodeState, st1: EncodeState, mid0: EncodeState, mid1: EncodeState) returns (b: seq<byte>)
    requires GroupOk(g, st0.m.obj, false) && GroupOk(g, st1.m.obj, false) && Distinct(AllNames(g)) && x !in AllNames(g)
    requires g[0].VarText? ==> variable
    requires GenEncode(SegmentOf(g, start, false), variable, false) == Ok(ops)
    requires Alike(st0, st1, x) && RunEncode(ops, st0) == Some(mid0) && RunEncode(ops, st1) == Some(mid1)
    requires Position(st0, start, variable) + GroupSize(g, st0.m.obj) <= |st0.buf|
    ensures GroupBytes(g, st0.m.obj, false) == Some(b) && |b| == GroupSize(g, st0.m.obj)
    ensures Alike(mid0, mid1, x) && mid0.m.obj == st0.m.obj && mid1.m.obj == st1.m.obj
    ensures Position(st0, start, variable) + |b| <= |st0.buf|
    ensures Wrote(st0, mid0, start, b, variable) && Wrote(st1, mid1, start, b, variable)
  {
    BytesSame(g, st0.m.obj, st1.m.obj, x);
    var ops0 := EncodeGroup(g, start, st0, variable, false);
    var ops1 := EncodeGroup(g, start, st1, variable, false);
    b := GroupBytes(g, st0.m.obj, false).value;
    BytesSize(g, st0.m.obj);
    assert Position(st1, start, variable) == Position(st0, start, variable);
    LocalsAlike(g, start, variable, ops, x, st0, st1, mid0, mid1);
  }

  lemma WroteThere(st: EncodeState, mid: EncodeState, start: nat, next: nat, b: seq<byte>, variable: bool, length: nat)
    requires Position(st, start, variable) + |b| <= |st.buf| && Wrote(st, mid, start, b, variable)
    requires next == start + length && (!variable ==> length == |b|)
    ensures var at := Position(st, start, variable);
            |mid.buf| == |st.buf| && mid.buf[at..at + |b|] == b && Position(mid, next, variable) == at + |b|
  {
  }

  /** Both decoders read the segment alike, and come to its end. */
  lemma DecodesAlike(g: seq<Field>, start: nat, counter: Option<string>, dops: seq<DecodeOp>, b: seq<byte>, o: Object,
                     payload0: seq<byte>, payload1: seq<byte>, ds: DecodeState) returns (ds': DecodeState)
    requires GroupOk(g, o, false) && GroupBytes(g, o, false) == Some(b) && Distinct(AllNames(g))
    requires GenDecode(SegmentOf(g, start, false), counter, false) == Ok(dops)
    requires Holds(payload0, ds.cursor, b) && Holds(payload1, ds.cursor, b)
    ensures RunDecode(dops, payload0, ds) == Some(ds') && RunDecode(dops, payload1, ds) == Some(ds')
    ensures ds'.cursor == ds.cursor + |b|
  {
    var d := DecodeGroup(g, start, payload0, ds, o, counter, false);
    ReadsAlike(g, start, counter, dops, b, o, payload0, payload1, ds);
    ds' := RunDecode(dops, payload0, ds).value;
  }

  /** Bytes behind which only more was written are still there, and in the payload. */
  lemma StillHolds(mid: EncodeState, fin: EncodeState, at: nat, b: seq<byte>, lo: nat, hi: nat, payload: seq<byte>)
    requires at + |b| <= |mid.buf| && mid.buf[at..at + |b|] == b && b != []
    requires Grows(mid.buf, fin.buf, at + |b|) && Carried(payload, fin.buf, lo, hi) && lo <= at && at + |b| <= hi
    ensures Holds(payload, at, b)
  {
    assert forall k :: at <= k < at + |b| ==> fin.buf[k] == mid.buf[k];
    assert fin.buf[at..at + |b|] == mid.buf[at..at + |b|];
    CarriedHolds(payload, fin.buf, at, b);
  }
}

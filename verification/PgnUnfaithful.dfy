/**
 Messages on their way through the code generated for a list of segments, up to the first
 segment the emission as written does not handle, and past it.
 */
module PgnUnfaithful {
  import opened Wrappers
  import opened Struct
  import opened PgnFields
  import opened PgnIr
  import opened PgnEmit
  import opened PgnNumbers
  import opened PgnRoundTrip
  import opened PgnText
  import opened PgnProgram
  import opened PgnMessage
  import opened PgnCompiler
  import opened PgnMisaligned
  import opened PgnUnsupported
  import opened PgnFrames
  import opened PgnTwoRuns
  import opened PgnTransfer

  /** The witness of the first segment that is not handled. */
  function GroupsWitness(gs: seq<seq<Field>>): Witness
    requires Sane(gs) && !AllHandled(gs)
  {
    assert gs[0] in gs;
    SaneRest(gs);
    if SupportedFields(gs[0], false) then GroupsWitness(gs[1..])
    else
      NotHandled(gs[0]);
      GroupWitness(gs[0])
  }

  lemma SaneRest(gs: seq<seq<Field>>)
    requires gs != [] && Sane(gs)
    ensures Sane(gs[1..]) && gs[0] in gs && Distinct(AllNames(gs[0]))
    ensures forall x :: x in AllNames(gs[0]) ==> x !in AllNames(Flatten(gs[1..]))
  {
    FlattenParts(gs);
  }

  /** A string is always handled; so the first segment that is not is one of numbers. */
  lemma NotHandled(g: seq<Field>)
    requires IsGroup(g) && SupportedFields(g, true) && !SupportedFields(g, false)
    ensures Unsupported(g)
  {
    assert g[0] in g;
    assert g[0].Number();
    forall f | f in g ensures f.Number() && WellFormed(f) {
      assert SupportedField(f, true);
    }
  }

  /** The witness is an attribute of a two-slot field: an integer or a sub-field. */
  lemma {:induction false} WitnessNamed(gs: seq<seq<Field>>) returns (f: Field)
    requires Sane(gs) && !AllHandled(gs) && GroupsWitness(gs).AtMostOne?
    ensures f in Flatten(gs) && f.Number() && Slots(f) == 2 && GroupsWitness(gs).name in Names(f)
    ensures f.Scalar? ==> TwoSlotInteger(f) && GroupsWitness(gs).other == 65536
    ensures f.BitField? ==> GroupsWitness(gs).other == 1
    ensures GroupsWitness(gs).name in AllNames(Flatten(gs))
    decreases |gs|
  {
    SaneRest(gs);
    FlattenParts(gs);
    if SupportedFields(gs[0], false) {
      f := WitnessNamed(gs[1..]);
    } else {
      NotHandled(gs[0]);
      var k := WitnessField(gs[0]);
      f := gs[0][k];
      NamedIn(gs[0], k, GroupWitness(gs[0]).name);
    }
  }

  lemma {:induction false} NamedIn(fs: seq<Field>, k: nat, x: string)
    requires k < |fs| && x in Names(fs[k])
    ensures x in AllNames(fs)
    decreases k
  {
    if k > 0 {
      NamedIn(fs[1..], k - 1, x);
    }
  }

  // ---- one segment on ----

  lemma FirstOf(gs: seq<seq<Field>>, start: nat, next: nat, variable: bool, counter: Option<string>, t: Transfer)
    returns (eops: seq<EncodeOp>, dops: seq<DecodeOp>, u: Transfer)
    requires gs != [] && (forall g :: g in gs ==> IsGroup(g)) && (variable || NoVarText(Flatten(gs)))
    requires IsGroup(gs[0]) && next == start + SegmentOf(gs[0], start, false).Length()
    requires Passes(gs, start, variable, counter, t)
    ensures gs[0] in gs && gs[0] != [] && (gs[0][0].VarText? ==> variable) && (variable || NoVarText(Flatten(gs[1..])))
    ensures GenEncode(SegmentOf(gs[0], start, false), variable, false) == Ok(eops)
            && RunEncode(eops, t.st) == Some(u.st)
    ensures GenDecode(SegmentOf(gs[0], start, false), counter, false) == Ok(dops)
            && RunDecode(dops, t.payload, t.ds) == Some(u.ds)
    ensures u == t.(st := u.st, ds := u.ds)
    ensures Position(t.st, start, variable) <= Position(u.st, next, variable)
    ensures Position(u.st, next, variable) <= Position(t.fin, End(gs, start), variable)
    ensures Grows(u.st.buf, t.fin.buf, Position(u.st, next, variable))
    ensures Passes(gs[1..], next, variable, counter, u)
    ensures var more := GenDecodeAll(LayoutOf(gs[1..], next, false), counter, false);
            more.Ok? && RunDecode(more.value, t.payload, u.ds) == Some(t.r)
  {
    var layout := LayoutOf(gs, start, false);
    var ops, dall := GenEncodeAll(layout, variable, false).value, GenDecodeAll(layout, counter, false).value;
    var rest, drest;
    eops, rest := OpsCons(gs, start, next, variable, ops);
    dops, drest := DecodeOpsCons(gs, start, next, counter, dall);
    EndCons(gs, start, next);
    FirstVarText(gs, variable);
    RunEncodeConcat(eops, rest, t.st);
    var mid := RunEncode(eops, t.st).value;
    var dmid := DecodedFirst(dops, drest, t.payload, t.ds, t.r);
    u := t.(st := mid, ds := dmid);
    GroupGrows(gs[0], start, variable, eops, t.st, mid);
    GroupsGrow(gs[1..], next, variable, rest, mid, t.fin);
  }

  /** What a segment wrote is what both decoders find. */
  lemma FoundThere(t: Transfer, mid: EncodeState, start: nat, next: nat, variable: bool, b: seq<byte>, hi: nat)
    requires Position(t.st, start, variable) + |b| <= |t.st.buf| && b != []
    requires Wrote(t.st, mid, start, b, variable)
    requires Position(mid, next, variable) == Position(t.st, start, variable) + |b| <= hi
    requires Grows(mid.buf, t.fin.buf, Position(mid, next, variable))
    requires Carried(t.payload, t.fin.buf, Position(t.st, start, variable), hi)
    ensures Holds(t.payload, Position(t.st, start, variable), b)
  {
    var at := Position(t.st, start, variable);
    assert mid.buf[at..at + |b|] == b;
    StillHolds(mid, t.fin, at, b, at, hi, t.payload);
  }

  /** What two messages alike have in one handled segment. */
  lemma HandledGroup(g: seq<Field>, start: nat, next: nat, variable: bool, counter: Option<string>, x: string,
                     eops: seq<EncodeOp>, dops: seq<DecodeOp>, t0: Transfer, t1: Transfer,
                     mid0: EncodeState, mid1: EncodeState, hi0: nat, hi1: nat) returns (ds': DecodeState)
    requires IsGroup(g) && SupportedFields(g, false) && SupportedFields(g, true) && Distinct(AllNames(g))
             && x !in AllNames(g)
    requires AllTyped(g, t0.st.m.obj) && AllTyped(g, t1.st.m.obj) && (g[0].VarText? ==> variable)
    requires next == start + SegmentOf(g, start, false).Length()
    requires GenEncode(SegmentOf(g, start, false), variable, false) == Ok(eops)
    requires GenDecode(SegmentOf(g, start, false), counter, false) == Ok(dops)
    requires RunEncode(eops, t0.st) == Some(mid0) && RunEncode(eops, t1.st) == Some(mid1)
             && SideBySide(t0, t1, x, start, variable)
    requires Position(t0.st, start, variable) + GroupSize(g, t0.st.m.obj) <= |t0.st.buf|
    requires Reaches(t0, mid0, start, next, variable, hi0) && Reaches(t1, mid1, start, next, variable, hi1)
    ensures RunDecode(dops, t0.payload, t0.ds) == Some(ds') && RunDecode(dops, t1.payload, t1.ds) == Some(ds')
    ensures Alike(mid0, mid1, x) && mid0.m.obj == t0.st.m.obj && mid1.m.obj == t1.st.m.obj && |mid0.buf| == |t0.st.buf|
    ensures ds'.cursor == Position(mid0, next, variable) == Position(t0.st, start, variable) + GroupSize(g, t0.st.m.obj)
  {
    var b := WritesAlike(g, start, variable, eops, x, t0.st, t1.st, mid0, mid1);
    NoEmptySegment(g, t0.st.m.obj);
    LengthIsSize(g, start, t0.st.m.obj);
    WroteThere(t0.st, mid0, start, next, b, variable, next - start);
    FoundThere(t0, mid0, start, next, variable, b, hi0);
    FoundThere(t1, mid1, start, next, variable, b, hi1);
    ds' := DecodesAlike(g, start, counter, dops, b, t0.st.m.obj, t0.payload, t1.payload, t0.ds);
  }

  /** Through a segment that is handled two messages pass alike. */
  lemma HandledFirst(gs: seq<seq<Field>>, start: nat, variable: bool, counter: Option<string>, x: string, t0: Transfer,
                     t1: Transfer, more: nat)
    returns (next: nat, u0: Transfer, u1: Transfer)
    requires gs != [] && (forall g :: g in gs ==> IsGroup(g)) && IsGroup(gs[0]) && Distinct(AllNames(gs[0]))
    requires SupportedFields(gs[0], true) && SupportedFields(gs[0], false) && (variable || NoVarText(Flatten(gs)))
    requires AllTyped(gs[0], t0.st.m.obj) && AllTyped(gs[0], t1.st.m.obj) && x !in AllNames(gs[0])
    requires Passes(gs, start, variable, counter, t0) && Passes(gs, start, variable, counter, t1)
             && SideBySide(t0, t1, x, start, variable)
    requires Position(t0.st, start, variable) + GroupSize(gs[0], t0.st.m.obj) + more <= |t0.st.buf|
    ensures variable || NoVarText(Flatten(gs[1..]))
    ensures Passes(gs[1..], next, variable, counter, u0) && Passes(gs[1..], next, variable, counter, u1)
            && SideBySide(u0, u1, x, next, variable)
    ensures u0.st.m.obj == t0.st.m.obj && u1.st.m.obj == t1.st.m.obj && u0.r == t0.r && u1.r == t1.r
    ensures Position(u0.st, next, variable) + more <= |u0.st.buf|
  {
    next := start + SegmentOf(gs[0], start, false).Length();
    var eops, dops;
    eops, dops, u0 := FirstOf(gs, start, next, variable, counter, t0);
    eops, dops, u1 := FirstOf(gs, start, next, variable, counter, t1);
    var ds' := HandledGroup(gs[0], start, next, variable, counter, x, eops, dops, t0, t1, u0.st, u1.st,
                            Position(t0.fin, End(gs, start), variable), Position(t1.fin, End(gs, start), variable));
  }

  lemma LengthIsSize(g: seq<Field>, start: nat, o: Object)
    requires IsGroup(g) && AllTyped(g, o)
    ensures !g[0].VarText? ==> SegmentOf(g, start, false).Length() == GroupSize(g, o)
  {
  }

  // ---- the segment that is not handled ----

  /** What running the encode code of a segment of numbers did. */
  lemma PackedBy(g: seq<Field>, start: nat, next: nat, variable: bool, ops: seq<EncodeOp>, st: EncodeState,
                 mid: EncodeState)
    returns (e: Emission, vals: seq<int>, b: seq<byte>)
    requires IsGroup(g) && AllNumbers(g) && next == start + CalcSize(FormatOf(g, false))
    requires GenEncode(SegmentOf(g, start, false), variable, false) == Ok(ops) && RunEncode(ops, st) == Some(mid)
    ensures EmitAttrs(NO_EMISSION, AttrsFrom(g, 0), false) == Ok(e) && Run(e.out, st.m) == Some(mid.m)
    ensures ReadAll(e.args, mid.m) == Some(vals) && Pack(FormatOf(g, false), vals) == Some(b)
            && |b| == CalcSize(FormatOf(g, false))
    ensures Position(st, start, variable) + |b| <= |st.buf|
    ensures mid.buf == Splice(st.buf, Position(st, start, variable), b)
            && Position(mid, next, variable) == Position(st, start, variable) + |b|
  {
    assert g[0] in g;
    GroupOps(g, start, variable, ops);
    RunEncodeSteps(ops, st);
    e := EmitAttrs(NO_EMISSION, AttrsFrom(g, 0), false).value;
    vals := ReadAll(e.args, mid.m).value;
    b := Pack(FormatOf(g, false), vals).value;
    PackUnpack(FormatOf(g, false), vals);
  }

  /** A message that passes a segment of numbers carries its operands to the decoder. */
  lemma PassingCarries(g: seq<Field>, start: nat, next: nat, variable: bool, counter: Option<string>,
                       eops: seq<EncodeOp>, dops: seq<DecodeOp>, t: Transfer, u: Transfer, hi: nat)
                         returns (vals: seq<int>)
    requires IsGroup(g) && AllNumbers(g) && CalcSize(FormatOf(g, false)) > 0
             && next == start + CalcSize(FormatOf(g, false))
    requires GenEncode(SegmentOf(g, start, false), variable, false) == Ok(eops) && RunEncode(eops, t.st) == Some(u.st)
    requires GenDecode(SegmentOf(g, start, false), counter, false) == Ok(dops)
             && RunDecode(dops, t.payload, t.ds) == Some(u.ds)
    requires Reaches(t, u.st, start, next, variable, hi) && t.ds.cursor == Position(t.st, start, variable)
    ensures Carries(g, counter, t.st.m, vals, t.ds.m, u.ds.m)
  {
    assert g[0] in g;
    var fmt, at := FormatOf(g, false), Position(t.st, start, variable);
    var e, b;
    e, vals, b := PackedBy(g, start, next, variable, eops, t.st, u.st);
    PackUnpack(fmt, vals);
    assert u.st.buf[at..at + |b|] == b;
    StillHolds(u.st, t.fin, at, b, at, hi, t.payload);
    ReadsOperands(fmt, DecodeAttrs(AttrsFrom(g, 0), counter, false), dops, t.payload, t.ds, u.ds, b, vals);
  }

  lemma ReadsOperands(fmt: seq<Code>, body: seq<Stmt>, ops: seq<DecodeOp>, payload: seq<byte>, ds: DecodeState,
                      ds': DecodeState, b: seq<byte>, vals: seq<int>)
    requires |ops| == 2 && ops[0] == UnpackFrom(fmt, body) && ops[1].SkipBytes?
             && RunDecode(ops, payload, ds) == Some(ds')
    requires Holds(payload, ds.cursor, b) && |b| == CalcSize(fmt) && Unpack(fmt, b) == vals
    ensures Run(body, ds.m.(val := vals)) == Some(ds'.m)
  {
    assert ops == [ops[0], ops[1]];
    RunDecodeTwo(ops[0], ops[1], payload, ds);
    UnpackRuns(fmt, body, b, payload, ds);
  }

  /** Of two messages that differ as its witness says at most one comes back through a segment that is not handled. */
  lemma UnhandledFirst(gs: seq<seq<Field>>, start: nat, variable: bool, counter: Option<string>, x: string,
                       t0: Transfer, t1: Transfer)
    requires gs != [] && Sane(gs) && IsGroup(gs[0]) && Unsupported(gs[0]) && (variable || NoVarText(Flatten(gs)))
    requires AllTyped(gs[0], t0.st.m.obj) && AllTyped(gs[0], t1.st.m.obj)
    requires Passes(gs, start, variable, counter, t0) && Passes(gs, start, variable, counter, t1)
             && SideBySide(t0, t1, x, start, variable)
    requires GroupWitness(gs[0]).AtMostOne? ==> x == GroupWitness(gs[0]).name && counter != Some(x)
    ensures GroupWitness(gs[0]).AtMostOne?
    ensures NotBoth(t0, t1, x, GroupWitness(gs[0]).other)
  {
    SaneRest(gs);
    var g := gs[0];
    assert g[0] in g;
    NoEmptySegment(g, t0.st.m.obj);
    var next := start + CalcSize(FormatOf(g, false));
    var eops, dops, u0, u1;
    eops, dops, u0 := FirstOf(gs, start, next, variable, counter, t0);
    eops, dops, u1 := FirstOf(gs, start, next, variable, counter, t1);
    var v0 := PassingCarries(g, start, next, variable, counter, eops, dops, t0, u0,
                             Position(t0.fin, End(gs, start), variable));
    var v1 := PassingCarries(g, start, next, variable, counter, eops, dops, t1, u1,
                             Position(t1.fin, End(gs, start), variable));
    GroupNeverBoth(g, counter, t0.st.m, t1.st.m, v0, v1, t0.ds.m, u0.ds.m, u1.ds.m);
    var k := WitnessField(g);
    NamedIn(g, k, x);
    KeptBehind(gs[1..], next, variable, counter, x, u0);
    KeptBehind(gs[1..], next, variable, counter, x, u1);
  }

  lemma KeptBehind(gs: seq<seq<Field>>, start: nat, variable: bool, counter: Option<string>, x: string, t: Transfer)
    requires (forall g :: g in gs ==> IsGroup(g)) && x !in AllNames(Flatten(gs))
             && Passes(gs, start, variable, counter, t)
    ensures SameAt(t.ds.m.obj, t.r.m.obj, x)
  {
    GroupsKeep(gs, start, counter, GenDecodeAll(LayoutOf(gs, start, false), counter, false).value, t.payload, x, t.ds,
               t.r);
  }

  /**
   Through any list of segments with one that is not handled: of two messages that differ
   as the witness says at most one comes back, and without a witness none is encoded.
   */
  lemma {:induction false} NeverBoth(gs: seq<seq<Field>>, start: nat, variable: bool, counter: Option<string>,
                                     x: string, t0: Transfer, t1: Transfer)
    requires Sane(gs) && !AllHandled(gs) && (variable || NoVarText(Flatten(gs)))
    requires GroupsTyped(gs, t0.st.m.obj) && GroupsTyped(gs, t1.st.m.obj)
    requires Passes(gs, start, variable, counter, t0) && Passes(gs, start, variable, counter, t1)
             && SideBySide(t0, t1, x, start, variable)
    requires Position(t0.st, start, variable) + GroupsSize(gs, t0.st.m.obj) <= |t0.st.buf|
    requires counter != Some(x)
    requires if GroupsWitness(gs).AtMostOne? then x == GroupsWitness(gs).name else x !in AllNames(Flatten(gs))
    ensures GroupsWitness(gs).AtMostOne?
    ensures NotBoth(t0, t1, x, GroupsWitness(gs).other)
    decreases |gs|
  {
    SaneRest(gs);
    if SupportedFields(gs[0], false) {
      FlattenParts(gs);
      if GroupsWitness(gs).AtMostOne? {
        var f := WitnessNamed(gs[1..]);
      }
      var next, u0, u1 := HandledFirst(gs, start, variable, counter, x, t0, t1, GroupsSize(gs[1..], t0.st.m.obj));
      NeverBoth(gs[1..], next, variable, counter, x, u0, u1);
    } else {
      NotHandled(gs[0]);
      UnhandledFirst(gs, start, variable, counter, x, t0, t1);
    }
  }
}

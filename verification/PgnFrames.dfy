/**
 What the methods generated for any list of segments leave alone, handled correctly or
 not: the bytes before the place a segment is written to, and attributes it does not name.
 */
module PgnFrames {
  import opened Wrappers
  import opened Struct
  import opened PgnFields
  import opened PgnIr
  import opened PgnEmit
  import opened PgnText
  import opened PgnProgram
  import opened PgnMessage
  import opened PgnCompiler
  import opened PgnInterference
  import opened PgnMisaligned

  // ---- encoding ----

  /** The buffer does not shrink, and the bytes before lo stay. */
  predicate Grows(buf: seq<byte>, buf': seq<byte>, lo: nat) {
    |buf| <= |buf'| && forall k :: 0 <= k < lo && k < |buf| ==> buf'[k] == buf[k]
  }

  lemma SliceGrows(buf: seq<byte>, a: nat, b: nat, data: seq<byte>)
    requires a <= b && |data| == b - a
    ensures Grows(buf, SliceAssign(buf, a, b, data), a)
  {
  }

  lemma SpliceGrows(buf: seq<byte>, at: nat, data: seq<byte>)
    requires at + |data| <= |buf|
    ensures Grows(buf, Splice(buf, at, data), at)
  {
  }

  lemma InsertStringGrows(buf: seq<byte>, start: nat, length: nat, s: seq<byte>)
    ensures var r := InsertString(buf, start, length, s); r.Some? ==> Grows(buf, r.value, start)
  {
    var text := s[..Min(|s|, length)];
    SliceGrows(buf, start, start + |text|, text);
  }

  lemma InsertVarStrGrows(buf: seq<byte>, start: nat, s: seq<byte>)
    ensures var r := InsertVarStr(buf, start, s); r.Some? ==> Grows(buf, r.value, start)
  {
    if |s| + 2 <= 255 && start + 2 <= |buf| {
      SliceGrows(buf[start := |s| + 2][start + 1 := 1], start + 2, start + 2 + |s|, s);
    }
  }

  lemma OpGrows(op: EncodeOp, st: EncodeState, at: nat)
    requires op.PackInto? || op.PutString? ==> op.at == at
    requires op.PutVarString? ==> at == 0
    requires RunEncodeOp(op, st).Some?
    ensures Grows(st.buf, RunEncodeOp(op, st).value.buf, st.cursor + at)
            && RunEncodeOp(op, st).value.cursor >= st.cursor
    ensures op.PackInto? || op.PutString? ==> RunEncodeOp(op, st).value.cursor == st.cursor
  {
    match op
    case PackInto(body, format, args, _) =>
      SpliceGrows(st.buf, st.cursor + at, Pack(format, ReadAll(args, Run(body, st.m).value).value).value);
    case PutString(name, size, _) => InsertStringGrows(st.buf, st.cursor + at, size, StringOf(name, st.m.obj).value);
    case PutVarString(name) => InsertVarStrGrows(st.buf, st.cursor, StringOf(name, st.m.obj).value);
    case AdvanceBy(_) =>
  }

  /** The statements of one segment: one that writes, and possibly one that moves start_byte. */
  lemma GroupOps(g: seq<Field>, start: nat, variable: bool, ops: seq<EncodeOp>)
    requires IsGroup(g) && GenEncode(SegmentOf(g, start, false), variable, false) == Ok(ops)
    requires g[0].VarText? ==> variable
    ensures var at := if variable then 0 else start;
            && |ops| == (if variable && !g[0].VarText? then 2 else 1)
            && !ops[0].AdvanceBy? && (ops[0].PackInto? || ops[0].PutString? ==> ops[0].at == at)
               && (ops[0].PutVarString? ==> at == 0)
            && (ops[0].PutVarString? <==> g[0].VarText?)
            && (|ops| == 2 ==> ops[1] == AdvanceBy(SegmentOf(g, start, false).Length()))
  {
  }

  lemma GroupGrows(g: seq<Field>, start: nat, variable: bool, ops: seq<EncodeOp>, st: EncodeState, st': EncodeState)
    requires IsGroup(g) && GenEncode(SegmentOf(g, start, false), variable, false) == Ok(ops)
    requires g[0].VarText? ==> variable
    requires RunEncode(ops, st) == Some(st')
    ensures Grows(st.buf, st'.buf, Position(st, start, variable))
    ensures Position(st', start + SegmentOf(g, start, false).Length(), variable) >= Position(st, start, variable)
    ensures !variable ==> st'.cursor == st.cursor
  {
    GroupOps(g, start, variable, ops);
    RunEncodeSteps(ops, st);
    OpGrows(ops[0], st, if variable then 0 else start);
  }

  function End(gs: seq<seq<Field>>, start: nat): nat
    requires forall g :: g in gs ==> IsGroup(g)
  {
    start + StaticSize(LayoutOf(gs, start, false))
  }

  lemma EndCons(gs: seq<seq<Field>>, start: nat, next: nat)
    requires gs != [] && (forall g :: g in gs ==> IsGroup(g)) && IsGroup(gs[0])
    requires next == start + SegmentOf(gs[0], start, false).Length()
    ensures End(gs, start) == End(gs[1..], next)
  {
    LayoutCons(gs, start, false);
  }

  /** The generated code of a list of segments is that of the first one, then of the others. */
  lemma OpsCons(gs: seq<seq<Field>>, start: nat, next: nat, variable: bool, ops: seq<EncodeOp>)
      returns (first: seq<EncodeOp>, rest: seq<EncodeOp>)
    requires gs != [] && (forall g :: g in gs ==> IsGroup(g)) && IsGroup(gs[0])
             && next == start + SegmentOf(gs[0], start, false).Length()
    requires GenEncodeAll(LayoutOf(gs, start, false), variable, false) == Ok(ops)
    ensures gs[0] in gs && ops == first + rest
    ensures GenEncode(SegmentOf(gs[0], start, false), variable, false) == Ok(first)
    ensures GenEncodeAll(LayoutOf(gs[1..], next, false), variable, false) == Ok(rest)
  {
    LayoutCons(gs, start, false);
    var seg := SegmentOf(gs[0], start, false);
    var more := LayoutOf(gs[1..], start + seg.Length(), false);
    assert ([seg] + more)[1..] == more;
    first, rest := GenEncode(seg, variable, false).value, GenEncodeAll(more, variable, false).value;
  }

  lemma {:induction false} GroupsGrow(gs: seq<seq<Field>>, start: nat, variable: bool, ops: seq<EncodeOp>,
                                      st: EncodeState, st': EncodeState)
    requires (forall g :: g in gs ==> IsGroup(g)) && (variable || NoVarText(Flatten(gs)))
    requires GenEncodeAll(LayoutOf(gs, start, false), variable, false) == Ok(ops) && RunEncode(ops, st) == Some(st')
    ensures Grows(st.buf, st'.buf, Position(st, start, variable))
    ensures Position(st', End(gs, start), variable) >= Position(st, start, variable)
    ensures !variable ==> st'.cursor == st.cursor
    decreases |gs|
  {
    if gs != [] {
      assert gs[0] in gs;
      var next := start + SegmentOf(gs[0], start, false).Length();
      var first, rest := OpsCons(gs, start, next, variable, ops);
      EndCons(gs, start, next);
      FirstVarText(gs, variable);
      RunEncodeConcat(first, rest, st);
      var mid := RunEncode(first, st).value;
      GroupGrows(gs[0], start, variable, first, st, mid);
      GroupsGrow(gs[1..], next, variable, rest, mid, st');
    }
  }

  lemma FirstVarText(gs: seq<seq<Field>>, variable: bool)
    requires gs != [] && (forall g :: g in gs ==> IsGroup(g)) && (variable || NoVarText(Flatten(gs)))
    ensures gs[0] in gs && gs[0] != [] && (gs[0][0].VarText? ==> variable)
    ensures variable || NoVarText(Flatten(gs[1..]))
  {
    assert IsGroup(gs[0]);
    assert gs[0][0] in gs[0] && gs[0][0] in Flatten(gs);
  }

  // ---- decoding ----

  lemma DecodeOpsCons(gs: seq<seq<Field>>, start: nat, next: nat, counter: Option<string>, ops: seq<DecodeOp>)
      returns (first: seq<DecodeOp>, rest: seq<DecodeOp>)
    requires gs != [] && (forall g :: g in gs ==> IsGroup(g)) && IsGroup(gs[0])
             && next == start + SegmentOf(gs[0], start, false).Length()
    requires GenDecodeAll(LayoutOf(gs, start, false), counter, false) == Ok(ops)
    ensures gs[0] in gs && ops == first + rest
    ensures GenDecode(SegmentOf(gs[0], start, false), counter, false) == Ok(first)
    ensures GenDecodeAll(LayoutOf(gs[1..], next, false), counter, false) == Ok(rest)
  {
    LayoutCons(gs, start, false);
    var seg := SegmentOf(gs[0], start, false);
    var more := LayoutOf(gs[1..], start + seg.Length(), false);
    assert ([seg] + more)[1..] == more;
    first, rest := GenDecode(seg, counter, false).value, GenDecodeAll(more, counter, false).value;
  }

  predicate SameAt(o: Object, o': Object, x: string) { (x in o' <==> x in o) && (x in o ==> o'[x] == o[x]) }

  lemma GroupKeeps(g: seq<Field>, start: nat, counter: Option<string>, ops: seq<DecodeOp>, payload: seq<byte>,
                   x: string, st: DecodeState, st': DecodeState)
    requires IsGroup(g) && GenDecode(SegmentOf(g, start, false), counter, false) == Ok(ops) && x !in AllNames(g)
    requires RunDecode(ops, payload, st) == Some(st')
    ensures SameAt(st.m.obj, st'.m.obj, x)
  {
    assert g[0] in g;
    if g[0].Number() {
      NumbersKeep(g, counter, ops, payload, x, st, st');
    } else {
      assert g == [g[0]] && g[1..] == [] && AllNames(g) == Names(g[0]) + [];
      assert g[0].name.value in Names(g[0]);
      if g[0].VarText? {
        assert ops[1..] == [];
      } else {
        assert ops == [ops[0], ops[1]];
        RunDecodeTwo(ops[0], ops[1], payload, st);
      }
    }
  }

  lemma NumbersKeep(g: seq<Field>, counter: Option<string>, ops: seq<DecodeOp>, payload: seq<byte>, x: string,
                    st: DecodeState, st': DecodeState)
    requires (forall f :: f in g ==> f.Number()) && x !in AllNames(g)
    requires |ops| == 2 && ops[0] == UnpackFrom(FormatOf(g, false), DecodeAttrs(AttrsFrom(g, 0), counter, false))
             && ops[1].SkipBytes?
    requires RunDecode(ops, payload, st) == Some(st')
    ensures SameAt(st.m.obj, st'.m.obj, x)
  {
    AttrFacts(g, 0);
    DecodeSetsNames(AttrsFrom(g, 0), counter, x);
    var vals, m := UnpackedBy(FormatOf(g, false), DecodeAttrs(AttrsFrom(g, 0), counter, false), ops, payload, st, st');
    RunKeeps(DecodeAttrs(AttrsFrom(g, 0), counter, false), st.m.(val := vals), x);
  }

  /** A segment of numbers that was decoded: its code has run on what was unpacked. */
  lemma UnpackedBy(fmt: seq<Code>, body: seq<Stmt>, ops: seq<DecodeOp>, payload: seq<byte>, st: DecodeState,
                   st': DecodeState)
    returns (vals: seq<int>, m: Machine)
    requires |ops| == 2 && ops[0] == UnpackFrom(fmt, body) && ops[1].SkipBytes?
    requires RunDecode(ops, payload, st) == Some(st')
    ensures st.cursor + CalcSize(fmt) <= |payload| && vals == Unpack(fmt, payload[st.cursor..st.cursor + CalcSize(fmt)])
    ensures Run(body, st.m.(val := vals)) == Some(m) && st' == DecodeState(st.cursor + ops[1].n, m)
  {
    assert ops == [ops[0], ops[1]];
    RunDecodeTwo(ops[0], ops[1], payload, st);
    vals := Unpack(fmt, payload[st.cursor..st.cursor + CalcSize(fmt)]);
    m := st'.m;
  }

  lemma DecodedFirst(first: seq<DecodeOp>, rest: seq<DecodeOp>, payload: seq<byte>, st: DecodeState, st': DecodeState)
    returns (mid: DecodeState)
    requires RunDecode(first + rest, payload, st) == Some(st')
    ensures RunDecode(first, payload, st) == Some(mid) && RunDecode(rest, payload, mid) == Some(st')
  {
    RunDecodeConcat(first, rest, payload, st);
    mid := RunDecode(first, payload, st).value;
  }

  lemma {:induction false} GroupsKeep(gs: seq<seq<Field>>, start: nat, counter: Option<string>, ops: seq<DecodeOp>,
                                      payload: seq<byte>, x: string, st: DecodeState, st': DecodeState)
    requires (forall g :: g in gs ==> IsGroup(g)) && x !in AllNames(Flatten(gs))
    requires GenDecodeAll(LayoutOf(gs, start, false), counter, false) == Ok(ops)
             && RunDecode(ops, payload, st) == Some(st')
    ensures SameAt(st.m.obj, st'.m.obj, x)
    decreases |gs|
  {
    if gs != [] {
      assert gs[0] in gs;
      var next := start + SegmentOf(gs[0], start, false).Length();
      var first, rest := DecodeOpsCons(gs, start, next, counter, ops);
      NamesConcat(gs[0], Flatten(gs[1..]));
      var mid := DecodedFirst(first, rest, payload, st, st');
      GroupKeeps(gs[0], start, counter, first, payload, x, st, mid);
      GroupsKeep(gs[1..], next, counter, rest, payload, x, mid, st');
    }
  }
}

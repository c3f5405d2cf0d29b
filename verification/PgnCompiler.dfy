/**
 The compiler from field sets to decode_payload / encode_payload pairs, and its main
 theorems: fixed messages, and messages with variable strings and repeated sets.
 */
module PgnCompiler {
  import opened Wrappers
  import opened Struct
  import opened PgnFields
  import opened PgnIr
  import opened PgnEmit
  import opened PgnExact
  import opened PgnRoundTrip
  import opened PgnText
  import opened PgnProgram
  import opened PgnMessage

  // ---- segments in a row ----

  predicate GroupsOk(gs: seq<seq<Field>>, obj: Object, corrected: bool) {
    forall g :: g in gs ==> GroupOk(g, obj, corrected)
  }

  predicate NoVarText(fs: seq<Field>) { forall f :: f in fs ==> !f.VarText? }

  /** The whole payload; None where some segment raises. */
  function PayloadOf(gs: seq<seq<Field>>, obj: Object, corrected: bool): Option<seq<byte>>
    requires GroupsOk(gs, obj, corrected)
  {
    if gs == [] then Some([])
    else Concat(GroupBytes(gs[0], obj, corrected), PayloadOf(gs[1..], obj, corrected))
  }

  lemma FlattenParts(gs: seq<seq<Field>>)
    requires gs != [] && Distinct(AllNames(Flatten(gs)))
    ensures AllNames(Flatten(gs)) == AllNames(gs[0]) + AllNames(Flatten(gs[1..]))
    ensures Distinct(AllNames(gs[0])) && Distinct(AllNames(Flatten(gs[1..])))
    ensures forall x :: x in AllNames(gs[0]) ==> x !in AllNames(Flatten(gs[1..]))
  {
    NamesConcat(gs[0], Flatten(gs[1..]));
    DistinctParts(AllNames(gs[0]), AllNames(Flatten(gs[1..])));
  }

  function Concat(a: Option<seq<byte>>, b: Option<seq<byte>>): Option<seq<byte>> {
    if a.None? || b.None? then None else Some(a.value + b.value)
  }

  lemma WroteTwice(st: EncodeState, st1: EncodeState, st2: EncodeState, start: nat, start': nat,
                   a: seq<byte>, b: seq<byte>, variable: bool)
    requires Position(st, start, variable) + |a| + |b| <= |st.buf|
    requires variable || start' == start + |a|
    requires Wrote(st, st1, start, a, variable) && Wrote(st1, st2, start', b, variable)
    ensures Wrote(st, st2, start, a + b, variable)
  {
    SpliceSplice(st.buf, Position(st, start, variable), a, b);
  }

  /** Writing one piece behind another is writing both in one piece. */
  lemma EncodesBoth(first: seq<EncodeOp>, rest: seq<EncodeOp>, st: EncodeState, start: nat, start': nat,
                    a: Option<seq<byte>>, b: Option<seq<byte>>, variable: bool)
    requires Encodes(first, st, start, a, variable)
    requires a.Some? && !variable ==> start' == start + |a.value|
    requires RunEncode(first, st).Some? ==> Encodes(rest, RunEncode(first, st).value, start', b, variable)
    ensures Encodes(first + rest, st, start, Concat(a, b), variable)
  {
    RunEncodeConcat(first, rest, st);
    if RunEncode(first, st).Some? {
      var st1 := RunEncode(first, st).value;
      if a.Some? && b.Some? {
        if Position(st, start, variable) + |a.value| + |b.value| <= |st.buf| {
          WroteTwice(st, st1, RunEncode(rest, st1).value, start, start', a.value, b.value, variable);
        }
      }
    }
  }

  lemma GenEncodeCons(seg: Segment, more: seq<Segment>, variable: bool, corrected: bool, first: seq<EncodeOp>,
                      rest: seq<EncodeOp>)
    requires GenEncode(seg, variable, corrected) == Ok(first) && GenEncodeAll(more, variable, corrected) == Ok(rest)
    ensures GenEncodeAll([seg] + more, variable, corrected) == Ok(first + rest)
  {
    assert ([seg] + more)[1..] == more;
  }

  lemma GenDecodeCons(seg: Segment, more: seq<Segment>, counter: Option<string>, corrected: bool, first: seq<DecodeOp>,
                      rest: seq<DecodeOp>)
    requires GenDecode(seg, counter, corrected) == Ok(first) && GenDecodeAll(more, counter, corrected) == Ok(rest)
    ensures GenDecodeAll([seg] + more, counter, corrected) == Ok(first + rest)
  {
    assert ([seg] + more)[1..] == more;
  }

  /** A payload without variable strings fills [0, static_size). */
  lemma {:induction false} PayloadLength(gs: seq<seq<Field>>, start: nat, obj: Object, corrected: bool)
    requires GroupsOk(gs, obj, corrected) && Distinct(AllNames(Flatten(gs))) && NoVarText(Flatten(gs))
    requires PayloadOf(gs, obj, corrected).Some?
    ensures |PayloadOf(gs, obj, corrected).value| == StaticSize(LayoutOf(gs, start, corrected))
    decreases |gs|
  {
    if gs != [] {
      FirstAndRest(gs, start, obj, false, corrected);
      LayoutCons(gs, start, corrected);
      PayloadUnfolds(gs, obj, corrected);
      PayloadLength(gs[1..], start + SegmentOf(gs[0], start, corrected).Length(), obj, corrected);
    }
  }

  lemma PayloadUnfolds(gs: seq<seq<Field>>, obj: Object, corrected: bool)
    requires gs != [] && GroupsOk(gs, obj, corrected)
    ensures GroupOk(gs[0], obj, corrected) && GroupsOk(gs[1..], obj, corrected)
    ensures PayloadOf(gs, obj, corrected) == Concat(GroupBytes(gs[0], obj, corrected),
                                                    PayloadOf(gs[1..], obj, corrected))
  {
    assert gs[0] in gs;
  }

  lemma FirstAndRest(gs: seq<seq<Field>>, start: nat, obj: Object, variable: bool, corrected: bool)
    requires gs != [] && GroupsOk(gs, obj, corrected) && Distinct(AllNames(Flatten(gs)))
    requires variable || NoVarText(Flatten(gs))
    ensures GroupOk(gs[0], obj, corrected) && Distinct(AllNames(gs[0]))
    ensures GroupsOk(gs[1..], obj, corrected) && Distinct(AllNames(Flatten(gs[1..])))
    ensures variable || NoVarText(Flatten(gs[1..]))
    ensures gs[0] != [] && (gs[0][0].VarText? ==> variable)
    ensures !variable && GroupBytes(gs[0], obj, corrected).Some? ==>
              |GroupBytes(gs[0], obj, corrected).value| == SegmentOf(gs[0], start, corrected).Length()
  {
    assert gs[0] in gs && gs[0][0] in gs[0] && gs[0][0] in Flatten(gs);
    FlattenParts(gs);
    if !variable && GroupBytes(gs[0], obj, corrected).Some? {
      GroupBytesLength(gs[0], start, obj, corrected);
    }
  }

  /**
   The generated encode writes the payload in one piece: at the absolute offsets of the
   layout, or along the running start_byte; or it raises.
   */
  lemma {:induction false} EncodeGroups(gs: seq<seq<Field>>, start: nat, st: EncodeState, variable: bool,
                                        corrected: bool)
    returns (ops: seq<EncodeOp>)
    requires GroupsOk(gs, st.m.obj, corrected) && Distinct(AllNames(Flatten(gs)))
    requires variable || NoVarText(Flatten(gs))
    ensures GenEncodeAll(LayoutOf(gs, start, corrected), variable, corrected) == Ok(ops)
    ensures Encodes(ops, st, start, PayloadOf(gs, st.m.obj, corrected), variable)
    decreases |gs|
  {
    if gs == [] {
      ops := [];
      if Position(st, start, variable) <= |st.buf| {
        assert Splice(st.buf, Position(st, start, variable), []) == st.buf;
      }
    } else {
      FirstAndRest(gs, start, st.m.obj, variable, corrected);
      var next := start + SegmentOf(gs[0], start, corrected).Length();
      var first := EncodeGroup(gs[0], start, st, variable, corrected);
      var st1 := match RunEncode(first, st) case Some(s) => s case None => st;
      var rest := EncodeGroups(gs[1..], next, st1, variable, corrected);
      ops := first + rest;
      GeneratesBoth(gs, start, next, variable, corrected, first, rest);
      EncodesBoth(first, rest, st, start, next, GroupBytes(gs[0], st.m.obj, corrected),
                  PayloadOf(gs[1..], st.m.obj, corrected), variable);
    }
  }

  lemma GeneratesBoth(gs: seq<seq<Field>>, start: nat, next: nat, variable: bool, corrected: bool,
                      first: seq<EncodeOp>, rest: seq<EncodeOp>)
    requires gs != [] && forall g :: g in gs ==> IsGroup(g)
    requires IsGroup(gs[0]) && next == start + SegmentOf(gs[0], start, corrected).Length()
    requires GenEncode(SegmentOf(gs[0], start, corrected), variable, corrected) == Ok(first)
    requires GenEncodeAll(LayoutOf(gs[1..], next, corrected), variable, corrected) == Ok(rest)
    ensures GenEncodeAll(LayoutOf(gs, start, corrected), variable, corrected) == Ok(first + rest)
  {
    LayoutCons(gs, start, corrected);
    GenEncodeCons(SegmentOf(gs[0], start, corrected), LayoutOf(gs[1..], next, corrected), variable, corrected, first,
                  rest);
  }

  lemma HoldsParts(payload: seq<byte>, at: nat, a: seq<byte>, b: seq<byte>)
    requires Holds(payload, at, a + b)
    ensures Holds(payload, at, a) && Holds(payload, at + |a|, b)
  {
    assert payload[at..at + |a|] == (a + b)[..|a|];
    assert payload[at + |a|..at + |a| + |b|] == (a + b)[|a|..];
  }

  lemma DecodesBoth(first: seq<DecodeOp>, more: seq<DecodeOp>, payload: seq<byte>, st: DecodeState,
                    a: Option<seq<byte>>, b: Option<seq<byte>>, names: seq<string>, names': seq<string>,
                    obj: Object, exact: bool, exact': bool)
    requires Decodes(first, payload, st, a, names, obj, exact)
    requires RunDecode(first, payload, st).Some? ==>
               Decodes(more, payload, RunDecode(first, payload, st).value, b, names', obj, exact')
    requires RunDecode(first, payload, st).None? ==> b.None? ==> !exact'
    requires forall x :: x in names ==> x !in names'
    ensures Decodes(first + more, payload, st, Concat(a, b), names + names', obj, exact && exact')
  {
    RunDecodeConcat(first, more, payload, st);
    if a.Some? && b.Some? && Holds(payload, st.cursor, a.value + b.value) {
      HoldsParts(payload, st.cursor, a.value, b.value);
      var st1 := RunDecode(first, payload, st).value;
      RecoveredParts(names, names', obj, st.m.obj, st1.m.obj, RunDecode(more, payload, st1).value.m.obj);
    }
  }

  /** The running-cursor decode reads exactly the bytes the encode wrote. */
  lemma {:induction false} DecodeGroups(gs: seq<seq<Field>>, start: nat, payload: seq<byte>, st: DecodeState,
                                        obj: Object,
                                        counter: Option<string>, corrected: bool) returns (ops: seq<DecodeOp>)
    requires GroupsOk(gs, obj, corrected) && Distinct(AllNames(Flatten(gs)))
    ensures GenDecodeAll(LayoutOf(gs, start, corrected), counter, corrected) == Ok(ops)
    ensures SupportedFields(Flatten(gs), corrected) && AllTyped(Flatten(gs), obj)
    ensures Decodes(ops, payload, st, PayloadOf(gs, obj, corrected), AllNames(Flatten(gs)), obj,
                    MessageExact(Flatten(gs), obj, counter, corrected))
    decreases |gs|
  {
    if gs == [] {
      ops := [];
    } else {
      var g, rest := gs[0], Flatten(gs[1..]);
      PayloadUnfolds(gs, obj, corrected);
      FlattenParts(gs);
      var next := start + SegmentOf(g, start, corrected).Length();
      var first := DecodeGroup(g, start, payload, st, obj, counter, corrected);
      var st1 := match RunDecode(first, payload, st) case Some(s) => s case None => st;
      var more := DecodeGroups(gs[1..], next, payload, st1, obj, counter, corrected);
      ops := first + more;
      DecodesGenerated(gs, start, next, counter, corrected, first, more);
      MessageExactConcat(g, rest, obj, counter, corrected);
      DecodesBoth(first, more, payload, st, GroupBytes(g, obj, corrected), PayloadOf(gs[1..], obj, corrected),
                  AllNames(g), AllNames(rest), obj, MessageExact(g, obj, counter, corrected),
                  MessageExact(rest, obj, counter, corrected));
    }
  }

  lemma DecodesGenerated(gs: seq<seq<Field>>, start: nat, next: nat, counter: Option<string>, corrected: bool,
                         first: seq<DecodeOp>, more: seq<DecodeOp>)
    requires gs != [] && forall g :: g in gs ==> IsGroup(g)
    requires IsGroup(gs[0]) && next == start + SegmentOf(gs[0], start, corrected).Length()
    requires GenDecode(SegmentOf(gs[0], start, corrected), counter, corrected) == Ok(first)
    requires GenDecodeAll(LayoutOf(gs[1..], next, corrected), counter, corrected) == Ok(more)
    ensures GenDecodeAll(LayoutOf(gs, start, corrected), counter, corrected) == Ok(first + more)
  {
    LayoutCons(gs, start, corrected);
    GenDecodeCons(SegmentOf(gs[0], start, corrected), LayoutOf(gs[1..], next, corrected), counter, corrected, first,
                  more);
  }

  // ---- field sets without a repeated set ----

  datatype Program = Program(encode: seq<EncodeOp>, decode: seq<DecodeOp>, size: nat)

  /** Layout, then the two generated methods. */
  function Compile(fs: seq<Field>, counter: Option<string>, variable: bool,
                   corrected: bool): Result<Program, GenError> {
    var segments := LayoutOf(Groups(fs), 0, corrected);
    var e, d := GenEncodeAll(segments, variable, corrected), GenDecodeAll(segments, counter, corrected);
    if e.Err? then Err(e.error)
    else if d.Err? then Err(d.error)
    else Ok(Program(e.value, d.value, StaticSize(segments)))
  }

  function Zeros(n: nat): (b: seq<byte>)
    ensures |b| == n
  {
    seq(n, _ => 0)
  }

  function Fresh(obj: Object): Machine { Machine(map[], obj, []) }

  /** encode_payload of a message of fixed size. */
  function EncodeFixed(p: Program, obj: Object): Option<seq<byte>> {
    match RunEncode(p.encode, EncodeState(Zeros(p.size), 0, Fresh(obj)))
    case None => None
    case Some(st) => Some(st.buf)
  }

  /** decode_payload into the object obj0. */
  function DecodeFixed(p: Program, payload: seq<byte>, obj0: Object): Option<Object> {
    match RunDecode(p.decode, payload, DecodeState(0, Fresh(obj0)))
    case None => None
    case Some(st) => Some(st.m.obj)
  }

  /** A field list the generator compiles correctly, with an object of its class. */
  predicate Compilable(fs: seq<Field>, obj: Object, corrected: bool) {
    SupportedFields(fs, corrected) && AllTyped(fs, obj) && Distinct(AllNames(fs))
  }

  lemma GroupsAreOk(fs: seq<Field>, obj: Object, corrected: bool)
    requires Compilable(fs, obj, corrected)
    ensures GroupsOk(Groups(fs), obj, corrected)
  {
    var gs := Groups(fs);
    forall g | g in gs ensures GroupOk(g, obj, corrected) {
      InFlatten(gs, g);
    }
  }

  lemma {:induction false} InFlatten(gs: seq<seq<Field>>, g: seq<Field>)
    requires g in gs
    ensures forall f :: f in g ==> f in Flatten(gs)
  {
    if gs[0] != g {
      InFlatten(gs[1..], g);
    }
  }

  /** The generator gets through every supported field list. */
  lemma CompileSucceeds(fs: seq<Field>, counter: Option<string>, variable: bool, corrected: bool)
    requires SupportedFields(fs, corrected)
    ensures Compile(fs, counter, variable, corrected).Ok?
  {
    forall g | g in Groups(fs) ensures SupportedFields(g, corrected) {
      InFlatten(Groups(fs), g);
    }
    GenAllSucceed(Groups(fs), 0, counter, variable, corrected);
  }

  lemma {:induction false} GenAllSucceed(gs: seq<seq<Field>>, start: nat, counter: Option<string>, variable: bool,
                                         corrected: bool)
    requires forall g :: g in gs ==> IsGroup(g) && SupportedFields(g, corrected)
    ensures GenEncodeAll(LayoutOf(gs, start, corrected), variable, corrected).Ok?
    ensures GenDecodeAll(LayoutOf(gs, start, corrected), counter, corrected).Ok?
    decreases |gs|
  {
    if gs != [] {
      assert gs[0] in gs && gs[0][0] in gs[0];
      LayoutCons(gs, start, corrected);
      var seg := SegmentOf(gs[0], start, corrected);
      var first := GenEncodeOk(gs[0], start, variable, corrected);
      GenAllSucceed(gs[1..], start + seg.Length(), counter, variable, corrected);
      var more := LayoutOf(gs[1..], start + seg.Length(), corrected);
      GenEncodeCons(seg, more, variable, corrected, first, GenEncodeAll(more, variable, corrected).value);
      GenDecodeCons(seg, more, counter, corrected, GenDecode(seg, counter, corrected).value,
                    GenDecodeAll(more, counter, corrected).value);
    }
  }

  /** Writing b over a buffer of its size gives b. */
  lemma EncodesFixed(p: Program, obj: Object, b: Option<seq<byte>>)
    requires Encodes(p.encode, EncodeState(Zeros(p.size), 0, Fresh(obj)), 0, b, false)
    requires b.Some? ==> |b.value| == p.size
    ensures EncodeFixed(p, obj) == b
  {
    var st := EncodeState(Zeros(p.size), 0, Fresh(obj));
    assert Position(st, 0, false) == 0;
    if b.Some? {
      assert Splice(st.buf, 0, b.value) == b.value;
    }
  }

  /**
   Fixed messages: for every list of numbers and fixed strings, decoding what was encoded
   gives every named attribute back, if and only if each value is in the range its field
   carries. `corrected` extends this to the lists the emission as written gets wrong.
   */
  lemma FixedMessageRoundTrip(fs: seq<Field>, obj: Object, obj0: Object, corrected: bool) returns (p: Program)
    requires Compilable(fs, obj, corrected) && NoVarText(fs)
    ensures Compile(fs, None, false, corrected) == Ok(p)
    ensures var payload := EncodeFixed(p, obj);
            && (payload.Some? ==> |payload.value| == p.size)
            && (payload.Some? && DecodeFixed(p, payload.value, obj0).Some?
                && Recovered(AllNames(fs), obj, DecodeFixed(p, payload.value, obj0).value)
                <==> MessageExact(fs, obj, None, corrected))
  {
    var gs := Groups(fs);
    GroupsAreOk(fs, obj, corrected);
    var size := StaticSize(LayoutOf(gs, 0, corrected));
    var enc := EncodeGroups(gs, 0, EncodeState(Zeros(size), 0, Fresh(obj)), false, corrected);
    var b := PayloadOf(gs, obj, corrected);
    var payload := if b.Some? then b.value else [];
    var dec := DecodeGroups(gs, 0, payload, DecodeState(0, Fresh(obj0)), obj, None, corrected);
    p := Program(enc, dec, size);
    if b.Some? {
      PayloadLength(gs, 0, obj, corrected);
    }
    EncodesFixed(p, obj, b);
    assert payload[0..0 + |payload|] == payload;
  }
}

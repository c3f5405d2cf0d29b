/**
 Layout of a field set into segments, the decode_payload and encode_payload programs
 generated for the segments, and what running those programs does.
 */
module PgnProgram {
  import opened Wrappers
  import opened Struct
  import opened PgnFields
  import opened PgnIr
  import opened PgnEmit
  import opened PgnText

  // ---- layout ----

  /** The finished state of a DecodeSegment. */
  datatype Segment =
    | ValueSet(start: nat, format: seq<Code>, attrs: seq<Attr>)
    | FixLength(start: nat, size: nat, name: Option<string>)
    | VarLength(start: nat, name: Option<string>)
  {
    function Length(): nat {
      match this
      case ValueSet(_, format, _) => CalcSize(format)
      case FixLength(_, size, _) => size
      case VarLength(_, _) => 0
    }
  }

  /** Consecutive numeric fields share a segment; every string has its own. */
  function Groups(fs: seq<Field>): (gs: seq<seq<Field>>)
    ensures forall g :: g in gs ==> IsGroup(g)
    ensures Flatten(gs) == fs
    ensures fs != [] ==> gs != []
  {
    if fs == [] then []
    else
      var gs, f := Groups(fs[..|fs| - 1]), fs[|fs| - 1];
      WithField(gs, f)
  }

  function WithField(gs: seq<seq<Field>>, f: Field): (r: seq<seq<Field>>)
    requires forall g :: g in gs ==> IsGroup(g)
    ensures forall g :: g in r ==> IsGroup(g)
    ensures Flatten(r) == Flatten(gs) + [f]
    ensures r != []
  {
    assert gs != [] ==> gs[|gs| - 1] in gs && IsGroup(gs[|gs| - 1]);
    if f.Number() && gs != [] && gs[|gs| - 1][0].Number() then
      var front, last := gs[..|gs| - 1], gs[|gs| - 1];
      FlattenAppend(front, last);
      FlattenAppend(front, last + [f]);
      assert gs == front + [last];
      assert IsGroup(last) && IsGroup(last + [f]);
      front + [last + [f]]
    else
      FlattenAppend(gs, [f]);
      gs + [[f]]
  }

  /** No two neighbours that could share a segment. */
  ghost predicate Separate(gs: seq<seq<Field>>)
    requires forall g :: g in gs ==> IsGroup(g)
  {
    forall i, j :: 0 <= i && j == i + 1 < |gs| ==> !(IsNumeric(gs[i]) && IsNumeric(gs[j]))
  }

  predicate IsNumeric(g: seq<Field>) { g != [] && g[0].Number() }

  lemma WithFieldSeparates(gs: seq<seq<Field>>, f: Field)
    requires (forall g :: g in gs ==> IsGroup(g)) && Separate(gs)
    ensures Separate(WithField(gs, f))
  {
    var r := WithField(gs, f);
    forall i, j | 0 <= i && j == i + 1 < |r| ensures !(IsNumeric(r[i]) && IsNumeric(r[j])) {
      if j < |gs| {
        assert !(IsNumeric(gs[i]) && IsNumeric(gs[j]));
        assert IsGroup(gs[j]) && IsNumeric(r[j]) == IsNumeric(gs[j]) && r[i] == gs[i];
      } else {
        assert r == gs + [[f]] && r[i] == gs[i];
      }
    }
  }

  /**
   The groups are as long as they can be: the numbers between two strings, or before the
   first or behind the last one, are one segment.
   */
  lemma {:induction false} GroupsAreMaximal(fs: seq<Field>)
    ensures Separate(Groups(fs))
  {
    if fs != [] {
      GroupsAreMaximal(fs[..|fs| - 1]);
      WithFieldSeparates(Groups(fs[..|fs| - 1]), fs[|fs| - 1]);
    }
  }

  predicate IsGroup(g: seq<Field>) {
    g != [] && ((forall f :: f in g ==> f.Number()) || (|g| == 1 && !g[0].Number()))
  }

  function Flatten(gs: seq<seq<Field>>): seq<Field> {
    if gs == [] then [] else gs[0] + Flatten(gs[1..])
  }

  lemma {:induction false} FlattenAppend(gs: seq<seq<Field>>, g: seq<Field>)
    ensures Flatten(gs + [g]) == Flatten(gs) + g
  {
    if gs == [] {
      assert [g][1..] == [];
      assert gs + [g] == [g];
    } else {
      assert (gs + [g])[1..] == gs[1..] + [g];
      FlattenAppend(gs[1..], g);
    }
  }

  function SegmentOf(g: seq<Field>, start: nat, corrected: bool): Segment
    requires IsGroup(g)
  {
    match g[0]
    case Text(name, length) => FixLength(start, length, name)
    case VarText(name) => VarLength(start, name)
    case _ => ValueSet(start, FormatOf(g, corrected), AttrsFrom(g, 0))
  }

  /** Each segment starts where the lengths of the earlier ones end. */
  function LayoutOf(gs: seq<seq<Field>>, start: nat, corrected: bool): seq<Segment>
    requires forall g :: g in gs ==> IsGroup(g)
  {
    if gs == [] then []
    else
      var segment := SegmentOf(gs[0], start, corrected);
      [segment] + LayoutOf(gs[1..], start + segment.Length(), corrected)
  }

  function StaticSize(segments: seq<Segment>): nat {
    if segments == [] then 0 else segments[0].Length() + StaticSize(segments[1..])
  }

  // ---- programs ----

  /** Statements of encode_payload; `at` is the constant added to start_byte. */
  datatype EncodeOp =
    | PackInto(body: seq<Stmt>, format: seq<Code>, args: seq<Loc>, at: nat)
    | PutString(name: string, size: nat, at: nat)
    | PutVarString(name: string)
    | AdvanceBy(n: nat)

  /** Statements of decode_payload, which reads at the running start_byte. */
  datatype DecodeOp =
    | UnpackFrom(format: seq<Code>, body: seq<Stmt>)
    | GetString(name: string, size: nat)
    | GetVarString(name: string)
    | SkipBytes(n: nat)

  /**
   gen_decode_encode packs at the segment's own start byte; gen_decode_encode_variable
   packs at the running start_byte and moves it on.
   */
  function GenEncode(s: Segment, variable: bool, corrected: bool): Result<seq<EncodeOp>, GenError> {
    var at := if variable then 0 else s.start;
    var advance := if variable then [AdvanceBy(s.Length())] else [];
    match s
    case ValueSet(_, format, attrs) =>
      var e := EmitAttrs(NO_EMISSION, attrs, corrected);
      if e.Err? then Err(e.error) else Ok([PackInto(e.value.out, format, e.value.args, at)] + advance)
    case FixLength(_, size, name) =>
      if name.None? then Err(ReservedHasNoVariable) else Ok([PutString(name.value, size, at)] + advance)
    case VarLength(_, name) =>
      if name.None? then Err(ReservedHasNoVariable) else Ok([PutVarString(name.value)])
  }

  function GenDecode(s: Segment, counter: Option<string>, corrected: bool): Result<seq<DecodeOp>, GenError> {
    match s
    case ValueSet(_, format, attrs) =>
      Ok([UnpackFrom(format, DecodeAttrs(attrs, counter, corrected)), SkipBytes(s.Length())])
    case FixLength(_, size, name) =>
      if name.None? then Err(ReservedHasNoVariable) else Ok([GetString(name.value, size), SkipBytes(size)])
    case VarLength(_, name) =>
      if name.None? then Err(ReservedHasNoVariable) else Ok([GetVarString(name.value)])
  }

  function GenEncodeAll(segments: seq<Segment>, variable: bool, corrected: bool): Result<seq<EncodeOp>, GenError> {
    if segments == [] then Ok([])
    else
      var a, b := GenEncode(segments[0], variable, corrected), GenEncodeAll(segments[1..], variable, corrected);
      if a.Err? then Err(a.error) else if b.Err? then Err(b.error) else Ok(a.value + b.value)
  }

  function GenDecodeAll(segments: seq<Segment>, counter: Option<string>,
                        corrected: bool): Result<seq<DecodeOp>, GenError> {
    if segments == [] then Ok([])
    else
      var a, b := GenDecode(segments[0], counter, corrected), GenDecodeAll(segments[1..], counter, corrected);
      if a.Err? then Err(a.error) else if b.Err? then Err(b.error) else Ok(a.value + b.value)
  }

  // ---- running the programs ----

  /** The buffer, start_byte, and the locals and object of the method. */
  datatype EncodeState = EncodeState(buf: seq<byte>, cursor: nat, m: Machine)
  datatype DecodeState = DecodeState(cursor: nat, m: Machine)

  function StringOf(name: string, obj: Object): Option<seq<byte>> {
    if name in obj && obj[name].Str? then Some(obj[name].s) else None
  }

  function RunEncodeOp(op: EncodeOp, st: EncodeState): Option<EncodeState> {
    match op
    case PackInto(body, format, args, at) =>
      (match Run(body, st.m)
       case None => None
       case Some(m) =>
         match ReadAll(args, m)
         case None => None
         case Some(vals) =>
           match Pack(format, vals)
           case None => None
           case Some(b) =>
             if st.cursor + at + |b| > |st.buf| then None
             else Some(EncodeState(Splice(st.buf, st.cursor + at, b), st.cursor, m)))
    case PutString(name, size, at) =>
      (match StringOf(name, st.m.obj)
       case None => None
       case Some(s) =>
         match InsertString(st.buf, st.cursor + at, size, s)
         case None => None
         case Some(buf) => Some(st.(buf := buf)))
    case PutVarString(name) =>
      (match StringOf(name, st.m.obj)
       case None => None
       case Some(s) =>
         match InsertVarStr(st.buf, st.cursor, s)
         case None => None
         case Some(buf) => Some(st.(buf := buf, cursor := st.cursor + |s| + 2)))
    case AdvanceBy(n) => Some(st.(cursor := st.cursor + n))
  }

  function RunEncode(ops: seq<EncodeOp>, st: EncodeState): Option<EncodeState>
    decreases |ops|
  {
    if ops == [] then Some(st)
    else
      match RunEncodeOp(ops[0], st)
      case None => None
      case Some(st') => RunEncode(ops[1..], st')
  }

  function SetString(name: string, s: seq<byte>, m: Machine): Machine {
    m.(obj := m.obj[name := Str(s)])
  }

  function RunDecodeOp(op: DecodeOp, payload: seq<byte>, st: DecodeState): Option<DecodeState> {
    match op
    case UnpackFrom(format, body) =>
      if st.cursor + CalcSize(format) > |payload| then None
      else
        (match Run(body, st.m.(val := Unpack(format, payload[st.cursor..st.cursor + CalcSize(format)])))
         case None => None
         case Some(m) => Some(st.(m := m)))
    case GetString(name, size) =>
      Some(st.(m := SetString(name, CleanString(Slice(payload, st.cursor, st.cursor + size)), st.m)))
    case GetVarString(name) =>
      (match ExtractVarStr(payload, st.cursor)
       case None => None
       case Some((s, n)) => Some(DecodeState(st.cursor + n, SetString(name, s, st.m))))
    case SkipBytes(n) => Some(st.(cursor := st.cursor + n))
  }

  function RunDecode(ops: seq<DecodeOp>, payload: seq<byte>, st: DecodeState): Option<DecodeState>
    decreases |ops|
  {
    if ops == [] then Some(st)
    else
      match RunDecodeOp(ops[0], payload, st)
      case None => None
      case Some(st') => RunDecode(ops[1..], payload, st')
  }

  lemma {:induction false} RunEncodeConcat(a: seq<EncodeOp>, b: seq<EncodeOp>, st: EncodeState)
    ensures RunEncode(a + b, st) == match RunEncode(a, st) case None => None case Some(st') => RunEncode(b, st')
    decreases |a|
  {
    if a == [] {
      assert a + b == b;
    } else {
      assert (a + b)[1..] == a[1..] + b;
      match RunEncodeOp(a[0], st)
      case None =>
      case Some(st') => RunEncodeConcat(a[1..], b, st');
    }
  }

  lemma {:induction false} RunDecodeConcat(a: seq<DecodeOp>, b: seq<DecodeOp>, payload: seq<byte>, st: DecodeState)
    ensures RunDecode(a + b, payload, st)
         == match RunDecode(a, payload, st) case None => None case Some(st') => RunDecode(b, payload, st')
    decreases |a|
  {
    if a == [] {
      assert a + b == b;
    } else {
      assert (a + b)[1..] == a[1..] + b;
      match RunDecodeOp(a[0], payload, st)
      case None =>
      case Some(st') => RunDecodeConcat(a[1..], b, payload, st');
    }
  }

  // ---- layout properties ----

  lemma LayoutCons(gs: seq<seq<Field>>, start: nat, corrected: bool)
    requires gs != [] && forall g :: g in gs ==> IsGroup(g)
    ensures IsGroup(gs[0]) && forall g :: g in gs[1..] ==> IsGroup(g)
    ensures var seg := SegmentOf(gs[0], start, corrected);
            var more := LayoutOf(gs[1..], start + seg.Length(), corrected);
            LayoutOf(gs, start, corrected) == [seg] + more
            && StaticSize([seg] + more) == seg.Length() + StaticSize(more)
  {
    assert gs[0] in gs;
    var seg := SegmentOf(gs[0], start, corrected);
    var more := LayoutOf(gs[1..], start + seg.Length(), corrected);
    assert ([seg] + more)[1..] == more;
  }

  /**
   Segments are disjoint and cover [0, static_size): segment i starts at the sum of the
   lengths before it.
   */
  lemma {:induction false} LayoutCovers(gs: seq<seq<Field>>, start: nat, corrected: bool)
    requires forall g :: g in gs ==> IsGroup(g)
    ensures var segments := LayoutOf(gs, start, corrected);
            |segments| == |gs|
            && forall i :: 0 <= i < |gs| ==> segments[i].start == start + StaticSize(segments[..i])
  {
    if gs != [] {
      var segments := LayoutOf(gs, start, corrected);
      var n := segments[0].Length();
      LayoutCovers(gs[1..], start + n, corrected);
      var rest := LayoutOf(gs[1..], start + n, corrected);
      forall i | 0 <= i < |gs| ensures segments[i].start == start + StaticSize(segments[..i]) {
        if i > 0 {
          assert segments[..i][1..] == rest[..i - 1];
          assert segments[i] == rest[i - 1];
        }
      }
    }
  }
}

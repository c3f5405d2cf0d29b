/**
 The emission of the numeric segments: the attributes the meta model derives from the
 fields, and the generator's walks over them. `corrected` selects the statements the
 generator should have written where the ones it writes are wrong.
 */
module PgnEmit {
  import opened Bits
  import opened Wrappers
  import opened PgnFields
  import opened PgnIr

  datatype Attr =
    | ScalarAttr(name: string, bits: nat, signed: bool, isFloat: bool, slots: nat, index: nat)
    | ReservedAttr(bits: nat, signed: bool, slots: nat, index: nat)
    | BitAttr(name: string, width: nat, offset: nat, slots: nat, subIndex: nat, last: bool, index: nat)
    | ReservedBitAttr(width: nat, offset: nat, slots: nat, subIndex: nat, last: bool, index: nat)

  function SubAttr(s: Sub, slots: nat, i: nat, last: bool, index: nat): Attr {
    match s.name
    case Some(name) => BitAttr(name, s.width, s.offset, slots, i, last, index)
    case None => ReservedBitAttr(s.width, s.offset, slots, i, last, index)
  }

  function SubAttrsFrom(subs: seq<Sub>, slots: nat, i: nat, index: nat): (r: seq<Attr>)
    requires i <= |subs|
    decreases |subs| - i
  {
    if i == |subs| then []
    else [SubAttr(subs[i], slots, i, i == |subs| - 1, index)] + SubAttrsFrom(subs, slots, i + 1, index)
  }

  /** The attributes of one numeric field whose first slot is `index`. */
  function AttrsOf(f: Field, index: nat): seq<Attr>
    requires f.Number()
  {
    match f
    case BitField(subs) => SubAttrsFrom(subs, Slots(f), 0, index)
    case Scalar(Some(name), bits, signed, isFloat) => [ScalarAttr(name, bits, signed, isFloat, Slots(f), index)]
    case Scalar(None, bits, signed, _) => [ReservedAttr(bits, signed, Slots(f), index)]
  }

  function AttrsFrom(fs: seq<Field>, index: nat): seq<Attr>
    requires forall f :: f in fs ==> f.Number()
  {
    if fs == [] then [] else AttrsOf(fs[0], index) + AttrsFrom(fs[1..], index + Slots(fs[0]))
  }

  // ---- encode ----

  /** What the encode walk carries: emitted text, val_encode, numvi, val_var. */
  datatype Emission = Emission(out: seq<Stmt>, args: seq<Loc>, numvi: nat, valVar: Loc)

  const NO_EMISSION := Emission([], [], 0, Unset)

  /** The exceptions the generator itself can die of. */
  datatype GenError = ListIndexOutOfRange | ReservedHasNoVariable

  function LowHalf(l: Loc): Expr { BitAnd(Load(l), 0xFFFF) }

  function HighHalf(l: Loc): Expr { BitAnd(ShiftRight(Load(l), 16), 0xFF) }

  /** `(self.x & mask) << offset`, or the all-ones default of a reserved sub-field. */
  function SubExpr(s: Sub): Expr {
    match s.name
    case Some(name) => ShiftLeft(BitAnd(Load(Attribute(name)), Pow2(s.width) - 1), s.offset)
    case None => ShiftLeft(Lit(Pow2(s.width) - 1), s.offset)
  }

  /** The end of a two-slot bit-field: `(word & 0xFF) >> 16` is what is written for the high half. */
  function SplitBits(e: Emission, index: nat, corrected: bool): Result<Emission, GenError> {
    if index >= |e.args| then Err(ListIndexOutOfRange)
    else
      var high := if corrected then HighHalf(e.valVar) else ShiftRight(BitAnd(Load(e.valVar), 0xFF), 16);
      Ok(Emission(e.out + [Assign(e.args[index], LowHalf(e.valVar)), Assign(Var(e.numvi), high)],
                  e.args + [Var(e.numvi)], e.numvi + 1, e.valVar))
  }

  function SubOf(a: Attr): Sub
    requires a.BitAttr? || a.ReservedBitAttr?
  {
    Sub(if a.BitAttr? then Some(a.name) else None, a.width, a.offset)
  }

  function EmitSub(e: Emission, a: Attr, corrected: bool): Result<Emission, GenError>
    requires a.BitAttr? || a.ReservedBitAttr?
  {
    if a.subIndex == 0 then
      var acc := if a.slots == 2 then Word else Var(e.numvi);
      var e' := Emission(e.out + [Assign(acc, SubExpr(SubOf(a)))], e.args + [Var(e.numvi)], e.numvi + 1, acc);
      if corrected && a.slots == 2 && a.last then SplitBits(e', a.index, true) else Ok(e')
    else
      var e' := e.(out := e.out + [OrAssign(e.valVar, SubExpr(SubOf(a)))]);
      if a.slots == 2 && a.last then SplitBits(e', a.index, corrected) else Ok(e')
  }

  /** A named scalar: floats are converted into a local, integers are packed as they are. */
  function EmitScalar(e: Emission, a: Attr, corrected: bool): Emission
    requires a.ScalarAttr?
  {
    var n := e.numvi;
    if a.isFloat then
      var local := if a.slots == 2 then Word else Var(n);
      var convert := Assign(local, ToInt(a.name, ScalarInvalid(a.bits, a.signed)));
      if a.slots == 2 then
        var high := if corrected && a.signed then ShiftRight(Load(Word), 16) else HighHalf(Word);
        Emission(e.out + [convert, Assign(Var(n), LowHalf(Word)), Assign(Var(n + 1), high)],
                 e.args + [Var(n), Var(n + 1)], n + 2, Word)
      else
        Emission(e.out + [convert], e.args + [Var(n)], n + 1, local)
    else if a.slots != 2 then
      e.(args := e.args + [Attribute(a.name)])
    else if corrected then
      var high := if a.signed then ShiftRight(Load(Word), 16) else HighHalf(Word);
      Emission(e.out + [Assign(Word, Load(Attribute(a.name))), Assign(Var(n), LowHalf(Word)), Assign(Var(n + 1), high)],
               e.args + [Var(n), Var(n + 1)], n + 2, Word)
    else
      // the attribute itself and both halves of whatever val_var was
      Emission(e.out + [Assign(Var(n), LowHalf(e.valVar)), Assign(Var(n + 1), HighHalf(e.valVar))],
               e.args + [Attribute(a.name), Var(n), Var(n + 1)], n + 2, e.valVar)
  }

  function EmitReserved(e: Emission, a: Attr, corrected: bool): Emission
    requires a.ReservedAttr?
  {
    var n, default := e.numvi, Lit(ScalarInvalid(a.bits, a.signed));
    if corrected && a.slots == 2 then
      var high := if a.signed then ShiftRight(Load(Word), 16) else HighHalf(Word);
      Emission(e.out + [Assign(Word, default), Assign(Var(n), LowHalf(Word)), Assign(Var(n + 1), high)],
               e.args + [Var(n), Var(n + 1)], n + 2, Word)
    else
      e.(out := e.out + [Assign(Var(n), default)], args := e.args + [Var(n)], numvi := n + 1)
  }

  /** One turn of the loop of gen_encode_value_set_segment. */
  function EmitAttr(e: Emission, a: Attr, corrected: bool): Result<Emission, GenError> {
    match a
    case ScalarAttr(_, _, _, _, _, _) => Ok(EmitScalar(e, a, corrected))
    case ReservedAttr(_, _, _, _) => Ok(EmitReserved(e, a, corrected))
    case _ => EmitSub(e, a, corrected)
  }

  function EmitAttrs(e: Emission, attrs: seq<Attr>, corrected: bool): Result<Emission, GenError>
    decreases |attrs|
  {
    if attrs == [] then Ok(e)
    else
      match EmitAttr(e, attrs[0], corrected)
      case Err(err) => Err(err)
      case Ok(e') => EmitAttrs(e', attrs[1..], corrected)
  }

  /** The loop itself. */
  method GenEncodeValueSetSegment(attrs: seq<Attr>, corrected: bool) returns (r: Result<Emission, GenError>)
    ensures r == EmitAttrs(NO_EMISSION, attrs, corrected)
  {
    var e := NO_EMISSION;
    for i := 0 to |attrs|
      invariant EmitAttrs(NO_EMISSION, attrs, corrected) == EmitAttrs(e, attrs[i..], corrected)
    {
      assert attrs[i..][1..] == attrs[i + 1..];
      var step := EmitAttr(e, attrs[i], corrected);
      if step.Err? {
        return Err(step.error);
      }
      e := step.value;
    }
    return Ok(e);
  }

  lemma {:induction false} EmitConcat(e: Emission, a: seq<Attr>, b: seq<Attr>, corrected: bool)
    ensures EmitAttrs(e, a + b, corrected) ==
            match EmitAttrs(e, a, corrected) case Err(err) => Err(err) case Ok(e') => EmitAttrs(e', b, corrected)
    decreases |a|
  {
    if a == [] {
      assert a + b == b;
    } else {
      assert (a + b)[1..] == a[1..] + b;
      match EmitAttr(e, a[0], corrected)
      case Err(_) =>
      case Ok(e') => EmitConcat(e', a[1..], b, corrected);
    }
  }

  // ---- decode ----

  function JoinSlots(index: nat): Expr { Plus(Slot(index), ShiftLeft(Slot(index + 1), 16)) }

  /** What the decode walk writes for one attribute; `counter` is the count of a repeated set. */
  function DecodeAttr(a: Attr, counter: Option<string>, corrected: bool): seq<Stmt> {
    match a
    case ReservedAttr(_, _, _, _) => []
    case ReservedBitAttr(_, _, slots, subIndex, _, index) =>
      // skipped, also when it is the first sub-field and `word` has to be joined
      if corrected && slots == 2 && subIndex == 0 then [Assign(Word, JoinSlots(index))] else []
    case ScalarAttr(name, bits, signed, isFloat, slots, index) =>
      var invalid := ScalarInvalid(bits, signed);
      var conv := if counter == Some(name) then CheckValid(invalid, 0)
                  else if isFloat then ToFloat(invalid) else Plain;
      if slots == 2
      then [Assign(Word, JoinSlots(index)), SetAttribute(name, Load(Word), conv)]
      else [SetAttribute(name, Slot(index), conv)]
    case BitAttr(name, width, offset, slots, subIndex, _, index) =>
      var source := if slots == 2 then Load(Word) else Slot(index);
      var shifted := if offset == 0 then source else ShiftRight(source, offset);
      (if slots == 2 && subIndex == 0 then [Assign(Word, JoinSlots(index))] else [])
      + [SetAttribute(name, BitAnd(shifted, Pow2(width) - 1), Plain)]
  }

  function DecodeAttrs(attrs: seq<Attr>, counter: Option<string>, corrected: bool): seq<Stmt> {
    if attrs == [] then []
    else DecodeAttr(attrs[0], counter, corrected) + DecodeAttrs(attrs[1..], counter, corrected)
  }

  lemma DecodeNext(out: seq<Stmt>, attrs: seq<Attr>, i: nat, counter: Option<string>, corrected: bool)
    requires i < |attrs|
    ensures out + DecodeAttrs(attrs[i..], counter, corrected)
         == out + DecodeAttr(attrs[i], counter, corrected) + DecodeAttrs(attrs[i + 1..], counter, corrected)
  {
    assert attrs[i..][1..] == attrs[i + 1..];
    var x, more := DecodeAttr(attrs[i], counter, corrected), DecodeAttrs(attrs[i + 1..], counter, corrected);
    assert out + (x + more) == out + x + more;
  }

  method GenDecodeValueSetSegment(attrs: seq<Attr>, counter: Option<string>, corrected: bool) returns (out: seq<Stmt>)
    ensures out == DecodeAttrs(attrs, counter, corrected)
  {
    out := [];
    for i := 0 to |attrs|
      invariant DecodeAttrs(attrs, counter, corrected) == out + DecodeAttrs(attrs[i..], counter, corrected)
    {
      DecodeNext(out, attrs, i, counter, corrected);
      out := out + DecodeAttr(attrs[i], counter, corrected);
    }
    assert out + [] == out;
  }

  lemma {:induction false} DecodeConcat(a: seq<Attr>, b: seq<Attr>, counter: Option<string>, corrected: bool)
    ensures DecodeAttrs(a + b, counter, corrected) ==
            DecodeAttrs(a, counter, corrected) + DecodeAttrs(b, counter, corrected)
  {
    if a == [] {
      assert a + b == b;
    } else {
      assert (a + b)[1..] == a[1..] + b;
      DecodeConcat(a[1..], b, counter, corrected);
    }
  }
}

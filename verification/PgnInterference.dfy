/**
 What generated code does not look at: two runs of the same statements on objects that
 differ in one attribute, or on slots that differ from some index on, stay alike.
 */
module PgnInterference {
  import opened Bits
  import opened Wrappers
  import opened PgnFields
  import opened PgnIr
  import opened PgnEmit

  /** The same attributes but for x. */
  ghost predicate SameBut(o0: Object, o1: Object, x: string) {
    forall y :: y != x ==> (y in o0 <==> y in o1) && (y in o0 ==> o0[y] == o1[y])
  }

  /** The same machine but for attribute x and the slots from q on. */
  ghost predicate Agree(m0: Machine, m1: Machine, x: string, q: nat) {
    && m0.env == m1.env && SameBut(m0.obj, m1.obj, x)
    && |m0.val| == |m1.val| && forall i :: 0 <= i < |m0.val| && i < q ==> m0.val[i] == m1.val[i]
  }

  /** The expression reads neither attribute x nor a slot from q on. */
  predicate Blind(e: Expr, x: string, q: nat) {
    match e
    case Lit(_) => true
    case Load(l) => l != Attribute(x)
    case Slot(i) => i < q
    case BitAnd(e1, _) => Blind(e1, x, q)
    case ShiftLeft(e1, _) => Blind(e1, x, q)
    case ShiftRight(e1, _) => Blind(e1, x, q)
    case Plus(e1, e2) => Blind(e1, x, q) && Blind(e2, x, q)
    case ToInt(name, _) => name != x
  }

  predicate BlindStmt(s: Stmt, x: string, q: nat) {
    Blind(s.e, x, q) && (s.OrAssign? ==> s.target != Attribute(x))
  }

  predicate BlindCode(ss: seq<Stmt>, x: string, q: nat) { forall s :: s in ss ==> BlindStmt(s, x, q) }

  lemma {:induction false} EvalAgree(e: Expr, m0: Machine, m1: Machine, x: string, q: nat)
    requires Agree(m0, m1, x, q) && Blind(e, x, q)
    ensures Eval(e, m0) == Eval(e, m1)
  {
    match e
    case Lit(_) =>
    case Load(_) =>
    case Slot(_) =>
    case BitAnd(e1, _) => EvalAgree(e1, m0, m1, x, q);
    case ShiftLeft(e1, _) => EvalAgree(e1, m0, m1, x, q);
    case ShiftRight(e1, _) => EvalAgree(e1, m0, m1, x, q);
    case Plus(e1, e2) =>
      EvalAgree(e1, m0, m1, x, q);
      EvalAgree(e2, m0, m1, x, q);
    case ToInt(_, _) =>
  }

  lemma ExecAgree(s: Stmt, m0: Machine, m1: Machine, x: string, q: nat)
    requires Agree(m0, m1, x, q) && BlindStmt(s, x, q)
    ensures Exec(s, m0).Some? && Exec(s, m1).Some? ==> Agree(Exec(s, m0).value, Exec(s, m1).value, x, q)
  {
    EvalAgree(s.e, m0, m1, x, q);
  }

  lemma {:induction false} RunAgree(ss: seq<Stmt>, m0: Machine, m1: Machine, x: string, q: nat)
    requires Agree(m0, m1, x, q) && BlindCode(ss, x, q)
    requires Run(ss, m0).Some? && Run(ss, m1).Some?
    ensures Agree(Run(ss, m0).value, Run(ss, m1).value, x, q)
    decreases |ss|
  {
    if ss != [] {
      assert ss[0] in ss;
      ExecAgree(ss[0], m0, m1, x, q);
      RunAgree(ss[1..], Exec(ss[0], m0).value, Exec(ss[0], m1).value, x, q);
    }
  }

  /** Operands that are not x itself have the same values. */
  lemma {:induction false} OperandsAgree(args: seq<Loc>, m0: Machine, m1: Machine, x: string, q: nat, i: nat)
    requires Agree(m0, m1, x, q) && i < |args| && args[i] != Attribute(x)
    requires ReadAll(args, m0).Some? && ReadAll(args, m1).Some?
    ensures |ReadAll(args, m0).value| == |args| == |ReadAll(args, m1).value|
    ensures ReadAll(args, m0).value[i] == ReadAll(args, m1).value[i]
    decreases |args|
  {
    OperandCount(args, m0);
    OperandCount(args, m1);
    if i > 0 {
      OperandsAgree(args[1..], m0, m1, x, q, i - 1);
    }
  }

  lemma {:induction false} OperandCount(args: seq<Loc>, m: Machine)
    requires ReadAll(args, m).Some?
    ensures |ReadAll(args, m).value| == |args|
  {
    if args != [] {
      OperandCount(args[1..], m);
    }
  }

  // ---- the code the generator emits ----

  /** No statement of these attributes reads x: only one that is packed as it is may have that name. */
  predicate Unread(attrs: seq<Attr>, x: string) {
    forall a :: a in attrs && (a.BitAttr? || (a.ScalarAttr? && a.isFloat)) ==> a.name != x
  }

  lemma BlindConcat(a: seq<Stmt>, b: seq<Stmt>, x: string, q: nat)
    requires BlindCode(a, x, q) && BlindCode(b, x, q)
    ensures BlindCode(a + b, x, q)
  {
    assert forall s :: s in a + b ==> s in a || s in b;
  }

  lemma HalvesBlind(l: Loc, x: string, q: nat)
    requires !l.Attribute?
    ensures Blind(LowHalf(l), x, q) && Blind(HighHalf(l), x, q) && Blind(ShiftRight(BitAnd(Load(l), 0xFF), 16), x, q)
    ensures Blind(ShiftRight(Load(l), 16), x, q)
  {
    assert Blind(Load(l), x, q);
    assert Blind(BitAnd(Load(l), 0xFF), x, q) && Blind(ShiftRight(Load(l), 16), x, q);
  }

  lemma SubExprBlind(s: Sub, x: string, q: nat)
    requires s.name != Some(x)
    ensures Blind(SubExpr(s), x, q)
  {
    if s.name.Some? {
      assert Blind(Load(Attribute(s.name.value)), x, q);
      assert Blind(BitAnd(Load(Attribute(s.name.value)), Pow2(s.width) - 1), x, q);
    }
  }

  lemma SplitBlind(e: Emission, index: nat, x: string)
    requires BlindCode(e.out, x, 0) && !e.valVar.Attribute?
    ensures SplitBits(e, index, false).Ok? ==>
              BlindCode(SplitBits(e, index, false).value.out, x, 0)
                  && SplitBits(e, index, false).value.valVar == e.valVar
  {
    HalvesBlind(e.valVar, x, 0);
    if index < |e.args| {
      BlindConcat(e.out, [Assign(e.args[index], LowHalf(e.valVar)),
                          Assign(Var(e.numvi), ShiftRight(BitAnd(Load(e.valVar), 0xFF), 16))], x, 0);
    }
  }

  lemma EmitSubBlind(e: Emission, a: Attr, x: string)
    requires a.BitAttr? || a.ReservedBitAttr?
    requires BlindCode(e.out, x, 0) && !e.valVar.Attribute? && (a.BitAttr? ==> a.name != x)
    ensures var r := EmitSub(e, a, false);
            r.Ok? ==> BlindCode(r.value.out, x, 0) && !r.value.valVar.Attribute?
  {
    var acc := if a.subIndex > 0 then e.valVar else if a.slots == 2 then Word else Var(e.numvi);
    var stmt := if a.subIndex == 0 then Assign(acc, SubExpr(SubOf(a))) else OrAssign(acc, SubExpr(SubOf(a)));
    SubExprBlind(SubOf(a), x, 0);
    assert BlindCode([stmt], x, 0);
    BlindConcat(e.out, [stmt], x, 0);
    SplitBlind(e.(out := e.out + [stmt]), a.index, x);
  }

  lemma EmitScalarBlind(e: Emission, a: Attr, x: string)
    requires a.ScalarAttr? && BlindCode(e.out, x, 0) && !e.valVar.Attribute? && (a.isFloat ==> a.name != x)
    ensures BlindCode(EmitScalar(e, a, false).out, x, 0) && !EmitScalar(e, a, false).valVar.Attribute?
  {
    var out := EmitScalar(e, a, false).out;
    HalvesBlind(e.valVar, x, 0);
    HalvesBlind(Word, x, 0);
    assert out == e.out + out[|e.out|..];
    assert BlindCode(out[|e.out|..], x, 0);
    BlindConcat(e.out, out[|e.out|..], x, 0);
  }

  lemma EmitAttrBlind(e: Emission, a: Attr, x: string)
    requires BlindCode(e.out, x, 0) && !e.valVar.Attribute? && Unread([a], x)
    ensures var r := EmitAttr(e, a, false);
            r.Ok? ==> BlindCode(r.value.out, x, 0) && !r.value.valVar.Attribute?
  {
    assert a in [a];
    match a
    case ScalarAttr(_, _, _, _, _, _) => EmitScalarBlind(e, a, x);
    case ReservedAttr(_, _, _, _) => BlindConcat(e.out, [Assign(Var(e.numvi), Lit(ScalarInvalid(a.bits, a.signed)))],
                                                 x, 0);
    case _ => EmitSubBlind(e, a, x);
  }

  lemma {:induction false} EmitBlind(e: Emission, attrs: seq<Attr>, x: string)
    requires BlindCode(e.out, x, 0) && !e.valVar.Attribute? && Unread(attrs, x)
    requires EmitAttrs(e, attrs, false).Ok?
    ensures BlindCode(EmitAttrs(e, attrs, false).value.out, x, 0)
    decreases |attrs|
  {
    if attrs != [] {
      assert attrs[0] in attrs && Unread([attrs[0]], x);
      EmitAttrBlind(e, attrs[0], x);
      EmitBlind(EmitAttr(e, attrs[0], false).value, attrs[1..], x);
    }
  }

  lemma DecodeAttrBlind(a: Attr, counter: Option<string>, x: string, q: nat)
    requires a.index + a.slots <= q && a.slots >= 1
    ensures BlindCode(DecodeAttr(a, counter, false), x, q)
  {
    var slot := Slot(a.index);
    assert Blind(slot, x, q) && Blind(Load(Word), x, q);
    if a.slots == 2 {
      var next := Slot(a.index + 1);
      assert Blind(next, x, q) && Blind(ShiftLeft(next, 16), x, q) && Blind(JoinSlots(a.index), x, q);
    }
    if a.BitAttr? {
      var source := if a.slots == 2 then Load(Word) else slot;
      assert Blind(ShiftRight(source, a.offset), x, q);
    }
  }

  /** Decoding looks at the slots of its own attributes only. */
  lemma {:induction false} DecodeBlind(attrs: seq<Attr>, counter: Option<string>, x: string, q: nat)
    requires forall a :: a in attrs ==> a.index + a.slots <= q && a.slots >= 1
    ensures BlindCode(DecodeAttrs(attrs, counter, false), x, q)
    decreases |attrs|
  {
    if attrs != [] {
      assert attrs[0] in attrs;
      DecodeBlind(attrs[1..], counter, x, q);
      DecodeAttrBlind(attrs[0], counter, x, q);
      BlindConcat(DecodeAttr(attrs[0], counter, false), DecodeAttrs(attrs[1..], counter, false), x, q);
    }
  }

  /** The decode code of these attributes runs from m to r. */
  predicate DecodesTo(attrs: seq<Attr>, counter: Option<string>, m: Machine, r: Machine) {
    Run(DecodeAttrs(attrs, counter, false), m) == Some(r)
  }

  // ---- what a run leaves alone ----

  predicate Sets(ss: seq<Stmt>, x: string) {
    exists s :: s in ss && (if s.SetAttribute? then s.name == x else s.target == Attribute(x))
  }

  lemma {:induction false} RunKeeps(ss: seq<Stmt>, m: Machine, x: string)
    requires Run(ss, m).Some? && !Sets(ss, x)
    ensures var m' := Run(ss, m).value;
            m'.val == m.val && (x in m'.obj <==> x in m.obj) && (x in m.obj ==> m'.obj[x] == m.obj[x])
    decreases |ss|
  {
    if ss != [] {
      assert ss[0] in ss;
      RunKeeps(ss[1..], Exec(ss[0], m).value, x);
    }
  }

  lemma {:induction false} RunKeepsSlots(ss: seq<Stmt>, m: Machine)
    requires Run(ss, m).Some?
    ensures Run(ss, m).value.val == m.val
    decreases |ss|
  {
    if ss != [] {
      RunKeepsSlots(ss[1..], Exec(ss[0], m).value);
    }
  }

  /** The attributes decoding sets are the named ones. */
  lemma {:induction false} DecodeSetsNames(attrs: seq<Attr>, counter: Option<string>, x: string)
    requires forall a :: a in attrs && (a.BitAttr? || a.ScalarAttr?) ==> a.name != x
    ensures !Sets(DecodeAttrs(attrs, counter, false), x)
    decreases |attrs|
  {
    if attrs != [] {
      assert attrs[0] in attrs;
      DecodeSetsNames(attrs[1..], counter, x);
      var first, rest := DecodeAttr(attrs[0], counter, false), DecodeAttrs(attrs[1..], counter, false);
      assert forall s :: s in first + rest ==> s in first || s in rest;
    }
  }
}

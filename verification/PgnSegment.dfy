/**
 What the emitted code of a numeric segment computes: which slots the packed values
 feed, and which values they are.
 */
module PgnSegment {
  import opened Wrappers
  import opened PgnFields
  import opened PgnIr
  import opened PgnEmit

  // ---- the code of one field, independent of where it stands ----

  /** The field kinds whose emission adds one operand per slot. */
  predicate AlignedField(f: Field, corrected: bool)
    requires f.Number()
  {
    corrected || Slots(f) == 1
    || match f
       case BitField(subs) => |subs| >= 2
       case Scalar(name, _, _, isFloat) => name.Some? && isFloat
  }

  function OrStmts(subs: seq<Sub>, i: nat, acc: Loc): seq<Stmt>
    requires i <= |subs|
    decreases |subs| - i
  {
    if i == |subs| then []
    else [OrAssign(acc, SubExpr(subs[i]))] + OrStmts(subs, i + 1, acc)
  }

  function FieldCode(f: Field, n: nat, valVar: Loc, corrected: bool): Emission
    requires f.Number() && WellFormed(f)
  {
    var e := Emission([], [], n, valVar);
    match f
    case BitField(subs) =>
      var acc := if Slots(f) == 2 then Word else Var(n);
      var body := [Assign(acc, SubExpr(subs[0]))] + OrStmts(subs, 1, acc);
      if Slots(f) == 1 then Emission(body, [Var(n)], n + 1, acc)
      else SplitBits(Emission(body, [Var(n)], n + 1, acc), 0, corrected).value
    case Scalar(Some(_), _, _, _) => EmitScalar(e, AttrsOf(f, 0)[0], corrected)
    case Scalar(None, _, _, _) => EmitReserved(e, AttrsOf(f, 0)[0], corrected)
  }

  function Append(e: Emission, code: Emission): Emission {
    Emission(e.out + code.out, e.args + code.args, code.numvi, code.valVar)
  }

  lemma EmitLaterSub(e: Emission, s: Sub, slots: nat, i: nat, last: bool, index: nat, corrected: bool)
    requires i > 0
    ensures EmitAttr(e, SubAttr(s, slots, i, last, index), corrected) ==
            var e' := e.(out := e.out + [OrAssign(e.valVar, SubExpr(s))]);
            if slots == 2 && last then SplitBits(e', index, corrected) else Ok(e')
  {
    assert SubOf(SubAttr(s, slots, i, last, index)) == s;
  }

  lemma EmitFirstSub(e: Emission, s: Sub, slots: nat, last: bool, index: nat, corrected: bool)
    ensures EmitAttr(e, SubAttr(s, slots, 0, last, index), corrected) ==
            var acc := if slots == 2 then Word else Var(e.numvi);
            var e' := Emission(e.out + [Assign(acc, SubExpr(s))], e.args + [Var(e.numvi)], e.numvi + 1, acc);
            if corrected && slots == 2 && last then SplitBits(e', index, true) else Ok(e')
  {
    assert SubOf(SubAttr(s, slots, 0, last, index)) == s;
  }

  lemma {:induction false} EmitSubs(e: Emission, subs: seq<Sub>, slots: nat, i: nat, index: nat, corrected: bool)
    requires 1 <= i <= |subs|
    ensures EmitAttrs(e, SubAttrsFrom(subs, slots, i, index), corrected) ==
            var e' := e.(out := e.out + OrStmts(subs, i, e.valVar));
            if slots == 2 && i < |subs| then SplitBits(e', index, corrected) else Ok(e')
    decreases |subs| - i
  {
    if i == |subs| {
      assert e.out + [] == e.out;
    } else {
      var attrs := SubAttrsFrom(subs, slots, i, index);
      var last := i == |subs| - 1;
      EmitLaterSub(e, subs[i], slots, i, last, index, corrected);
      assert attrs[0] == SubAttr(subs[i], slots, i, last, index);
      assert attrs[1..] == SubAttrsFrom(subs, slots, i + 1, index);
      var e1 := e.(out := e.out + [OrAssign(e.valVar, SubExpr(subs[i]))]);
      assert e1.out + OrStmts(subs, i + 1, e.valVar) == e.out + OrStmts(subs, i, e.valVar);
      if last {
        assert OrStmts(subs, i + 1, e.valVar) == [];
        assert e1.out + [] == e1.out;
        assert attrs[1..] == [];
      } else {
        EmitSubs(e1, subs, slots, i + 1, index, corrected);
      }
    }
  }

  lemma EmitOne(e: Emission, a: Attr, corrected: bool)
    ensures EmitAttrs(e, [a], corrected) == EmitAttr(e, a, corrected)
  {
    assert [a][1..] == [];
  }

  /** The walk over the attributes of an aligned field appends that field's code. */
  lemma EmitAlignedField(e: Emission, f: Field, corrected: bool)
    requires f.Number() && WellFormed(f) && AlignedField(f, corrected)
    ensures EmitAttrs(e, AttrsOf(f, |e.args|), corrected)
         == Ok(Append(e, FieldCode(f, e.numvi, e.valVar, corrected)))
    ensures |FieldCode(f, e.numvi, e.valVar, corrected).args| == Slots(f)
  {
    match f
    case Scalar(Some(_), _, _, _) =>
      EmitOne(e, AttrsOf(f, |e.args|)[0], corrected);
      EmitScalarAppends(e, f, |e.args|, corrected);
    case Scalar(None, _, _, _) =>
      EmitOne(e, AttrsOf(f, |e.args|)[0], corrected);
      EmitReservedAppends(e, f, |e.args|, corrected);
    case BitField(subs) =>
      EmitBitField(e, f, corrected);
  }

  lemma EmitScalarAppends(e: Emission, f: Field, index: nat, corrected: bool)
    requires f.Scalar? && f.name.Some? && WellFormed(f)
    ensures EmitScalar(e, AttrsOf(f, index)[0], corrected) == Append(e, FieldCode(f, e.numvi, e.valVar, corrected))
  {
    var r, code := EmitScalar(e, AttrsOf(f, index)[0], corrected), FieldCode(f, e.numvi, e.valVar, corrected);
    assert r.out == e.out + code.out;
    assert r.args == e.args + code.args;
  }

  lemma EmitReservedAppends(e: Emission, f: Field, index: nat, corrected: bool)
    requires f.Scalar? && f.name.None? && WellFormed(f)
    ensures EmitReserved(e, AttrsOf(f, index)[0], corrected) == Append(e, FieldCode(f, e.numvi, e.valVar, corrected))
  {
    var r, code := EmitReserved(e, AttrsOf(f, index)[0], corrected), FieldCode(f, e.numvi, e.valVar, corrected);
    assert r.out == e.out + code.out;
    assert r.args == e.args + code.args;
  }

  lemma SplitAppends(e: Emission, body: seq<Stmt>, corrected: bool)
    ensures var first := Emission(e.out + body, e.args + [Var(e.numvi)], e.numvi + 1, Word);
            var code := SplitBits(Emission(body, [Var(e.numvi)], e.numvi + 1, Word), 0, corrected);
            code.Ok? && |code.value.args| == 2
            && SplitBits(first, |e.args|, corrected) == Ok(Append(e, code.value))
  {
    var first := Emission(e.out + body, e.args + [Var(e.numvi)], e.numvi + 1, Word);
    var r := SplitBits(first, |e.args|, corrected).value;
    var code := SplitBits(Emission(body, [Var(e.numvi)], e.numvi + 1, Word), 0, corrected).value;
    assert r.out == e.out + code.out;
    assert r.args == e.args + code.args;
  }

  lemma EmitBitField(e: Emission, f: Field, corrected: bool)
    requires f.BitField? && WellFormed(f) && AlignedField(f, corrected)
    ensures EmitAttrs(e, AttrsOf(f, |e.args|), corrected)
         == Ok(Append(e, FieldCode(f, e.numvi, e.valVar, corrected)))
    ensures |FieldCode(f, e.numvi, e.valVar, corrected).args| == Slots(f)
  {
    var subs, slots, index := f.subs, Slots(f), |e.args|;
    var attrs := AttrsOf(f, index);
    var acc := if slots == 2 then Word else Var(e.numvi);
    var first := Assign(acc, SubExpr(subs[0]));
    var body := [first] + OrStmts(subs, 1, acc);
    var e1 := Emission(e.out + [first], e.args + [Var(e.numvi)], e.numvi + 1, acc);
    EmitFirstSub(e, subs[0], slots, |subs| == 1, index, corrected);
    assert attrs[0] == SubAttr(subs[0], slots, 0, |subs| == 1, index);
    assert attrs[1..] == SubAttrsFrom(subs, slots, 1, index);
    assert e1.out + OrStmts(subs, 1, acc) == e.out + body;
    if slots == 2 {
      SplitAppends(e, body, corrected);
    }
    if slots == 2 && |subs| == 1 {
      assert OrStmts(subs, 1, acc) == [];
      assert e.out + [first] == e.out + body;
      assert attrs[1..] == [];
    } else {
      EmitSubs(e1, subs, slots, 1, index, corrected);
    }
  }

  /** The walk over a misaligned field adds one operand too many, or one too few. */
  lemma EmitMisalignedField(e: Emission, f: Field)
    requires f.Number() && WellFormed(f) && !AlignedField(f, false)
    ensures var r := EmitAttrs(e, AttrsOf(f, |e.args|), false);
            r.Ok? && |r.value.args| ==
            |e.args| + (if f.Scalar? && f.name.Some? then 3 else 1)
  {
    var attrs := AttrsOf(f, |e.args|);
    assert |attrs| == 1 by {
      if f.BitField? {
        assert SubAttrsFrom(f.subs, Slots(f), 1, |e.args|) == [];
      }
    }
    assert attrs[1..] == [];
  }

  // ---- the code of a list of fields ----

  function FieldsCode(fs: seq<Field>, n: nat, valVar: Loc, corrected: bool): Emission
    requires forall f :: f in fs ==> f.Number() && WellFormed(f)
  {
    if fs == [] then Emission([], [], n, valVar)
    else
      var code := FieldCode(fs[0], n, valVar, corrected);
      Append(code, FieldsCode(fs[1..], code.numvi, code.valVar, corrected))
  }

  lemma AppendAppend(e: Emission, a: Emission, b: Emission)
    ensures Append(Append(e, a), b) == Append(e, Append(a, b))
  {
    assert (e.out + a.out) + b.out == e.out + (a.out + b.out);
    assert (e.args + a.args) + b.args == e.args + (a.args + b.args);
  }

  lemma {:induction false} EmitAlignedFields(e: Emission, fs: seq<Field>, corrected: bool)
    requires forall f :: f in fs ==> f.Number() && WellFormed(f) && AlignedField(f, corrected)
    ensures EmitAttrs(e, AttrsFrom(fs, |e.args|), corrected)
         == Ok(Append(e, FieldsCode(fs, e.numvi, e.valVar, corrected)))
    ensures |FieldsCode(fs, e.numvi, e.valVar, corrected).args| == SlotCount(fs)
    decreases |fs|
  {
    if fs == [] {
      assert e.out + [] == e.out && e.args + [] == e.args;
    } else {
      var code := FieldCode(fs[0], e.numvi, e.valVar, corrected);
      var e1 := Append(e, code);
      EmitAlignedField(e, fs[0], corrected);
      EmitConcat(e, AttrsOf(fs[0], |e.args|), AttrsFrom(fs[1..], |e.args| + Slots(fs[0])), corrected);
      EmitAlignedFields(e1, fs[1..], corrected);
      AppendAppend(e, code, FieldsCode(fs[1..], code.numvi, code.valVar, corrected));
    }
  }

  lemma {:induction false} AttrsFromConcat(a: seq<Field>, b: seq<Field>, index: nat)
    requires forall f :: f in a ==> f.Number()
    requires forall f :: f in b ==> f.Number()
    ensures AttrsFrom(a + b, index) == AttrsFrom(a, index) + AttrsFrom(b, index + SlotCount(a))
    ensures SlotCount(a + b) == SlotCount(a) + SlotCount(b)
    decreases |a|
  {
    if a == [] {
      assert a + b == b;
      assert AttrsFrom(a, index) + AttrsFrom(b, index) == AttrsFrom(b, index);
    } else {
      assert (a + b)[1..] == a[1..] + b && (a + b)[0] == a[0];
      AttrsFromConcat(a[1..], b, index + Slots(a[0]));
      var x, y, z := AttrsOf(a[0], index), AttrsFrom(a[1..], index + Slots(a[0])), AttrsFrom(b, index + SlotCount(a));
      assert x + (y + z) == (x + y) + z;
    }
  }

  /** After k fields val_encode has one operand per slot of those fields. */
  predicate AlignedAfter(fs: seq<Field>, k: nat, corrected: bool)
    requires k <= |fs| && forall f :: f in fs ==> f.Number()
  {
    var r := EmitAttrs(NO_EMISSION, AttrsFrom(fs[..k], 0), corrected);
    r.Ok? && |r.value.args| == SlotCount(fs[..k])
  }

  /** The first misaligned field is where the operands stop feeding their slots. */
  lemma MisalignedAt(fs: seq<Field>, k: nat)
    requires k < |fs| && forall f :: f in fs ==> f.Number() && WellFormed(f)
    requires forall f :: f in fs[..k] ==> AlignedField(f, false)
    requires !AlignedField(fs[k], false)
    ensures !AlignedAfter(fs, k + 1, false)
  {
    var pre := fs[..k];
    assert fs[..k + 1] == pre + [fs[k]];
    EmitAlignedFields(NO_EMISSION, pre, false);
    AttrsFromConcat(pre, [fs[k]], 0);
    var e := EmitAttrs(NO_EMISSION, AttrsFrom(pre, 0), false).value;
    assert AttrsFrom([fs[k]], |e.args|) == AttrsOf(fs[k], |e.args|) by {
      assert AttrsFrom([fs[k]][1..], |e.args| + Slots(fs[k])) == [];
    }
    EmitConcat(NO_EMISSION, AttrsFrom(pre, 0), AttrsOf(fs[k], |e.args|), false);
    EmitMisalignedField(e, fs[k]);
    assert SlotCount([fs[k]]) == Slots(fs[k]) by {
      assert [fs[k]][1..] == [];
    }
  }

  /**
   Slot alignment: at every prefix val_encode is as long as the running decode index,
   if and only if no field is a two-slot integer, a two-slot reserved scalar or a
   two-slot bit-field of a single sub-field. The corrected emission is always aligned.
   */
  lemma SlotAlignment(fs: seq<Field>, corrected: bool)
    requires forall f :: f in fs ==> f.Number() && WellFormed(f)
    ensures (forall k :: 0 <= k <= |fs| ==> AlignedAfter(fs, k, corrected))
       <==> (forall f :: f in fs ==> AlignedField(f, corrected))
  {
    if forall f :: f in fs ==> AlignedField(f, corrected) {
      forall k | 0 <= k <= |fs| ensures AlignedAfter(fs, k, corrected) {
        EmitAlignedFields(NO_EMISSION, fs[..k], corrected);
      }
    } else {
      var k := FirstMisaligned(fs);
      MisalignedAt(fs, k);
    }
  }

  lemma {:induction false} FirstMisaligned(fs: seq<Field>) returns (k: nat)
    requires forall f :: f in fs ==> f.Number() && WellFormed(f)
    requires exists f :: f in fs && !AlignedField(f, false)
    ensures k < |fs| && !AlignedField(fs[k], false)
    ensures forall f :: f in fs[..k] ==> AlignedField(f, false)
  {
    if !AlignedField(fs[0], false) {
      k := 0;
    } else {
      var k1 := FirstMisaligned(fs[1..]);
      k := k1 + 1;
      assert fs[..k] == [fs[0]] + fs[1..][..k1];
    }
  }
}

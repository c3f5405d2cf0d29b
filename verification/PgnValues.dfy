/**
 The integers the code of a numeric segment hands to pack_into: each field has one raw
 integer, and the emitted statements put it, or its halves, into the slots of the field.
 */
module PgnValues {
  import opened Bits
  import opened Wrappers
  import opened PgnFields
  import opened PgnIr
  import opened PgnEmit
  import opened PgnSegment

  predicate HasInt(name: string, obj: Object) { name in obj && obj[name].Int? }

  predicate HasFloat(name: string, obj: Object) { name in obj && (obj[name].Float? || obj[name].NaN?) }

  predicate HasStr(name: string, obj: Object) { name in obj && obj[name].Str? }

  /** The object holds a value of the right kind for every attribute of the field. */
  predicate Typed(f: Field, obj: Object) {
    match f
    case BitField(subs) => forall s :: s in subs && s.name.Some? ==> HasInt(s.name.value, obj)
    case Scalar(name, _, _, isFloat) =>
      name.Some? ==> if isFloat then HasFloat(name.value, obj) else HasInt(name.value, obj)
    case Text(name, _) => name.Some? ==> HasStr(name.value, obj)
    case VarText(name) => name.Some? ==> HasStr(name.value, obj)
  }

  /** A sub-field contributes its attribute's low bits, a reserved one all ones. */
  function Part(s: Sub, obj: Object): nat {
    match s.name
    case Some(name) => if HasInt(name, obj) then obj[name].i % Pow2(s.width) else 0
    case None => Pow2(s.width) - 1
  }

  function PrefixWord(subs: seq<Sub>, i: nat, obj: Object): nat
    requires i <= |subs|
  {
    if i == 0 then 0
    else PrefixWord(subs, i - 1, obj) + Part(subs[i - 1], obj) * Pow2(subs[i - 1].offset)
  }

  /** The integer a numeric field carries. */
  function Raw(f: Field, obj: Object): int
    requires f.Number() && Typed(f, obj)
  {
    match f
    case BitField(subs) => PrefixWord(subs, |subs|, obj)
    case Scalar(Some(name), bits, signed, isFloat) =>
      if !isFloat then obj[name].i
      else if obj[name].NaN? then ScalarInvalid(bits, signed) else obj[name].raw
    case Scalar(None, bits, signed, _) => ScalarInvalid(bits, signed)
  }

  /** The upper half of a two-slot field: a bit-field as emitted loses it. */
  function HighPart(f: Field, raw: int, corrected: bool): int {
    if !corrected && f.BitField? then 0
    else if corrected && Signed(f) then raw / 65536
    else raw / 65536 % 256
  }

  function SlotVals(f: Field, obj: Object, corrected: bool): (vals: seq<int>)
    requires f.Number() && Typed(f, obj)
    ensures |vals| == Slots(f)
  {
    var raw := Raw(f, obj);
    if Slots(f) == 1 then [raw] else [raw % 65536, HighPart(f, raw, corrected)]
  }

  function AllSlotVals(fs: seq<Field>, obj: Object, corrected: bool): (vals: seq<int>)
    requires forall f :: f in fs ==> f.Number() && Typed(f, obj)
    ensures |vals| == SlotCount(fs)
  {
    if fs == [] then [] else SlotVals(fs[0], obj, corrected) + AllSlotVals(fs[1..], obj, corrected)
  }

  // ---- the bit-field word ----

  lemma {:induction false} PrefixWordBound(subs: seq<Sub>, i: nat, obj: Object)
    requires i <= |subs| && Contiguous(subs)
    ensures PrefixWord(subs, i, obj) < Pow2(BitLength(subs[..i]))
  {
    if i > 0 {
      var s, w, p := subs[i - 1], Part(subs[i - 1], obj), Pow2(subs[i - 1].offset);
      PrefixWordBound(subs, i - 1, obj);
      assert subs[..i][..i - 1] == subs[..i - 1];
      assert BitLength(subs[..i]) == s.offset + s.width;
      Pow2Add(s.offset, s.width);
      TwoDigits(w, PrefixWord(subs, i - 1, obj), p, Pow2(s.width));
    }
  }

  lemma EvalSub(s: Sub, m: Machine)
    requires s.name.Some? ==> HasInt(s.name.value, m.obj)
    ensures Eval(SubExpr(s), m) == Some(Part(s, m.obj) * Pow2(s.offset))
  {
    if s.name.Some? {
      var load := Load(Attribute(s.name.value));
      assert Eval(load, m) == Some(m.obj[s.name.value].i);
      assert Eval(BitAnd(load, Pow2(s.width) - 1), m) == Some(Part(s, m.obj)) by {
        MaskIsRemainder(m.obj[s.name.value].i, s.width);
      }
    }
  }

  /** OR-ing in the sub-fields from i on completes the word of the first i. */
  lemma ExecOrSub(subs: seq<Sub>, i: nat, acc: Loc, m: Machine, m1: Machine)
    requires i < |subs| && Contiguous(subs) && (acc.Var? || acc.Word?)
    requires Typed(BitField(subs), m.obj)
    requires acc in m.env && m.env[acc] == PrefixWord(subs, i, m.obj)
    requires m1 == m.(env := m.env[acc := PrefixWord(subs, i + 1, m.obj)])
    ensures Exec(OrAssign(acc, SubExpr(subs[i])), m) == Some(m1)
  {
    EvalSub(subs[i], m);
    OrInSub(subs, i, m.obj);
  }

  lemma {:induction false} RunOrStmts(subs: seq<Sub>, i: nat, acc: Loc, m: Machine)
    requires 1 <= i <= |subs| && Contiguous(subs) && (acc.Var? || acc.Word?)
    requires Typed(BitField(subs), m.obj)
    requires acc in m.env && m.env[acc] == PrefixWord(subs, i, m.obj)
    ensures Run(OrStmts(subs, i, acc), m) == Some(m.(env := m.env[acc := PrefixWord(subs, |subs|, m.obj)]))
    decreases |subs| - i
  {
    var last := PrefixWord(subs, |subs|, m.obj);
    if i == |subs| {
      assert m.env[acc := last] == m.env;
    } else {
      var m1 := m.(env := m.env[acc := PrefixWord(subs, i + 1, m.obj)]);
      ExecOrSub(subs, i, acc, m, m1);
      RunNext(OrAssign(acc, SubExpr(subs[i])), OrStmts(subs, i + 1, acc), m, m1);
      RunOrStmts(subs, i + 1, acc, m1);
      assert m1.env[acc := last] == m.env[acc := last];
    }
  }

  /** `word |= part << offset` adds the part: its bits are above the word so far. */
  lemma OrInSub(subs: seq<Sub>, i: nat, obj: Object)
    requires i < |subs| && Contiguous(subs)
    ensures Or(PrefixWord(subs, i, obj), Part(subs[i], obj) * Pow2(subs[i].offset)) == PrefixWord(subs, i + 1, obj)
  {
    PrefixWordBound(subs, i, obj);
    OrDisjoint(PrefixWord(subs, i, obj), Part(subs[i], obj), subs[i].offset);
  }

  lemma RunWord(subs: seq<Sub>, acc: Loc, m: Machine)
    requires subs != [] && Contiguous(subs) && (acc.Var? || acc.Word?)
    requires Typed(BitField(subs), m.obj)
    ensures Run([Assign(acc, SubExpr(subs[0]))] + OrStmts(subs, 1, acc), m)
         == Some(m.(env := m.env[acc := PrefixWord(subs, |subs|, m.obj)]))
  {
    var body := [Assign(acc, SubExpr(subs[0]))] + OrStmts(subs, 1, acc);
    EvalSub(subs[0], m);
    assert subs[..0] == [];
    assert PrefixWord(subs, 1, m.obj) == Part(subs[0], m.obj) * Pow2(subs[0].offset);
    var m1 := m.(env := m.env[acc := PrefixWord(subs, 1, m.obj)]);
    assert body[1..] == OrStmts(subs, 1, acc);
    RunOrStmts(subs, 1, acc, m1);
    var last := PrefixWord(subs, |subs|, m.obj);
    assert m1.env[acc := last] == m.env[acc := last];
  }

  lemma HalfMasks(x: int)
    ensures And(x, 0xFFFF) == x % 65536
    ensures And(Shr(x, 16), 0xFF) == x / 65536 % 256
    ensures Shr(And(x, 0xFF), 16) == 0
    ensures Shr(x, 16) == x / 65536
  {
    assert Pow2(8) == 256;
    Pow2Add(8, 8);
    assert Pow2(16) == 65536;
    MaskIsRemainder(x, 16);
    MaskIsRemainder(Shr(x, 16), 8);
    MaskIsRemainder(x, 8);
  }

  // ---- running the code ----

  /** Everything the code of later fields may rely on: the object and the locals below n. */
  predicate Keeps(m: Machine, m': Machine, n: nat) {
    m'.obj == m.obj && m'.val == m.val
    && forall j: nat :: j < n && Var(j) in m.env ==> Var(j) in m'.env && m'.env[Var(j)] == m.env[Var(j)]
  }

  predicate OperandsBelow(args: seq<Loc>, n: nat) {
    forall a :: a in args ==> a.Attribute? || (a.Var? && a.n < n)
  }

  lemma {:induction false} ReadAllKept(args: seq<Loc>, m: Machine, m': Machine, n: nat)
    requires OperandsBelow(args, n) && Keeps(m, m', n)
    requires ReadAll(args, m).Some?
    ensures ReadAll(args, m') == ReadAll(args, m)
  {
    if args != [] {
      assert args[0] in args;
      ReadAllKept(args[1..], m, m', n);
    }
  }

  ghost predicate RunsTo(code: Emission, n: nat, m: Machine, m': Machine, vals: seq<int>) {
    && Run(code.out, m) == Some(m')
    && Keeps(m, m', n)
    && n <= code.numvi && OperandsBelow(code.args, code.numvi)
    && ReadAll(code.args, m') == Some(vals)
  }

  lemma ReadOneOrTwo(args: seq<Loc>, m: Machine)
    requires |args| == 1 || |args| == 2
    requires forall a :: a in args ==> Read(a, m).Some?
    ensures ReadAll(args, m) == Some(if |args| == 1 then [Read(args[0], m).value]
                                     else [Read(args[0], m).value, Read(args[1], m).value])
  {
    assert args[0] in args;
    if |args| == 2 {
      assert args[1] in args;
      assert args[1..] == [args[1]] && [args[1]][1..] == [];
      var x, y := Read(args[0], m).value, Read(args[1], m).value;
      assert ReadAll([args[1]], m) == Some([y] + []);
      assert [x] + ([y] + []) == [x, y];
    } else {
      assert args[1..] == [];
      assert [Read(args[0], m).value] + [] == [Read(args[0], m).value];
    }
  }

  lemma RunTwo(a: Stmt, b: Stmt, m: Machine)
    ensures Run([a, b], m) == match Exec(a, m) case None => None case Some(m1) => Exec(b, m1)
  {
    assert [a, b][1..] == [b] && [b][1..] == [];
    assert forall m1: Machine :: Run([b], m1) == Exec(b, m1);
  }

  lemma EvalHigh(high: Expr, m: Machine)
    requires Word in m.env
    requires high == ShiftRight(BitAnd(Load(Word), 0xFF), 16) || high == HighHalf(Word)
             || high == ShiftRight(Load(Word), 16)
    ensures Eval(high, m) == Some(var w := m.env[Word];
                                  if high == HighHalf(Word) then w / 65536 % 256
                                  else if high == ShiftRight(Load(Word), 16) then w / 65536 else 0)
  {
    HalfMasks(m.env[Word]);
    assert Eval(Load(Word), m) == Some(m.env[Word]);
    assert Eval(ShiftRight(Load(Word), 16), m) == Some(m.env[Word] / 65536);
    assert Eval(BitAnd(Load(Word), 0xFF), m) == Some(And(m.env[Word], 0xFF));
  }

  /** Splitting the word into two locals. */
  lemma RunSplit(n: nat, high: Expr, m: Machine)
    requires Word in m.env
    requires high == ShiftRight(BitAnd(Load(Word), 0xFF), 16) || high == HighHalf(Word)
             || high == ShiftRight(Load(Word), 16)
    ensures var w := m.env[Word];
            var hi := if high == HighHalf(Word) then w / 65536 % 256
                      else if high == ShiftRight(Load(Word), 16) then w / 65536 else 0;
            Run([Assign(Var(n), LowHalf(Word)), Assign(Var(n + 1), high)], m)
            == Some(m.(env := m.env[Var(n) := w % 65536][Var(n + 1) := hi]))
  {
    var w := m.env[Word];
    HalfMasks(w);
    var m1 := m.(env := m.env[Var(n) := w % 65536]);
    assert Eval(Load(Word), m) == Some(w) && Eval(Load(Word), m1) == Some(w);
    assert Exec(Assign(Var(n), LowHalf(Word)), m) == Some(m1);
    EvalHigh(high, m1);
    RunTwo(Assign(Var(n), LowHalf(Word)), Assign(Var(n + 1), high), m);
  }

  lemma RunBitField(f: Field, n: nat, valVar: Loc, corrected: bool, m: Machine) returns (m': Machine)
    requires f.BitField? && WellFormed(f) && Typed(f, m.obj)
    ensures RunsTo(FieldCode(f, n, valVar, corrected), n, m, m', SlotVals(f, m.obj, corrected))
  {
    var code := FieldCode(f, n, valVar, corrected);
    if Slots(f) == 2 {
      m' := RunTwoSlotBitField(f, n, valVar, corrected, m);
    } else {
      RunWord(f.subs, Var(n), m);
      m' := m.(env := m.env[Var(n) := Raw(f, m.obj)]);
      assert code.args == [Var(n)];
      ReadOneOrTwo(code.args, m');
    }
  }

  function SplitHigh(corrected: bool): Expr {
    if corrected then HighHalf(Word) else ShiftRight(BitAnd(Load(Word), 0xFF), 16)
  }

  function SplitTail(n: nat, corrected: bool): seq<Stmt> {
    [Assign(Var(n), LowHalf(Word)), Assign(Var(n + 1), SplitHigh(corrected))]
  }

  lemma TwoSlotCode(f: Field, n: nat, valVar: Loc, corrected: bool)
    requires f.BitField? && WellFormed(f) && Slots(f) == 2
    ensures FieldCode(f, n, valVar, corrected)
         == Emission([Assign(Word, SubExpr(f.subs[0]))] + OrStmts(f.subs, 1, Word) + SplitTail(n, corrected),
                     [Var(n), Var(n + 1)], n + 2, Word)
  {
  }

  lemma RunSplitTail(n: nat, corrected: bool, m: Machine) returns (m': Machine)
    requires Word in m.env
    ensures Run(SplitTail(n, corrected), m) == Some(m') && Keeps(m, m', n)
    ensures ReadAll([Var(n), Var(n + 1)], m')
         == Some([m.env[Word] % 65536, if corrected then m.env[Word] / 65536 % 256 else 0])
  {
    RunSplit(n, SplitHigh(corrected), m);
    m' := Run(SplitTail(n, corrected), m).value;
    ReadOneOrTwo([Var(n), Var(n + 1)], m');
  }

  lemma RunTwoSlotBitField(f: Field, n: nat, valVar: Loc, corrected: bool, m: Machine) returns (m': Machine)
    requires f.BitField? && WellFormed(f) && Slots(f) == 2 && Typed(f, m.obj)
    ensures RunsTo(FieldCode(f, n, valVar, corrected), n, m, m', SlotVals(f, m.obj, corrected))
  {
    var body := [Assign(Word, SubExpr(f.subs[0]))] + OrStmts(f.subs, 1, Word);
    TwoSlotCode(f, n, valVar, corrected);
    RunWord(f.subs, Word, m);
    var m1 := m.(env := m.env[Word := Raw(f, m.obj)]);
    m' := RunSplitTail(n, corrected, m1);
    RunConcat(body, SplitTail(n, corrected), m);
  }

  /** A scalar carried through `word` in two halves. */
  lemma RunHalves(load: Expr, n: nat, high: Expr, m: Machine) returns (m': Machine)
    requires Eval(load, m).Some?
    requires high == HighHalf(Word) || high == ShiftRight(Load(Word), 16)
    ensures Run([Assign(Word, load), Assign(Var(n), LowHalf(Word)), Assign(Var(n + 1), high)], m) == Some(m')
    ensures Keeps(m, m', n)
    ensures var w := Eval(load, m).value;
            ReadAll([Var(n), Var(n + 1)], m')
            == Some([w % 65536, if high == HighHalf(Word) then w / 65536 % 256 else w / 65536])
  {
    var first, tail := [Assign(Word, load)], [Assign(Var(n), LowHalf(Word)), Assign(Var(n + 1), high)];
    var m1 := m.(env := m.env[Word := Eval(load, m).value]);
    assert Run(first, m) == Some(m1) by {
      assert first[1..] == [];
    }
    assert [Assign(Word, load), Assign(Var(n), LowHalf(Word)), Assign(Var(n + 1), high)] == first + tail;
    RunConcat(first, tail, m);
    RunSplit(n, high, m1);
    m' := Run(tail, m1).value;
    ReadOneOrTwo([Var(n), Var(n + 1)], m');
  }

  lemma RunScalar(f: Field, n: nat, valVar: Loc, corrected: bool, m: Machine) returns (m': Machine)
    requires f.Scalar? && WellFormed(f) && AlignedField(f, corrected) && Typed(f, m.obj)
    ensures RunsTo(FieldCode(f, n, valVar, corrected), n, m, m', SlotVals(f, m.obj, corrected))
  {
    if Slots(f) == 2 {
      m' := RunTwoSlotScalar(f, n, valVar, corrected, m);
    } else if f.name.Some? && !f.isFloat {
      m' := m;
      RunInteger(f, n, valVar, corrected, m);
    } else {
      m' := RunConverted(f, n, valVar, corrected, m);
    }
  }

  lemma RunTwoSlotScalar(f: Field, n: nat, valVar: Loc, corrected: bool, m: Machine) returns (m': Machine)
    requires f.Scalar? && WellFormed(f) && AlignedField(f, corrected) && Typed(f, m.obj) && Slots(f) == 2
    ensures RunsTo(FieldCode(f, n, valVar, corrected), n, m, m', SlotVals(f, m.obj, corrected))
  {
    var high := if corrected && f.signed then ShiftRight(Load(Word), 16) else HighHalf(Word);
    TwoSlotScalarCode(f, n, valVar, corrected, high);
    m' := RunHalves(LoadOf(f), n, high, m);
  }

  /** An integer of one slot is packed from its attribute. */
  lemma RunInteger(f: Field, n: nat, valVar: Loc, corrected: bool, m: Machine)
    requires f.Scalar? && WellFormed(f) && Typed(f, m.obj) && Slots(f) == 1 && f.name.Some? && !f.isFloat
    ensures RunsTo(FieldCode(f, n, valVar, corrected), n, m, m, SlotVals(f, m.obj, corrected))
  {
    ReadOneOrTwo([Attribute(f.name.value)], m);
  }

  /** A float or a default of one slot goes through a local. */
  lemma RunConverted(f: Field, n: nat, valVar: Loc, corrected: bool, m: Machine) returns (m': Machine)
    requires f.Scalar? && WellFormed(f) && Typed(f, m.obj) && Slots(f) == 1 && (f.name.None? || f.isFloat)
    ensures RunsTo(FieldCode(f, n, valVar, corrected), n, m, m', SlotVals(f, m.obj, corrected))
  {
    m' := m.(env := m.env[Var(n) := Raw(f, m.obj)]);
    RunNext(Assign(Var(n), LoadOf(f)), [], m, m');
    ReadOneOrTwo([Var(n)], m');
  }

  /** Where a scalar's integer comes from. */
  function LoadOf(f: Field): Expr
    requires f.Scalar?
  {
    if f.name.None? then Lit(ScalarInvalid(f.bits, f.signed))
    else if f.isFloat then ToInt(f.name.value, ScalarInvalid(f.bits, f.signed))
    else Load(Attribute(f.name.value))
  }

  lemma TwoSlotScalarCode(f: Field, n: nat, valVar: Loc, corrected: bool, high: Expr)
    requires f.Scalar? && WellFormed(f) && AlignedField(f, corrected) && Slots(f) == 2
    requires high == if corrected && f.signed then ShiftRight(Load(Word), 16) else HighHalf(Word)
    ensures FieldCode(f, n, valVar, corrected)
         == Emission([Assign(Word, LoadOf(f)), Assign(Var(n), LowHalf(Word)), Assign(Var(n + 1), high)],
                     [Var(n), Var(n + 1)], n + 2, Word)
  {
  }

  /** The code of aligned fields computes exactly the slot values of each field in turn. */
  lemma {:induction false} RunFields(fs: seq<Field>, n: nat, valVar: Loc, corrected: bool, m: Machine)
    returns (m': Machine)
    requires forall f :: f in fs ==> f.Number() && WellFormed(f) && AlignedField(f, corrected) && Typed(f, m.obj)
    ensures RunsTo(FieldsCode(fs, n, valVar, corrected), n, m, m', AllSlotVals(fs, m.obj, corrected))
    decreases |fs|
  {
    if fs == [] {
      m' := m;
    } else {
      var code := FieldCode(fs[0], n, valVar, corrected);
      var rest := FieldsCode(fs[1..], code.numvi, code.valVar, corrected);
      var m1;
      if fs[0].BitField? {
        m1 := RunBitField(fs[0], n, valVar, corrected, m);
      } else {
        m1 := RunScalar(fs[0], n, valVar, corrected, m);
      }
      m' := RunFields(fs[1..], code.numvi, code.valVar, corrected, m1);
      RunConcat(code.out, rest.out, m);
      ReadAllConcat(code.args, rest.args, m');
      ReadAllKept(code.args, m1, m', code.numvi);
    }
  }

  /**
   Encoding a numeric segment: the program the generator emits for aligned fields leaves
   the object alone and packs the slot values of the fields, whatever it starts from.
   */
  lemma SegmentComputesSlotValues(fs: seq<Field>, corrected: bool, obj: Object) returns (e: Emission, m: Machine)
    requires forall f :: f in fs ==> f.Number() && WellFormed(f) && AlignedField(f, corrected) && Typed(f, obj)
    ensures EmitAttrs(NO_EMISSION, AttrsFrom(fs, 0), corrected) == Ok(e)
    ensures Run(e.out, Machine(map[], obj, [])) == Some(m) && m.obj == obj
    ensures ReadAll(e.args, m) == Some(AllSlotVals(fs, obj, corrected))
  {
    EmitAlignedFields(NO_EMISSION, fs, corrected);
    var code := FieldsCode(fs, 0, Unset, corrected);
    e := Append(NO_EMISSION, code);
    assert e.out == code.out && e.args == code.args;
    m := RunFields(fs, 0, Unset, corrected, Machine(map[], obj, []));
  }
}

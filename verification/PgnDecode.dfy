/**
 What the emitted decode code assigns, and exactly when it gives an attribute back:
 the two halves of meaning preservation for one numeric segment.
 */
module PgnDecode {
  import opened Bits
  import opened Wrappers
  import opened PgnFields
  import opened PgnIr
  import opened PgnEmit
  import opened PgnValues

  // ---- the meaning of the decode code ----

  function Joined(f: Field, val: seq<int>): int
    requires f.Number() && |val| >= Slots(f)
  {
    if Slots(f) == 2 then val[0] + val[1] * 65536 else val[0]
  }

  function SubValue(s: Sub, raw: int): int { raw / Pow2(s.offset) % Pow2(s.width) }

  function SetSubs(subs: seq<Sub>, i: nat, raw: int, obj: Object): Object
    requires i <= |subs|
    decreases |subs| - i
  {
    if i == |subs| then obj
    else
      var s := subs[i];
      SetSubs(subs, i + 1, raw, SetSub(s, raw, obj))
  }

  function ScalarConversion(f: Field, counter: Option<string>): Conversion
    requires f.Scalar? && f.name.Some?
  {
    var invalid := ScalarInvalid(f.bits, f.signed);
    if counter == f.name then CheckValid(invalid, 0) else if f.isFloat then ToFloat(invalid) else Plain
  }

  function DecodedField(f: Field, raw: int, counter: Option<string>, obj: Object): Object
    requires f.Number()
  {
    match f
    case BitField(subs) => SetSubs(subs, 0, raw, obj)
    case Scalar(Some(name), _, _, _) => obj[name := Convert(raw, ScalarConversion(f, counter))]
    case Scalar(None, _, _, _) => obj
  }

  function DecodedFields(fs: seq<Field>, val: seq<int>, counter: Option<string>, obj: Object): Object
    requires forall f :: f in fs ==> f.Number()
    requires |val| == SlotCount(fs)
  {
    if fs == [] then obj
    else DecodedFields(fs[1..], val[Slots(fs[0])..], counter, DecodedField(fs[0], Joined(fs[0], val), counter, obj))
  }

  /** `word` is joined at the first sub-field, unless that one is reserved and skipped. */
  predicate DecodeReady(f: Field, corrected: bool)
    requires f.Number()
  {
    corrected || Slots(f) == 1 || f.Scalar?
    || (f.subs != [] && f.subs[0].name.Some?)
    || forall s :: s in f.subs ==> s.name.None?
  }

  lemma EvalJoin(index: nat, m: Machine)
    requires index + 1 < |m.val|
    ensures Eval(JoinSlots(index), m) == Some(m.val[index] + m.val[index + 1] * 65536)
  {
    assert Pow2(16) == 65536 by {
      Pow2Add(8, 8);
      assert Pow2(8) == 256;
    }
    assert Eval(Slot(index), m) == Some(m.val[index]);
    assert Eval(ShiftLeft(Slot(index + 1), 16), m) == Some(m.val[index + 1] * 65536);
  }

  /** `(source >> offset) & mask`, with the shift left out at offset 0. */
  lemma EvalSubValue(s: Sub, source: Expr, m: Machine)
    requires source == Load(Word) || source.Slot?
    requires Eval(source, m).Some?
    ensures var shifted := if s.offset == 0 then source else ShiftRight(source, s.offset);
            Eval(BitAnd(shifted, Pow2(s.width) - 1), m) == Some(SubValue(s, Eval(source, m).value))
  {
    var v := Eval(source, m).value;
    var shifted := if s.offset == 0 then source else ShiftRight(source, s.offset);
    assert Eval(shifted, m) == Some(v / Pow2(s.offset));
    MaskIsRemainder(v / Pow2(s.offset), s.width);
  }

  lemma RunOne(s: Stmt, m: Machine)
    ensures Run([s], m) == Exec(s, m)
  {
    assert [s][1..] == [];
  }

  function SubSource(slots: nat, index: nat): Expr { if slots == 2 then Load(Word) else Slot(index) }

  lemma RunDecodeSub(s: Sub, slots: nat, i: nat, last: bool, index: nat, counter: Option<string>, corrected: bool,
                     m: Machine, m1: Machine)
    requires i > 0 || slots != 2
    requires Eval(SubSource(slots, index), m).Some?
    requires m1 == m.(obj := SetSub(s, Eval(SubSource(slots, index), m).value, m.obj))
    ensures Run(DecodeAttr(SubAttr(s, slots, i, last, index), counter, corrected), m) == Some(m1)
  {
    var source := SubSource(slots, index);
    EvalSubValue(s, source, m);
    if s.name.Some? {
      var e := BitAnd(if s.offset == 0 then source else ShiftRight(source, s.offset), Pow2(s.width) - 1);
      DecodeOfSub(s, slots, i, last, index, counter, corrected, s.name.value, e);
      RunOne(SetAttribute(s.name.value, e, Plain), m);
    }
  }

  lemma DecodeOfSub(s: Sub, slots: nat, i: nat, last: bool, index: nat, counter: Option<string>, corrected: bool,
                    name: string, e: Expr)
    requires (i > 0 || slots != 2) && s.name == Some(name)
    requires var source := SubSource(slots, index);
             e == BitAnd(if s.offset == 0 then source else ShiftRight(source, s.offset), Pow2(s.width) - 1)
    ensures DecodeAttr(SubAttr(s, slots, i, last, index), counter, corrected) == [SetAttribute(name, e, Plain)]
  {
  }

  lemma {:induction false} RunDecodeSubs(subs: seq<Sub>, slots: nat, i: nat, index: nat, counter: Option<string>,
                                         corrected: bool, m: Machine)
    requires i <= |subs| && (i > 0 || slots != 2)
    requires Eval(SubSource(slots, index), m).Some?
    ensures Run(DecodeAttrs(SubAttrsFrom(subs, slots, i, index), counter, corrected), m)
         == Some(m.(obj := SetSubs(subs, i, Eval(SubSource(slots, index), m).value, m.obj)))
    decreases |subs| - i
  {
    if i < |subs| {
      var s, attrs := subs[i], SubAttrsFrom(subs, slots, i, index);
      var source := SubSource(slots, index);
      var raw := Eval(source, m).value;
      var first := DecodeAttr(attrs[0], counter, corrected);
      assert attrs[0] == SubAttr(s, slots, i, i == |subs| - 1, index);
      assert attrs[1..] == SubAttrsFrom(subs, slots, i + 1, index);
      var rest := DecodeAttrs(attrs[1..], counter, corrected);
      RunConcat(first, rest, m);
      var m1 := m.(obj := SetSub(s, raw, m.obj));
      RunDecodeSub(s, slots, i, i == |subs| - 1, index, counter, corrected, m, m1);
      assert Eval(source, m1) == Some(raw);
      RunDecodeSubs(subs, slots, i + 1, index, counter, corrected, m1);
    }
  }

  function SetSub(s: Sub, raw: int, obj: Object): Object {
    if s.name.Some? then obj[s.name.value := Int(SubValue(s, raw))] else obj
  }

  lemma RunJoinFirst(s: Sub, index: nat, last: bool, counter: Option<string>, corrected: bool, m: Machine)
    requires index + 2 <= |m.val| && (s.name.Some? || corrected)
    ensures var raw := m.val[index] + m.val[index + 1] * 65536;
            Run(DecodeAttr(SubAttr(s, 2, 0, last, index), counter, corrected), m)
            == Some(m.(env := m.env[Word := raw], obj := SetSub(s, raw, m.obj)))
  {
    var raw := m.val[index] + m.val[index + 1] * 65536;
    var join := Assign(Word, JoinSlots(index));
    var m1 := m.(env := m.env[Word := raw]);
    EvalJoin(index, m);
    assert Exec(join, m) == Some(m1);
    if s.name.Some? {
      var shifted := if s.offset == 0 then Load(Word) else ShiftRight(Load(Word), s.offset);
      var set1 := SetAttribute(s.name.value, BitAnd(shifted, Pow2(s.width) - 1), Plain);
      assert DecodeAttr(SubAttr(s, 2, 0, last, index), counter, corrected) == [join] + [set1] == [join, set1];
      RunSetSub(s, set1, raw, m1);
      RunTwo(join, set1, m);
    } else {
      assert DecodeAttr(SubAttr(s, 2, 0, last, index), counter, corrected) == [join];
      RunOne(join, m);
    }
  }

  lemma RunSetSub(s: Sub, set1: Stmt, raw: int, m: Machine)
    requires s.name.Some? && Word in m.env && m.env[Word] == raw
    requires var shifted := if s.offset == 0 then Load(Word) else ShiftRight(Load(Word), s.offset);
             set1 == SetAttribute(s.name.value, BitAnd(shifted, Pow2(s.width) - 1), Plain)
    ensures Exec(set1, m) == Some(m.(obj := SetSub(s, raw, m.obj)))
  {
    assert Eval(Load(Word), m) == Some(raw);
    EvalSubValue(s, Load(Word), m);
  }

  lemma DecodeOne(a: Attr, tail: seq<Attr>, counter: Option<string>, corrected: bool)
    ensures DecodeAttrs([a] + tail, counter, corrected)
         == DecodeAttr(a, counter, corrected) + DecodeAttrs(tail, counter, corrected)
  {
    assert ([a] + tail)[1..] == tail;
  }

  /** A two-slot bit-field: joining the word first. */
  lemma RunDecodeWordField(f: Field, index: nat, counter: Option<string>, corrected: bool, m: Machine)
    returns (m': Machine)
    requires f.BitField? && WellFormed(f) && Slots(f) == 2 && DecodeReady(f, corrected)
    requires index + 2 <= |m.val|
    ensures Run(DecodeAttrs(AttrsOf(f, index), counter, corrected), m) == Some(m')
    ensures m'.val == m.val && m'.obj == DecodedField(f, Joined(f, m.val[index..]), counter, m.obj)
  {
    var subs := f.subs;
    var raw := m.val[index] + m.val[index + 1] * 65536;
    assert Joined(f, m.val[index..]) == raw;
    if subs[0].name.None? && !corrected {
      AllReserved(subs, 0, index, raw, counter, m);
      m' := m;
    } else {
      m' := RunDecodeWord(subs, index, raw, counter, corrected, m);
    }
  }

  lemma RunDecodeWord(subs: seq<Sub>, index: nat, raw: int, counter: Option<string>, corrected: bool, m: Machine)
    returns (m': Machine)
    requires index + 2 <= |m.val| && raw == m.val[index] + m.val[index + 1] * 65536
    requires subs != [] && (subs[0].name.Some? || corrected)
    ensures Run(DecodeAttrs(SubAttrsFrom(subs, 2, 0, index), counter, corrected), m) == Some(m')
    ensures m'.val == m.val && m'.obj == SetSubs(subs, 0, raw, m.obj)
  {
    var a, tail := SubAttr(subs[0], 2, 0, 0 == |subs| - 1, index), SubAttrsFrom(subs, 2, 1, index);
    var m1 := m.(env := m.env[Word := raw], obj := SetSub(subs[0], raw, m.obj));
    m' := m1.(obj := SetSubs(subs, 1, raw, m1.obj));
    var x, y := DecodeAttr(a, counter, corrected), DecodeAttrs(tail, counter, corrected);
    assert Run(x, m) == Some(m1) by {
      RunJoinFirst(subs[0], index, 0 == |subs| - 1, counter, corrected, m);
    }
    assert Run(y, m1) == Some(m') by {
      assert Eval(SubSource(2, index), m1) == Some(raw);
      RunDecodeSubs(subs, 2, 1, index, counter, corrected, m1);
    }
    assert DecodeAttrs(SubAttrsFrom(subs, 2, 0, index), counter, corrected) == x + y by {
      assert SubAttrsFrom(subs, 2, 0, index) == [a] + tail;
      DecodeOne(a, tail, counter, corrected);
    }
    RunConcat(x, y, m);
  }

  lemma {:induction false} AllReserved(subs: seq<Sub>, i: nat, index: nat, raw: int, counter: Option<string>,
                                       m: Machine)
    requires i <= |subs| && forall s :: s in subs ==> s.name.None?
    ensures DecodeAttrs(SubAttrsFrom(subs, 2, i, index), counter, false) == []
    ensures SetSubs(subs, i, raw, m.obj) == m.obj
    decreases |subs| - i
  {
    if i < |subs| {
      AllReserved(subs, i + 1, index, raw, counter, m);
      assert SubAttrsFrom(subs, 2, i, index)[1..] == SubAttrsFrom(subs, 2, i + 1, index);
    }
  }

  lemma RunDecodeField(f: Field, index: nat, counter: Option<string>, corrected: bool, m: Machine)
    returns (m': Machine)
    requires f.Number() && WellFormed(f) && DecodeReady(f, corrected)
    requires index + Slots(f) <= |m.val|
    ensures Run(DecodeAttrs(AttrsOf(f, index), counter, corrected), m) == Some(m')
    ensures m'.val == m.val && m'.obj == DecodedField(f, Joined(f, m.val[index..]), counter, m.obj)
  {
    match f
    case BitField(subs) =>
      if Slots(f) == 2 {
        m' := RunDecodeWordField(f, index, counter, corrected, m);
      } else {
        RunDecodeSubs(subs, 1, 0, index, counter, corrected, m);
        m' := m.(obj := SetSubs(subs, 0, m.val[index], m.obj));
      }
    case Scalar(None, _, _, _) =>
      assert AttrsOf(f, index)[1..] == [];
      m' := m;
    case Scalar(Some(name), _, _, _) =>
      m' := RunDecodeScalar(f, name, index, counter, corrected, m);
  }

  lemma RunDecodeScalar(f: Field, name: string, index: nat, counter: Option<string>, corrected: bool, m: Machine)
    returns (m': Machine)
    requires f.Scalar? && f.name == Some(name) && index + Slots(f) <= |m.val|
    ensures Run(DecodeAttrs(AttrsOf(f, index), counter, corrected), m) == Some(m')
    ensures m'.val == m.val && m'.obj == DecodedField(f, Joined(f, m.val[index..]), counter, m.obj)
  {
    var attrs := AttrsOf(f, index);
    assert attrs[1..] == [];
    var code := DecodeAttr(attrs[0], counter, corrected);
    assert DecodeAttrs(attrs, counter, corrected) == code;
    var raw := Joined(f, m.val[index..]);
    var obj' := m.obj[name := Convert(raw, ScalarConversion(f, counter))];
    if Slots(f) == 2 {
      EvalJoin(index, m);
      RunTwo(code[0], code[1], m);
      m' := m.(env := m.env[Word := raw], obj := obj');
    } else {
      RunOne(code[0], m);
      m' := m.(obj := obj');
    }
  }

  lemma RunBothDecodes(a: seq<Attr>, b: seq<Attr>, counter: Option<string>, corrected: bool, m: Machine, m1: Machine,
                       m2: Machine)
    requires Run(DecodeAttrs(a, counter, corrected), m) == Some(m1)
    requires Run(DecodeAttrs(b, counter, corrected), m1) == Some(m2)
    ensures Run(DecodeAttrs(a + b, counter, corrected), m) == Some(m2)
  {
    DecodeConcat(a, b, counter, corrected);
    RunConcat(DecodeAttrs(a, counter, corrected), DecodeAttrs(b, counter, corrected), m);
  }

  lemma DecodedFieldsUnfolds(fs: seq<Field>, val: seq<int>, counter: Option<string>, obj: Object)
    requires fs != [] && (forall f :: f in fs ==> f.Number()) && |val| == SlotCount(fs)
    ensures DecodedFields(fs, val, counter, obj)
         == DecodedFields(fs[1..], val[Slots(fs[0])..], counter, DecodedField(fs[0], Joined(fs[0], val), counter, obj))
  {
  }

  lemma {:induction false} RunDecodeFields(fs: seq<Field>, index: nat, counter: Option<string>, corrected: bool,
                                           m: Machine)
    returns (m': Machine)
    requires forall f :: f in fs ==> f.Number() && WellFormed(f) && DecodeReady(f, corrected)
    requires index + SlotCount(fs) == |m.val|
    ensures Run(DecodeAttrs(AttrsFrom(fs, index), counter, corrected), m) == Some(m')
    ensures m'.obj == DecodedFields(fs, m.val[index..], counter, m.obj)
    decreases |fs|
  {
    if fs == [] {
      m' := m;
    } else {
      var next := index + Slots(fs[0]);
      var a, b := AttrsOf(fs[0], index), AttrsFrom(fs[1..], next);
      DecodedFieldsUnfolds(fs, m.val[index..], counter, m.obj);
      var m1 := RunDecodeField(fs[0], index, counter, corrected, m);
      m' := RunDecodeFields(fs[1..], next, counter, corrected, m1);
      RunBothDecodes(a, b, counter, corrected, m, m1, m');
      assert m.val[index..][Slots(fs[0])..] == m.val[next..];
    }
  }

  /**
   A two-slot bit-field whose first sub-field is reserved while a later one is not: the
   generated decode never joins `word`. It raises if and only if nothing assigned `word`
   before; otherwise it takes the sub-fields from whatever an earlier field left there.
   */
  lemma ReservedFirstNeverJoins(f: Field, index: nat, counter: Option<string>, m: Machine)
    requires f.BitField? && WellFormed(f) && !DecodeReady(f, false)
    ensures Run(DecodeAttrs(AttrsOf(f, index), counter, false), m)
         == if Word in m.env then Some(m.(obj := SetSubs(f.subs, 0, m.env[Word], m.obj))) else None
  {
    if Word in m.env {
      var s, attrs := f.subs[0], AttrsOf(f, index);
      assert attrs[0] == SubAttr(s, 2, 0, 0 == |f.subs| - 1, index);
      assert attrs[1..] == SubAttrsFrom(f.subs, 2, 1, index);
      var rest := DecodeAttrs(attrs[1..], counter, false);
      assert DecodeAttr(attrs[0], counter, false) == [] && [] + rest == rest;
      assert DecodeAttrs(attrs, counter, false) == rest;
      assert Eval(SubSource(2, index), m) == Some(m.env[Word]);
      assert SetSub(s, m.env[Word], m.obj) == m.obj;
      RunDecodeSubs(f.subs, 2, 1, index, counter, false, m);
    } else {
      UnjoinedWordRaises(f.subs, 0, index, counter, m);
    }
  }

  lemma {:induction false} UnjoinedWordRaises(subs: seq<Sub>, i: nat, index: nat, counter: Option<string>, m: Machine)
    requires i <= |subs| && (i == 0 ==> subs != [] && subs[0].name.None?)
    requires exists s :: s in subs[i..] && s.name.Some?
    requires Word !in m.env
    ensures Run(DecodeAttrs(SubAttrsFrom(subs, 2, i, index), counter, false), m) == None
    decreases |subs| - i
  {
    var s, tail := subs[i], SubAttrsFrom(subs, 2, i + 1, index);
    var a := SubAttr(s, 2, i, i == |subs| - 1, index);
    assert SubAttrsFrom(subs, 2, i, index) == [a] + tail;
    DecodeOne(a, tail, counter, false);
    RunConcat(DecodeAttr(a, counter, false), DecodeAttrs(tail, counter, false), m);
    if s.name.Some? {
      NamedSubRaises(s, i, i == |subs| - 1, index, counter, m);
    } else {
      assert subs[i..] == [s] + subs[i + 1..];
      UnjoinedWordRaises(subs, i + 1, index, counter, m);
    }
  }

  lemma NamedSubRaises(s: Sub, i: nat, last: bool, index: nat, counter: Option<string>, m: Machine)
    requires i > 0 && s.name.Some? && Word !in m.env
    ensures Run(DecodeAttr(SubAttr(s, 2, i, last, index), counter, false), m) == None
  {
    var source := Load(Word);
    var shifted := if s.offset == 0 then source else ShiftRight(source, s.offset);
    var e := BitAnd(shifted, Pow2(s.width) - 1);
    DecodeOfSub(s, 2, i, last, index, counter, false, s.name.value, e);
    assert Eval(source, m) == None && Eval(shifted, m) == None && Eval(e, m) == None;
    RunOne(SetAttribute(s.name.value, e, Plain), m);
  }
}

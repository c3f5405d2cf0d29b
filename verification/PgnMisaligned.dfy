/**
 Segments the emission as written does not handle: what their operands are, and why of two
 objects that differ in one attribute at most one can come back.
 */
module PgnMisaligned {
  import opened Wrappers
  import opened Struct
  import opened PgnFields
  import opened PgnIr
  import opened PgnEmit
  import opened PgnSegment
  import opened PgnValues
  import opened PgnDecode
  import opened PgnExact
  import opened PgnRoundTrip
  import opened PgnMessage
  import opened PgnNumbers
  import opened PgnInterference

  // ---- how many operands a segment has ----

  predicate TwoSlotInteger(f: Field) { f.Scalar? && f.name.Some? && !f.isFloat && Slots(f) == 2 }

  predicate Numbers(fs: seq<Field>) { forall f :: f in fs ==> f.Number() && WellFormed(f) }

  /** Three operands for a two-slot integer, one for the other misaligned kinds. */
  function Operands(f: Field): nat
    requires f.Number()
  {
    if TwoSlotInteger(f) then 3 else if AlignedField(f, false) then Slots(f) else 1
  }

  function OperandSum(fs: seq<Field>): nat
    requires forall f :: f in fs ==> f.Number()
  {
    if fs == [] then 0 else Operands(fs[0]) + OperandSum(fs[1..])
  }

  lemma EmitFieldCount(e: Emission, f: Field, index: nat)
    requires f.Number() && WellFormed(f)
    ensures var r := EmitAttrs(e, AttrsOf(f, index), false); r.Ok? ==> |r.value.args| == |e.args| + Operands(f)
  {
    if f.BitField? {
      var subs, slots := f.subs, Slots(f);
      var attrs := AttrsOf(f, index);
      EmitFirstSub(e, subs[0], slots, |subs| == 1, index, false);
      assert attrs[0] == SubAttr(subs[0], slots, 0, |subs| == 1, index);
      assert attrs[1..] == SubAttrsFrom(subs, slots, 1, index);
      EmitSubs(EmitAttr(e, attrs[0], false).value, subs, slots, 1, index, false);
    } else {
      EmitOne(e, AttrsOf(f, index)[0], false);
    }
  }

  lemma {:induction false} EmitFieldsCount(e: Emission, fs: seq<Field>, index: nat)
    requires Numbers(fs)
    ensures var r := EmitAttrs(e, AttrsFrom(fs, index), false); r.Ok? ==> |r.value.args| == |e.args| + OperandSum(fs)
    decreases |fs|
  {
    if fs != [] {
      EmitFieldCount(e, fs[0], index);
      EmitConcat(e, AttrsOf(fs[0], index), AttrsFrom(fs[1..], index + Slots(fs[0])), false);
      var first := EmitAttrs(e, AttrsOf(fs[0], index), false);
      if first.Ok? {
        EmitFieldsCount(first.value, fs[1..], index + Slots(fs[0]));
      }
    }
  }

  lemma {:induction false} OperandsAtMost(fs: seq<Field>)
    requires Numbers(fs) && forall f :: f in fs ==> !TwoSlotInteger(f)
    ensures OperandSum(fs) <= SlotCount(fs)
    ensures (exists f :: f in fs && !AlignedField(f, false)) ==> OperandSum(fs) < SlotCount(fs)
  {
    if fs != [] {
      assert fs[0] in fs;
      OperandsAtMost(fs[1..]);
      if exists f :: f in fs && !AlignedField(f, false) {
        assert AlignedField(fs[0], false) ==> exists f :: f in fs[1..] && !AlignedField(f, false);
      }
    }
  }

  // ---- which operand an attribute is ----

  /** No attribute of the list is packed under the name x. */
  predicate Unpacked(attrs: seq<Attr>, x: string) {
    forall a :: a in attrs && a.ScalarAttr? && !a.isFloat ==> a.name != x
  }

  /** The operands from n on are not attribute x, those before are unchanged. */
  predicate GrewWithout(args: seq<Loc>, args': seq<Loc>, x: string) {
    args <= args' && forall j :: |args| <= j < |args'| ==> args'[j] != Attribute(x)
  }

  lemma {:induction false} EmitOperands(e: Emission, attrs: seq<Attr>, x: string)
    requires Unpacked(attrs, x)
    ensures var r := EmitAttrs(e, attrs, false); r.Ok? ==> GrewWithout(e.args, r.value.args, x)
    decreases |attrs|
  {
    if attrs != [] {
      assert attrs[0] in attrs;
      var first := EmitAttr(e, attrs[0], false);
      if first.Ok? {
        assert GrewWithout(e.args, first.value.args, x);
        EmitOperands(first.value, attrs[1..], x);
      }
    }
  }

  /** The attributes of fields: named after them, and inside their slots. */
  lemma {:induction false} SubAttrFacts(subs: seq<Sub>, slots: nat, i: nat, index: nat)
    requires i <= |subs|
    ensures forall a :: a in SubAttrsFrom(subs, slots, i, index) ==>
              (a.BitAttr? || a.ReservedBitAttr?) && a.index == index && a.slots == slots
              && (a.BitAttr? ==> a.name in SubNames(subs[i..]))
    decreases |subs| - i
  {
    if i < |subs| {
      SubAttrFacts(subs, slots, i + 1, index);
      assert subs[i..][1..] == subs[i + 1..];
    }
  }

  lemma FieldAttrFacts(f: Field, index: nat)
    requires f.Number()
    ensures forall a :: a in AttrsOf(f, index) ==>
              a.index == index && a.slots == Slots(f) && (a.BitAttr? || a.ScalarAttr? ==> a.name in Names(f))
  {
    if f.BitField? {
      SubAttrFacts(f.subs, Slots(f), 0, index);
      assert f.subs[0..] == f.subs;
    }
  }

  lemma {:induction false} AttrFacts(fs: seq<Field>, index: nat)
    requires forall f :: f in fs ==> f.Number()
    ensures forall a :: a in AttrsFrom(fs, index) ==>
              index <= a.index && a.index + a.slots <= index + SlotCount(fs) && a.slots >= 1
              && (a.BitAttr? || a.ScalarAttr? ==> a.name in AllNames(fs))
    decreases |fs|
  {
    if fs != [] {
      FieldAttrFacts(fs[0], index);
      AttrFacts(fs[1..], index + Slots(fs[0]));
    }
  }

  /** A group around one of its fields. */
  lemma Around(pre: seq<Field>, f: Field, post: seq<Field>)
    requires f.Number() && AllNumbers(pre) && AllNumbers(post)
    ensures AllNumbers(pre + ([f] + post))
    ensures var q := SlotCount(pre);
            && AttrsFrom(pre + ([f] + post), 0) == AttrsFrom(pre, 0) + (AttrsOf(f, q) + AttrsFrom(post, q + Slots(f)))
            && SlotCount(pre + ([f] + post)) == q + Slots(f) + SlotCount(post)
    ensures AllNames(pre + ([f] + post)) == AllNames(pre) + (Names(f) + AllNames(post))
  {
    assert ([f] + post)[1..] == post;
    assert forall g :: g in pre + ([f] + post) <==> g in pre || g == f || g in post;
    AttrsFromConcat(pre, [f] + post, 0);
    NamesConcat(pre, [f] + post);
  }

  // ---- one segment, encoded and decoded ----

  /** The segment is encoded from em with operands vals, and decoded from dm with result r. */
  ghost predicate Carries(g: seq<Field>, counter: Option<string>, em: Machine, vals: seq<int>, dm: Machine, r: Machine)
    requires AllNumbers(g)
  {
    var c := EmitAttrs(NO_EMISSION, AttrsFrom(g, 0), false);
    && c.Ok?
    && Run(c.value.out, em).Some? && ReadAll(c.value.args, Run(c.value.out, em).value) == Some(vals)
    && Pack(FormatOf(g, false), vals).Some?
    && DecodesTo(AttrsFrom(g, 0), counter, dm.(val := vals), r)
  }

  /** As many operands as slots, each in the range of its slot. */
  lemma OperandsFit(g: seq<Field>, counter: Option<string>, em: Machine, vals: seq<int>, dm: Machine, r: Machine)
    requires Numbers(g) && AllNumbers(g) && Carries(g, counter, em, vals, dm, r)
    ensures |vals| == SlotCount(g) == OperandSum(g)
    ensures forall i :: 0 <= i < |vals| ==> InRange(FormatOf(g, false)[i], vals[i])
  {
    var e := EmitAttrs(NO_EMISSION, AttrsFrom(g, 0), false).value;
    EmitFieldsCount(NO_EMISSION, g, 0);
    OperandCount(e.args, Run(e.out, em).value);
    PackSucceeds(FormatOf(g, false), vals);
  }

  /** Without a two-slot integer a misaligned segment has too few operands, whatever the object. */
  lemma TooFewOperands(g: seq<Field>, counter: Option<string>, em: Machine, vals: seq<int>, dm: Machine, r: Machine)
    requires Numbers(g) && AllNumbers(g) && (forall f :: f in g ==> !TwoSlotInteger(f))
    requires exists f :: f in g && !AlignedField(f, false)
    ensures !Carries(g, counter, em, vals, dm, r)
  {
    OperandsAtMost(g);
    if Carries(g, counter, em, vals, dm, r) {
      OperandsFit(g, counter, em, vals, dm, r);
    }
  }

  // ---- the first two-slot integer ----

  lemma OperandAmong(a: seq<Attr>, b: Attr, c: seq<Attr>, x: string, q: nat, e: Emission)
    requires b.ScalarAttr? && b.name == x && !b.isFloat && b.slots == 2
    requires Unpacked(a, x) && Unpacked(c, x)
    requires EmitAttrs(NO_EMISSION, a, false).Ok? ==> |EmitAttrs(NO_EMISSION, a, false).value.args| <= q
    requires EmitAttrs(NO_EMISSION, a + ([b] + c), false) == Ok(e)
    ensures forall j :: q < j < |e.args| ==> e.args[j] != Attribute(x)
  {
    EmitConcat(NO_EMISSION, a, [b] + c, false);
    var e1 := EmitAttrs(NO_EMISSION, a, false).value;
    EmitConcat(e1, [b], c, false);
    EmitOne(e1, b, false);
    var e2 := EmitScalar(e1, b, false);
    assert e2.args == e1.args + [Attribute(x), Var(e1.numvi), Var(e1.numvi + 1)];
    EmitOperands(NO_EMISSION, a, x);
    EmitOperands(e2, c, x);
  }

  /** Attribute x is packed once, not behind the slots of the fields before it, and read nowhere else. */
  lemma IntegerOperand(pre: seq<Field>, f: Field, post: seq<Field>, x: string, e: Emission)
    requires Numbers(pre) && Numbers(post) && f.Number() && WellFormed(f) && TwoSlotInteger(f) && f.name == Some(x)
    requires forall g :: g in pre ==> !TwoSlotInteger(g)
    requires x !in AllNames(pre) && x !in AllNames(post)
    requires AllNumbers(pre + ([f] + post)) && EmitAttrs(NO_EMISSION, AttrsFrom(pre + ([f] + post), 0), false) == Ok(e)
    ensures forall j :: SlotCount(pre) < j < |e.args| ==> e.args[j] != Attribute(x)
    ensures BlindCode(e.out, x, 0)
  {
    var q := SlotCount(pre);
    Around(pre, f, post);
    AttrFacts(pre, 0);
    AttrFacts(post, q + 2);
    var a, b, c := AttrsFrom(pre, 0), AttrsOf(f, q), AttrsFrom(post, q + 2);
    EmitFieldsCount(NO_EMISSION, pre, 0);
    OperandsAtMost(pre);
    OperandAmong(a, b[0], c, x, q, e);
    UnreadParts(a, b, c, x);
    EmitBlind(NO_EMISSION, a + (b + c), x);
  }

  lemma UnreadParts(a: seq<Attr>, b: seq<Attr>, c: seq<Attr>, x: string)
    requires Unread(a, x) && Unread(b, x) && Unread(c, x)
    ensures Unread(a + (b + c), x)
  {
    assert forall y :: y in a + (b + c) ==> y in a || y in b || y in c;
  }

  lemma DecodedAmong(all: seq<Attr>, a: seq<Attr>, b: seq<Attr>, c: seq<Attr>, counter: Option<string>, x: string,
                     m: Machine, m1: Machine, r: Machine)
    requires all == a + (b + c) && Run(DecodeAttrs(all, counter, false), m) == Some(r)
    requires Run(DecodeAttrs(a, counter, false), m).Some? ==> Run(DecodeAttrs(a, counter, false), m).value == m1
    requires forall y :: y in c && (y.BitAttr? || y.ScalarAttr?) ==> y.name != x
    ensures m1.val == m.val && Run(DecodeAttrs(a, counter, false), m) == Some(m1)
            && Run(DecodeAttrs(b, counter, false), m1).Some?
    ensures var m2 := Run(DecodeAttrs(b, counter, false), m1).value;
            (x in r.obj <==> x in m2.obj) && (x in m2.obj ==> r.obj[x] == m2.obj[x])
  {
    DecodeConcat(a, b + c, counter, false);
    DecodeConcat(b, c, counter, false);
    RunConcat(DecodeAttrs(a, counter, false), DecodeAttrs(b + c, counter, false), m);
    RunKeepsSlots(DecodeAttrs(a, counter, false), m);
    RunConcat(DecodeAttrs(b, counter, false), DecodeAttrs(c, counter, false), m1);
    DecodeSetsNames(c, counter, x);
    RunKeeps(DecodeAttrs(c, counter, false), Run(DecodeAttrs(b, counter, false), m1).value, x);
  }

  function AfterRun(ss: seq<Stmt>, m: Machine): Machine {
    match Run(ss, m) case Some(m') => m' case None => m
  }

  /** The attributes of a segment around one of its fields, those behind it not named x. */
  lemma AttrsAround(pre: seq<Field>, f: Field, post: seq<Field>, x: string) returns (a: seq<Attr>, c: seq<Attr>)
    requires f.Number() && AllNumbers(pre) && AllNumbers(post) && AllNumbers(pre + ([f] + post)) && x !in AllNames(post)
    ensures a == AttrsFrom(pre, 0)
    ensures AttrsFrom(pre + ([f] + post), 0) == a + (AttrsOf(f, SlotCount(pre)) + c)
    ensures forall y :: y in c && (y.BitAttr? || y.ScalarAttr?) ==> y.name != x
  {
    var q := SlotCount(pre);
    a, c := AttrsFrom(pre, 0), AttrsFrom(post, q + Slots(f));
    Around(pre, f, post);
    AttrFacts(post, q + Slots(f));
  }

  /** Decoding the segment sets x from the two slots of f. */
  lemma DecodedFrom(all: seq<Attr>, a: seq<Attr>, f: Field, q: nat, c: seq<Attr>, x: string, counter: Option<string>,
                    m: Machine, r: Machine)
    requires f.Number() && TwoSlotInteger(f) && f.name == Some(x) && counter != Some(x) && q + 2 <= |m.val|
    requires all == a + (AttrsOf(f, q) + c) && DecodesTo(all, counter, m, r)
    requires forall y :: y in c && (y.BitAttr? || y.ScalarAttr?) ==> y.name != x
    ensures x in r.obj && r.obj[x] == Int(m.val[q] + m.val[q + 1] * 65536)
  {
    var m1 := AfterRun(DecodeAttrs(a, counter, false), m);
    DecodedAmong(all, a, AttrsOf(f, q), c, counter, x, m, m1, r);
    ScalarDecoded(f, x, q, counter, m1);
  }

  lemma ScalarDecoded(f: Field, x: string, q: nat, counter: Option<string>, m: Machine)
    requires f.Number() && TwoSlotInteger(f) && f.name == Some(x) && counter != Some(x) && q + 2 <= |m.val|
    ensures var r := Run(DecodeAttrs(AttrsOf(f, q), counter, false), m);
            r.Some? && x in r.value.obj && r.value.obj[x] == Int(m.val[q] + m.val[q + 1] * 65536)
  {
    var m' := RunDecodeScalar(f, x, q, counter, false, m);
    assert ScalarConversion(f, counter) == Plain;
    assert Joined(f, m.val[q..]) == m.val[q] + m.val[q + 1] * 65536;
  }

  /** Two slots of a three-byte field that make 0 and 65536 differ in the high slot. */
  lemma HighSlotsDiffer(low0: int, high0: int, low1: int, high1: int, signed: bool)
    requires InRange(Code(2, signed), low0) && InRange(Code(2, signed), low1)
    requires low0 + high0 * 65536 == 0 && low1 + high1 * 65536 == 65536
    ensures high0 != high1
  {
    ThreeBytes();
  }

  lemma SlotFormat(pre: seq<Field>, f: Field, post: seq<Field>)
    requires AllNumbers(pre) && AllNumbers(post) && f.Number() && AllNumbers(pre + ([f] + post)) && Slots(f) == 2
    ensures |FormatOf(pre + ([f] + post), false)| > SlotCount(pre) + 1
    ensures FormatOf(pre + ([f] + post), false)[SlotCount(pre)] == Code(2, Signed(f))
  {
    FormatConcat(pre, [f] + post);
    assert ([f] + post)[1..] == post;
    assert FormatOf([f] + post, false) == Format(f, false) + FormatOf(post, false);
  }

  lemma {:induction false} FormatConcat(a: seq<Field>, b: seq<Field>)
    requires AllNumbers(a) && AllNumbers(b)
    ensures AllNumbers(a + b) && FormatOf(a + b, false) == FormatOf(a, false) + FormatOf(b, false)
    decreases |a|
  {
    if a == [] {
      assert a + b == b;
    } else {
      assert (a + b)[1..] == a[1..] + b;
      FormatConcat(a[1..], b);
    }
  }

  /**
   Of two objects that differ in a two-slot integer, 0 in one and 65536 in the other, at
   most one comes back: the high slot of the integer holds an operand that is not the
   attribute, and is the same for both.
   */
  lemma IntegerNeverBoth(pre: seq<Field>, f: Field, post: seq<Field>, x: string, counter: Option<string>,
                         em0: Machine, em1: Machine, v0: seq<int>, v1: seq<int>, dm: Machine, r0: Machine, r1: Machine)
    requires Numbers(pre) && Numbers(post) && f.Number() && WellFormed(f) && TwoSlotInteger(f) && f.name == Some(x)
             && counter != Some(x)
    requires forall g :: g in pre ==> !TwoSlotInteger(g)
    requires x !in AllNames(pre) && x !in AllNames(post) && AllNumbers(pre + ([f] + post))
    requires Agree(em0, em1, x, 0)
    requires Carries(pre + ([f] + post), counter, em0, v0, dm, r0)
             && Carries(pre + ([f] + post), counter, em1, v1, dm, r1)
    ensures x in r0.obj && x in r1.obj && !(r0.obj[x] == Int(0) && r1.obj[x] == Int(65536))
  {
    var g, q := pre + ([f] + post), SlotCount(pre);
    var e := EmitAttrs(NO_EMISSION, AttrsFrom(g, 0), false).value;
    Around(pre, f, post);
    assert Numbers(g);
    IntegerOperand(pre, f, post, x, e);
    OperandsFit(g, counter, em0, v0, dm, r0);
    OperandsFit(g, counter, em1, v1, dm, r1);
    RunAgree(e.out, em0, em1, x, 0);
    OperandCount(e.args, Run(e.out, em0).value);
    OperandsAgree(e.args, Run(e.out, em0).value, Run(e.out, em1).value, x, 0, q + 1);
    var a, c := AttrsAround(pre, f, post, x);
    DecodedFrom(AttrsFrom(g, 0), a, f, q, c, x, counter, dm.(val := v0), r0);
    DecodedFrom(AttrsFrom(g, 0), a, f, q, c, x, counter, dm.(val := v1), r1);
    SlotFormat(pre, f, post);
    if r0.obj[x] == Int(0) && r1.obj[x] == Int(65536) {
      HighSlotsDiffer(v0[q], v0[q + 1], v1[q], v1[q + 1], Signed(f));
    }
  }

  // ---- a two-slot bit-field that is not joined ----

  predicate Aligned(fs: seq<Field>) { forall f :: f in fs ==> f.Number() && WellFormed(f) && AlignedField(f, false) }

  /** Slot values of fields that do not name x. */
  lemma {:induction false} PrefixWordSame(subs: seq<Sub>, i: nat, o0: Object, o1: Object, x: string)
    requires i <= |subs| && SameBut(o0, o1, x) && forall s :: s in subs ==> s.name != Some(x)
    ensures PrefixWord(subs, i, o0) == PrefixWord(subs, i, o1)
  {
    if i > 0 {
      assert subs[i - 1] in subs;
      PrefixWordSame(subs, i - 1, o0, o1, x);
    }
  }

  lemma {:induction false} NamedSubs(subs: seq<Sub>, x: string)
    requires x !in SubNames(subs)
    ensures forall s :: s in subs ==> s.name != Some(x)
  {
    if subs != [] {
      NamedSubs(subs[1..], x);
    }
  }

  lemma RawSame(f: Field, o0: Object, o1: Object, x: string)
    requires f.Number() && Typed(f, o0) && Typed(f, o1) && SameBut(o0, o1, x) && x !in Names(f)
    ensures Raw(f, o0) == Raw(f, o1) && SlotVals(f, o0, false) == SlotVals(f, o1, false)
  {
    if f.BitField? {
      NamedSubs(f.subs, x);
      PrefixWordSame(f.subs, |f.subs|, o0, o1, x);
    }
  }

  lemma {:induction false} SlotValsSame(fs: seq<Field>, o0: Object, o1: Object, x: string)
    requires AllNumbers(fs) && AllTyped(fs, o0) && AllTyped(fs, o1) && SameBut(o0, o1, x) && x !in AllNames(fs)
    ensures AllSlotVals(fs, o0, false) == AllSlotVals(fs, o1, false)
    decreases |fs|
  {
    if fs != [] {
      RawSame(fs[0], o0, o1, x);
      SlotValsSame(fs[1..], o0, o1, x);
    }
  }

  /** The operands of an aligned segment are the slot values of its fields. */
  lemma AlignedOperands(g: seq<Field>, counter: Option<string>, em: Machine, vals: seq<int>, dm: Machine, r: Machine)
    requires Aligned(g) && AllNumbers(g) && AllTyped(g, em.obj) && Carries(g, counter, em, vals, dm, r)
    ensures vals == AllSlotVals(g, em.obj, false)
  {
    EmitAlignedFields(NO_EMISSION, g, false);
    var code := FieldsCode(g, 0, Unset, false);
    assert [] + code.out == code.out && [] + code.args == code.args;
    var m' := RunFields(g, 0, Unset, false, em);
  }

  lemma SlotsBefore(pre: seq<Field>, rest: seq<Field>, o0: Object, o1: Object, x: string)
    requires AllNumbers(pre) && AllNumbers(rest) && AllNumbers(pre + rest) && SameBut(o0, o1, x) && x !in AllNames(pre)
    requires AllTyped(pre, o0) && AllTyped(rest, o0) && AllTyped(pre + rest, o0)
    requires AllTyped(pre, o1) && AllTyped(rest, o1) && AllTyped(pre + rest, o1)
    ensures var v0, v1 := AllSlotVals(pre + rest, o0, false), AllSlotVals(pre + rest, o1, false);
            |v0| == |v1| && forall j :: 0 <= j < |v0| && j < SlotCount(pre) ==> v0[j] == v1[j]
  {
    SlotValsConcat(pre, rest, o0, false);
    SlotValsConcat(pre, rest, o1, false);
    SlotValsSame(pre, o0, o1, x);
  }

  /** What an unjoined bit-field makes of x, if it does not raise. */
  lemma UnjoinedSub(f: Field, i: nat, x: string, q: nat, counter: Option<string>, m: Machine)
    requires f.BitField? && WellFormed(f) && !DecodeReady(f, false) && Distinct(Names(f))
    requires i < |f.subs| && f.subs[i].name == Some(x)
    requires Run(DecodeAttrs(AttrsOf(f, q), counter, false), m).Some?
    ensures Word in m.env
    ensures var o := Run(DecodeAttrs(AttrsOf(f, q), counter, false), m).value.obj;
            x in o && o[x] == Int(SubValue(f.subs[i], m.env[Word]))
  {
    ReservedFirstNeverJoins(f, q, counter, m);
    assert f.subs[0..] == f.subs;
    SetSubsValues(f.subs, 0, m.env[Word], m.obj);
  }

  lemma UnjoinedAmong(all: seq<Attr>, a: seq<Attr>, f: Field, i: nat, q: nat, c: seq<Attr>, x: string,
                      counter: Option<string>, m0: Machine, m1: Machine, r0: Machine, r1: Machine)
    requires f.BitField? && WellFormed(f) && !DecodeReady(f, false) && Distinct(Names(f))
    requires i < |f.subs| && f.subs[i].name == Some(x)
    requires all == a + (AttrsOf(f, q) + c) && DecodesTo(all, counter, m0, r0) && DecodesTo(all, counter, m1, r1)
    requires forall y :: y in a ==> y.index + y.slots <= q && y.slots >= 1
    requires forall y :: y in c && (y.BitAttr? || y.ScalarAttr?) ==> y.name != x
    requires Agree(m0, m1, x, q)
    ensures x in r0.obj && x in r1.obj && r0.obj[x] == r1.obj[x]
  {
    var n0, n1 := AfterRun(DecodeAttrs(a, counter, false), m0), AfterRun(DecodeAttrs(a, counter, false), m1);
    DecodedAmong(all, a, AttrsOf(f, q), c, counter, x, m0, n0, r0);
    DecodedAmong(all, a, AttrsOf(f, q), c, counter, x, m1, n1, r1);
    DecodeBlind(a, counter, x, q);
    RunAgree(DecodeAttrs(a, counter, false), m0, m1, x, q);
    UnjoinedSub(f, i, x, q, counter, n0);
    UnjoinedSub(f, i, x, q, counter, n1);
  }

  /**
   Of two objects that differ in a sub-field of a bit-field that is not joined at most one
   comes back: the word it is taken from, if any, is that of an earlier field.
   */
  lemma UnjoinedNeverBoth(pre: seq<Field>, f: Field, i: nat, post: seq<Field>, x: string, counter: Option<string>,
                          em0: Machine, em1: Machine, v0: seq<int>, v1: seq<int>, dm: Machine, r0: Machine, r1: Machine)
    requires var g := pre + ([f] + post); AllNumbers(g) && Aligned(g) && AllTyped(g, em0.obj) && AllTyped(g, em1.obj)
    requires f.BitField? && WellFormed(f) && !DecodeReady(f, false) && Distinct(Names(f))
    requires i < |f.subs| && f.subs[i].name == Some(x) && x !in AllNames(pre) && x !in AllNames(post)
    requires Agree(em0, em1, x, 0)
    requires Carries(pre + ([f] + post), counter, em0, v0, dm, r0)
             && Carries(pre + ([f] + post), counter, em1, v1, dm, r1)
    ensures x in r0.obj && x in r1.obj && r0.obj[x] == r1.obj[x]
  {
    var rest, q := [f] + post, SlotCount(pre);
    var g := pre + rest;
    assert forall h :: h in g <==> h in pre || h in rest;
    assert (forall h :: h in pre ==> h in g) && (forall h :: h in rest ==> h in g)
        && forall h :: h in post ==> h in rest;
    AlignedOperands(g, counter, em0, v0, dm, r0);
    AlignedOperands(g, counter, em1, v1, dm, r1);
    SlotsBefore(pre, rest, em0.obj, em1.obj, x);
    var a, c := AttrsAround(pre, f, post, x);
    AttrFacts(pre, 0);
    UnjoinedAmong(AttrsFrom(g, 0), a, f, i, q, c, x, counter, dm.(val := v0), dm.(val := v1), r0, r1);
  }
}

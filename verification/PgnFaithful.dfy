/**
 Which fields the emission as written carries like the corrected one would, and how an
 object in range is made and changed.
 */
module PgnFaithful {
  import opened Bits
  import opened Wrappers
  import opened PgnFields
  import opened PgnIr
  import opened PgnValues
  import opened PgnDecode
  import opened PgnExact
  import opened PgnRoundTrip
  import opened PgnMessage
  import opened PgnFrames

  /**
   The fields whose whole range survives: every string and one-slot number, and of the
   three-byte fields the unsigned floats, and the bit-fields of more than one sub-field
   that begin with a named one, if there is any, and have no name above bit 15.
   */
  predicate Faithful(f: Field) {
    f.Number() && Slots(f) == 2 ==>
      match f
      case BitField(subs) =>
        && |subs| >= 2 && DecodeReady(f, false)
        && forall s :: s in subs && s.name.Some? ==> s.offset + s.width <= 16
      case Scalar(name, _, signed, isFloat) => name.Some? && isFloat && !signed
  }

  predicate AllFaithful(fs: seq<Field>) { forall f :: f in fs ==> Faithful(f) }

  // ---- the range of a list, field by field ----

  lemma {:induction false} InRangeFieldwise(fs: seq<Field>, o: Object, counter: Option<string>, corrected: bool)
    requires SupportedFields(fs, corrected) && AllTyped(fs, o)
    ensures MessageExact(fs, o, counter, corrected) <==> forall f :: f in fs ==> FieldExact(f, o, counter, corrected)
    decreases |fs|
  {
    if fs != [] {
      assert fs[0] in fs;
      InRangeFieldwise(fs[1..], o, counter, corrected);
    }
  }

  lemma SubFits(s: Sub, x: int)
    requires SubExact(s, true, x, true) && s.offset + s.width <= 16
    ensures SubExact(s, true, x, false)
  {
    Pow2Add(s.width, s.offset);
    Pow2Monotone(s.offset + s.width, 16);
    FitsBelow(x, Pow2(s.offset), Pow2(s.width));
    assert Pow2(16) == 65536 by { ThreeBytes(); }
  }

  /** Faithful: supported, and in range as emitted when in range at all. */
  lemma FaithfulCarries(f: Field, o: Object, counter: Option<string>)
    requires SupportedField(f, true) && Faithful(f) && Typed(f, o)
    ensures SupportedField(f, false)
    ensures FieldExact(f, o, counter, true) ==> FieldExact(f, o, counter, false)
  {
    if f.BitField? && Slots(f) == 2 && FieldExact(f, o, counter, true) {
      forall s | s in f.subs && s.name.Some? ensures SubExact(s, true, o[s.name.value].i, false) {
        SubFits(s, o[s.name.value].i);
      }
    }
  }

  lemma FaithfulSupported(fs: seq<Field>)
    requires SupportedFields(fs, true) && AllFaithful(fs)
    ensures SupportedFields(fs, false)
  {
    forall f | f in fs ensures SupportedField(f, false) {
      assert SupportedField(f, true) && Faithful(f);
    }
  }

  lemma FaithfulListCarries(fs: seq<Field>, o: Object, counter: Option<string>)
    requires SupportedFields(fs, true) && AllFaithful(fs) && AllTyped(fs, o) && MessageExact(fs, o, counter, true)
    ensures SupportedFields(fs, false) && MessageExact(fs, o, counter, false)
  {
    InRangeFieldwise(fs, o, counter, true);
    FaithfulSupported(fs);
    forall f | f in fs ensures FieldExact(f, o, counter, false) {
      FaithfulCarries(f, o, counter);
    }
    InRangeFieldwise(fs, o, counter, false);
  }

  // ---- changing one attribute ----

  lemma {:induction false} SubNamed(subs: seq<Sub>, s: Sub)
    requires s in subs && s.name.Some?
    ensures s.name.value in SubNames(subs)
  {
    if subs[0] != s {
      SubNamed(subs[1..], s);
    }
  }

  /** The range of a field is about its own attributes. */
  lemma OtherFieldSame(f: Field, o: Object, o': Object, counter: Option<string>, corrected: bool)
    requires SupportedField(f, corrected) && Typed(f, o) && FieldExact(f, o, counter, corrected)
    requires forall x :: x in Names(f) ==> SameAt(o, o', x)
    ensures Typed(f, o') && FieldExact(f, o', counter, corrected)
  {
    if f.BitField? {
      forall s | s in f.subs && s.name.Some? ensures SameAt(o, o', s.name.value) {
        SubNamed(f.subs, s);
      }
    } else if f.name.Some? {
      assert f.name.value in Names(f);
    }
  }

  lemma {:induction false} NameUnique(fs: seq<Field>, f: Field, g: Field, x: string)
    requires Distinct(AllNames(fs)) && f in fs && g in fs && x in Names(f) && x in Names(g)
    ensures f == g
  {
    DistinctParts(Names(fs[0]), AllNames(fs[1..]));
    if f != fs[0] && g != fs[0] {
      NameUnique(fs[1..], f, g, x);
    } else if f != fs[0] {
      NameAmong(fs[1..], f, x);
    } else if g != fs[0] {
      NameAmong(fs[1..], g, x);
    }
  }

  lemma {:induction false} NameAmong(fs: seq<Field>, f: Field, x: string)
    requires f in fs && x in Names(f)
    ensures x in AllNames(fs)
  {
    if f != fs[0] {
      NameAmong(fs[1..], f, x);
    }
  }

  /** A new value in the range of its field leaves the object in range. */
  lemma ChangedInRange(fs: seq<Field>, f: Field, x: string, v: Value, o: Object, counter: Option<string>)
    requires SupportedFields(fs, true) && Distinct(AllNames(fs)) && f in fs && x in Names(f)
    requires AllTyped(fs, o) && MessageExact(fs, o, counter, true)
    requires Typed(f, o[x := v]) && FieldExact(f, o[x := v], counter, true)
    ensures AllTyped(fs, o[x := v]) && MessageExact(fs, o[x := v], counter, true)
  {
    InRangeFieldwise(fs, o, counter, true);
    forall g | g in fs ensures Typed(g, o[x := v]) && FieldExact(g, o[x := v], counter, true) {
      if x in Names(g) {
        NameUnique(fs, f, g, x);
      } else {
        OtherFieldSame(g, o, o[x := v], counter, true);
      }
    }
    InRangeFieldwise(fs, o[x := v], counter, true);
  }

  /** 0 and 65536 are in the range of a three-byte integer, 0 and 1 in that of any sub-field. */
  lemma SmallInRange(f: Field, x: string, v: nat, o: Object, counter: Option<string>)
    requires SupportedField(f, true) && f.Number() && Slots(f) == 2 && x in Names(f) && counter != Some(x)
    requires if f.Scalar? then !f.isFloat && v <= 65536 else v <= 1
    requires Typed(f, o) && FieldExact(f, o, counter, true)
    ensures Typed(f, o[x := Int(v)]) && FieldExact(f, o[x := Int(v)], counter, true)
  {
    ThreeBytes();
    if f.BitField? {
      forall s | s in f.subs && s.name.Some? ensures SubExact(s, true, o[x := Int(v)][s.name.value].i, true) {
        Pow2Monotone(1, s.width);
        assert Pow2(1) == 2;
      }
    }
  }

  // ---- an object in range ----

  function SampleValue(f: Field): Value {
    match f
    case BitField(_) => Int(0)
    case Scalar(_, bits, signed, isFloat) =>
      if !isFloat then Int(0) else if ScalarInvalid(bits, signed) == 0 then NaN else Float(0)
    case _ => Str([])
  }

  function Assigned(names: seq<string>, v: Value, o: Object): Object {
    if names == [] then o else Assigned(names[1..], v, o)[names[0] := v]
  }

  lemma {:induction false} AssignedIs(names: seq<string>, v: Value, o: Object)
    ensures forall x :: x in names ==> x in Assigned(names, v, o) && Assigned(names, v, o)[x] == v
    ensures forall x :: x !in names ==> SameAt(o, Assigned(names, v, o), x)
  {
    if names != [] {
      AssignedIs(names[1..], v, o);
      forall x | x !in names ensures SameAt(o, Assigned(names, v, o), x) {
        assert SameAt(o, Assigned(names[1..], v, o), x);
      }
    }
  }

  /** Zero everywhere, and no text. */
  function Sample(fs: seq<Field>): Object {
    if fs == [] then map[] else Assigned(Names(fs[0]), SampleValue(fs[0]), Sample(fs[1..]))
  }

  lemma SampleField(f: Field, o: Object)
    requires SupportedField(f, true)
    ensures var o' := Assigned(Names(f), SampleValue(f), o); Typed(f, o') && FieldExact(f, o', None, true)
  {
    AssignedIs(Names(f), SampleValue(f), o);
    if f.BitField? {
      forall s | s in f.subs && s.name.Some? ensures s.name.value in Names(f) {
        SubNamed(f.subs, s);
      }
    } else if f.name.Some? {
      assert f.name.value in Names(f);
    }
  }

  lemma {:induction false} SampleInRange(fs: seq<Field>)
    requires SupportedFields(fs, true) && Distinct(AllNames(fs))
    ensures AllTyped(fs, Sample(fs)) && MessageExact(fs, Sample(fs), None, true)
    decreases |fs|
  {
    if fs != [] {
      var f, rest := fs[0], fs[1..];
      var o := Sample(fs);
      DistinctParts(Names(f), AllNames(rest));
      SampleInRange(rest);
      SampleField(f, Sample(rest));
      AssignedIs(Names(f), SampleValue(f), Sample(rest));
      InRangeFieldwise(rest, Sample(rest), None, true);
      forall g | g in rest ensures Typed(g, o) && FieldExact(g, o, None, true) {
        forall x | x in Names(g) ensures x !in Names(f) {
          NameAmong(rest, g, x);
        }
        OtherFieldSame(g, Sample(rest), o, None, true);
      }
      InRangeFieldwise(rest, o, None, true);
    }
  }

  // ---- a value out of the range as emitted ----

  lemma TopOfSub(s: Sub)
    requires s.width > 0 && s.offset + s.width > 16
    ensures SubExact(s, true, Pow2(s.width) - 1, true) && !SubExact(s, true, Pow2(s.width) - 1, false)
  {
    Pow2Add(s.width - 1, s.offset);
    Pow2Monotone(16, s.width - 1 + s.offset);
    assert Pow2(16) == 65536 by { ThreeBytes(); }
    MulMonotone(Pow2(s.width - 1), Pow2(s.width) - 1, Pow2(s.offset));
  }

  lemma {:induction false} SubUnique(subs: seq<Sub>, s: Sub, s': Sub)
    requires Distinct(SubNames(subs)) && s in subs && s' in subs && s.name.Some? && s'.name == s.name
    ensures s == s'
  {
    var first := if subs[0].name.Some? then [subs[0].name.value] else [];
    DistinctParts(first, SubNames(subs[1..]));
    if s != subs[0] && s' != subs[0] {
      SubUnique(subs[1..], s, s');
    } else if s != subs[0] {
      SubNamed(subs[1..], s);
    } else if s' != subs[0] {
      SubNamed(subs[1..], s');
    }
  }

  /** The top value of a sub-field that reaches above bit 15. */
  lemma UnfaithfulSub(f: Field, s: Sub, o: Object, counter: Option<string>)
    requires SupportedField(f, true) && SupportedField(f, false) && f.BitField? && Slots(f) == 2 && Distinct(Names(f))
    requires Typed(f, o) && FieldExact(f, o, counter, true)
    requires s in f.subs && s.name.Some? && s.offset + s.width > 16
    ensures s.name.value in Names(f)
    ensures var o' := o[s.name.value := Int(Pow2(s.width) - 1)];
            Typed(f, o') && FieldExact(f, o', counter, true) && !FieldExact(f, o', counter, false)
  {
    var o' := o[s.name.value := Int(Pow2(s.width) - 1)];
    SubNamed(f.subs, s);
    TopOfSub(s);
    forall s' | s' in f.subs && s'.name.Some?
      ensures HasInt(s'.name.value, o') && SubExact(s', true, o'[s'.name.value].i, true)
    {
      if s'.name == s.name {
        SubUnique(f.subs, s, s');
      }
    }
  }

  /** A raw value whose low half struct takes for a negative number. */
  lemma UnfaithfulFloat(f: Field, o: Object, counter: Option<string>)
    requires SupportedField(f, true) && f.Scalar? && Slots(f) == 2 && f.name.Some? && f.isFloat && f.signed
    requires counter != Some(f.name.value)
    ensures var o' := o[f.name.value := Float(0x8000)];
            Typed(f, o') && FieldExact(f, o', counter, true)
                && (SupportedField(f, false) ==> !FieldExact(f, o', counter, false))
  {
    ThreeBytes();
    SignedInvalidIsOdd(f.bits);
  }

  lemma SubAbove(subs: seq<Sub>) returns (s: Sub)
    requires exists s :: s in subs && s.name.Some? && s.offset + s.width > 16
    ensures s in subs && s.name.Some? && s.offset + s.width > 16
  {
    s :| s in subs && s.name.Some? && s.offset + s.width > 16;
  }

  /** A field that is supported but not faithful has a value that is in range but not as emitted. */
  lemma Unfaithful(f: Field, o: Object, counter: Option<string>) returns (x: string, v: Value)
    requires SupportedField(f, true) && SupportedField(f, false) && !Faithful(f) && Distinct(Names(f))
    requires Typed(f, o) && FieldExact(f, o, counter, true) && (counter.Some? ==> counter.value !in Names(f))
    ensures f.Number() && Slots(f) == 2 && x in Names(f) && !v.Str?
    ensures Typed(f, o[x := v]) && FieldExact(f, o[x := v], counter, true) && !FieldExact(f, o[x := v], counter, false)
  {
    if f.Scalar? {
      x, v := f.name.value, Float(0x8000);
      assert Names(f) == [x];
      UnfaithfulFloat(f, o, counter);
    } else {
      var s := SubAbove(f.subs);
      x, v := s.name.value, Int(Pow2(s.width) - 1);
      UnfaithfulSub(f, s, o, counter);
    }
  }

  lemma SignedInvalidIsOdd(bits: nat)
    requires 17 <= bits <= 24
    ensures ScalarInvalid(bits, true) != 0x8000
  {
    SignedInvalidLowHalf(bits);
  }
}

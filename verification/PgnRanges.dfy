/**
 The ranges of the field kinds the shipped definitions are made of, and how a list of
 fields is taken apart one by one.
 */
module PgnRanges {
  import opened Bits
  import opened Wrappers
  import opened PgnFields
  import opened PgnIr
  import opened PgnValues
  import opened PgnRoundTrip
  import opened PgnMessage

  // ---- fields ----

  function Unsigned(name: string, bytes: nat): Field { Scalar(Some(name), 8 * bytes, false, false) }

  function Signed32(name: string): Field { Scalar(Some(name), 32, true, false) }

  function UnsignedFloat(name: string): Field { Scalar(Some(name), 16, false, true) }

  function SignedFloat(name: string): Field { Scalar(Some(name), 32, true, true) }

  const RESERVED := Scalar(None, 8, false, false)

  // ---- values ----

  predicate U8(x: int) { 0 <= x < 0x100 }

  predicate U16(x: int) { 0 <= x < 0x10000 }

  predicate S32(x: int) { -0x8000_0000 <= x < 0x8000_0000 }

  /** A scaled number in raw units, of which the largest one reads as not available. */
  predicate Raw16(v: Value) { v.NaN? || (v.Float? && 0 <= v.raw < 0xffff) }

  /** A signed one; -1 reads as not available as well. */
  predicate Raw32(v: Value) { v.NaN? || (v.Float? && -0x8000_0000 <= v.raw < 0x7fff_ffff && v.raw != -1) }

  // ---- one field ----

  lemma UnsignedExact(name: string, bytes: nat, o: Object, counter: Option<string>, corrected: bool)
    requires HasInt(name, o) && (bytes == 1 || bytes == 2)
    ensures SupportedField(Unsigned(name, bytes), corrected) && Typed(Unsigned(name, bytes), o)
    ensures var x, top := o[name].i, if bytes == 1 then 0x100 else 0x10000;
            FieldExact(Unsigned(name, bytes), o, counter, corrected)
            <==> 0 <= x < top && (counter == Some(name) ==> x != top - 1)
  {
    Powers();
  }

  lemma Signed32Exact(name: string, o: Object, corrected: bool)
    requires HasInt(name, o)
    ensures SupportedField(Signed32(name), corrected) && Typed(Signed32(name), o)
    ensures FieldExact(Signed32(name), o, None, corrected) <==> S32(o[name].i)
  {
    Powers();
  }

  lemma UnsignedFloatExact(name: string, o: Object, corrected: bool)
    requires HasFloat(name, o)
    ensures SupportedField(UnsignedFloat(name), corrected) && Typed(UnsignedFloat(name), o)
    ensures FieldExact(UnsignedFloat(name), o, None, corrected) <==> Raw16(o[name])
  {
    Powers();
  }

  lemma SignedFloatExact(name: string, o: Object, counter: Option<string>, corrected: bool)
    requires HasFloat(name, o) && counter != Some(name)
    ensures SupportedField(SignedFloat(name), corrected) && Typed(SignedFloat(name), o)
    ensures FieldExact(SignedFloat(name), o, counter, corrected) <==> Raw32(o[name])
  {
    Powers();
  }

  lemma ReservedExact(o: Object, counter: Option<string>, corrected: bool)
    ensures SupportedField(RESERVED, corrected) && Typed(RESERVED, o) && FieldExact(RESERVED, o, counter, corrected)
  {
  }

  // ---- lists ----

  lemma NamesCons(f: Field, rest: seq<Field>)
    ensures AllNames([f] + rest) == Names(f) + AllNames(rest)
  {
    assert ([f] + rest)[1..] == rest;
  }

  lemma ExactCons(f: Field, rest: seq<Field>, o: Object, counter: Option<string>, corrected: bool)
    requires SupportedField(f, corrected) && SupportedFields(rest, corrected) && Typed(f, o) && AllTyped(rest, o)
    ensures SupportedFields([f] + rest, corrected) && AllTyped([f] + rest, o)
    ensures MessageExact([f] + rest, o, counter, corrected)
       <==> FieldExact(f, o, counter, corrected) && MessageExact(rest, o, counter, corrected)
  {
    assert ([f] + rest)[1..] == rest;
  }

  /** A name in front of names it is not among. */
  lemma DistinctCons(x: string, names: seq<string>)
    requires x !in names && Distinct(names)
    ensures Distinct([x] + names)
  {
    assert forall i :: 0 < i < |names| + 1 ==> ([x] + names)[i] == names[i - 1];
  }

  // ---- bit-fields ----

  lemma TwoSubs(a: Sub, b: Sub)
    ensures BitLength([a, b]) == a.width + b.width && BitLength([a]) == a.width
    ensures a.offset == 0 && b.offset == a.width ==> Contiguous([a, b])
    ensures SubNames([a, b]) == SubNames([a]) + SubNames([b])
  {
    var subs := [a, b];
    assert [a][..0] == [] && BitLength([a]) == a.width;
    assert subs[..0] == [] && subs[..1] == [a] && BitLength(subs) == BitLength([a]) + b.width;
    assert [a][1..] == [] && [b][1..] == [] && subs[1..] == [b];
  }

  lemma ThreeSubs(a: Sub, b: Sub, c: Sub)
    ensures BitLength([a, b, c]) == a.width + b.width + c.width
    ensures a.offset == 0 && b.offset == a.width && c.offset == a.width + b.width ==> Contiguous([a, b, c])
    ensures SubNames([a, b, c]) == SubNames([a]) + SubNames([b]) + SubNames([c])
  {
    TwoSubs(a, b);
    TwoSubs(b, c);
    var subs := [a, b, c];
    assert [a][..0] == [] && subs[..0] == [] && subs[..1] == [a] && subs[..2] == [a, b];
    assert subs[1..] == [b, c] && [a][1..] == [];
  }
}

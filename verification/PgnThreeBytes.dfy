/**
 PGN 127751, DC Voltage/Current, and PGN 130316, Temperature Extended Range: messages with
 a 24-bit number in two struct slots, signed in one and unsigned in the other, compiled
 and run.
 */
module PgnThreeBytes {
  import opened Bits
  import opened Wrappers
  import opened Struct
  import opened PgnFields
  import opened PgnIr
  import opened PgnEmit
  import opened PgnSegment
  import opened PgnValues
  import opened PgnExact
  import opened PgnRoundTrip
  import opened PgnMessage
  import opened PgnCompiler
  import opened PgnNumbers
  import opened PgnRanges

  const CURRENT := Scalar(Some("current"), 24, true, true)
  const TEMPERATURE := Scalar(Some("actual_temperature"), 24, false, true)

  const DC: seq<Field> := [Unsigned("sequence_id", 1), Unsigned("connection_number", 1), UnsignedFloat("voltage"),
                           CURRENT, RESERVED]
  const DC_NAMES: seq<string> := ["sequence_id", "connection_number", "voltage", "current"]

  const EXTENDED: seq<Field> := [Unsigned("sequence_id", 1), Unsigned("temperature_instance", 1),
                                 Unsigned("temperature_source", 1), TEMPERATURE, UnsignedFloat("set_temperature")]
  const EXTENDED_NAMES: seq<string> := ["sequence_id", "temperature_instance", "temperature_source",
                                        "actual_temperature", "set_temperature"]

  // ---- the shipped code ----

  lemma Invalids()
    ensures ScalarInvalid(16, false) == 0xffff && ScalarInvalid(24, true) == 0x7fffff
            && ScalarInvalid(24, false) == 0xffffff
    ensures ScalarInvalid(8, false) == 0xff
  {
    Powers();
    ThreeBytes();
  }

  /** The code of a list whose first field and whose rest are known. */
  lemma CodeCons(f: Field, rest: seq<Field>, n: nat, valVar: Loc, code: Emission, more: Emission)
    requires f.Number() && WellFormed(f) && forall g :: g in rest ==> g.Number() && WellFormed(g)
    requires FieldCode(f, n, valVar, false) == code && FieldsCode(rest, code.numvi, code.valVar, false) == more
    ensures forall g :: g in [f] + rest ==> g.Number() && WellFormed(g)
    ensures FormatOf([f] + rest, false) == Format(f, false) + FormatOf(rest, false)
    ensures FieldsCode([f] + rest, n, valVar, false) == Append(code, more)
  {
    assert ([f] + rest)[1..] == rest;
  }

  lemma UnsignedCode(name: string, n: nat, valVar: Loc)
    ensures WellFormed(Unsigned(name, 1)) && Format(Unsigned(name, 1), false) == [Code(1, false)]
    ensures FieldCode(Unsigned(name, 1), n, valVar, false) == Emission([], [Attribute(name)], n, valVar)
  {
  }

  lemma FloatCode(name: string, n: nat, valVar: Loc)
    ensures WellFormed(UnsignedFloat(name)) && Format(UnsignedFloat(name), false) == [Code(2, false)]
    ensures FieldCode(UnsignedFloat(name), n, valVar, false)
         == Emission([Assign(Var(n), ToInt(name, 0xffff))], [Var(n)], n + 1, Var(n))
  {
    Invalids();
  }

  lemma ReservedCode(n: nat, valVar: Loc)
    ensures WellFormed(RESERVED) && Format(RESERVED, false) == [Code(1, false)]
    ensures FieldCode(RESERVED, n, valVar, false) == Emission([Assign(Var(n), Lit(0xff))], [Var(n)], n + 1, valVar)
  {
    Invalids();
  }

  /** The code of a 24-bit number: the same for the signed and the unsigned one. */
  lemma ThreeByteCode(n: nat, valVar: Loc)
    ensures WellFormed(CURRENT) && Format(CURRENT, false) == [Code(2, true), Code(1, true)]
    ensures FieldCode(CURRENT, n, valVar, false) == Emission(
              [Assign(Word, ToInt("current", 0x7fffff)), Assign(Var(n), BitAnd(Load(Word), 0xFFFF)),
               Assign(Var(n + 1), BitAnd(ShiftRight(Load(Word), 16), 0xFF))], [Var(n), Var(n + 1)], n + 2, Word)
    ensures WellFormed(TEMPERATURE) && Format(TEMPERATURE, false) == [Code(2, false), Code(1, false)]
    ensures FieldCode(TEMPERATURE, n, valVar, false) == Emission(
              [Assign(Word, ToInt("actual_temperature", 0xffffff)), Assign(Var(n), BitAnd(Load(Word), 0xFFFF)),
               Assign(Var(n + 1), BitAnd(ShiftRight(Load(Word), 16), 0xFF))], [Var(n), Var(n + 1)], n + 2, Word)
  {
    Invalids();
  }

  const DC_ENCODE: seq<Stmt> := [
    Assign(Var(0), ToInt("voltage", 0xffff)),
    Assign(Word, ToInt("current", 0x7fffff)),
    Assign(Var(1), BitAnd(Load(Word), 0xFFFF)),
    Assign(Var(2), BitAnd(ShiftRight(Load(Word), 16), 0xFF)),
    Assign(Var(3), Lit(0xff))]
  const DC_OPERANDS: seq<Loc> := [Attribute("sequence_id"), Attribute("connection_number"), Var(0), Var(1), Var(2),
                                  Var(3)]

  lemma DcTail()
    ensures forall g :: g in [CURRENT] + ([RESERVED] + []) ==> g.Number() && WellFormed(g)
    ensures FormatOf([CURRENT] + ([RESERVED] + []), false) == [Code(2, true), Code(1, true), Code(1, false)]
    ensures FieldsCode([CURRENT] + ([RESERVED] + []), 1, Var(0), false)
            == Emission(DC_ENCODE[1..], DC_OPERANDS[3..], 4, Word)
  {
    ThreeByteCode(1, Var(0));
    ReservedCode(3, Word);
    var none := Emission([], [], 4, Word);
    var last := FieldCode(RESERVED, 3, Word, false);
    CodeCons(RESERVED, [], 3, Word, last, none);
    CodeCons(CURRENT, [RESERVED] + [], 1, Var(0), FieldCode(CURRENT, 1, Var(0), false), Append(last, none));
  }

  /** A byte in front of fields whose code is known is one more operand. */
  lemma UnsignedCons(name: string, rest: seq<Field>, more: Emission)
    requires forall g :: g in rest ==> g.Number() && WellFormed(g)
    requires FieldsCode(rest, 0, Unset, false) == more
    ensures forall g :: g in [Unsigned(name, 1)] + rest ==> g.Number() && WellFormed(g)
    ensures FormatOf([Unsigned(name, 1)] + rest, false) == [Code(1, false)] + FormatOf(rest, false)
    ensures FieldsCode([Unsigned(name, 1)] + rest, 0, Unset, false)
            == Emission(more.out, [Attribute(name)] + more.args, more.numvi, more.valVar)
  {
    UnsignedCode(name, 0, Unset);
    CodeCons(Unsigned(name, 1), rest, 0, Unset, FieldCode(Unsigned(name, 1), 0, Unset, false), more);
    assert [] + more.out == more.out;
  }

  lemma TwoBytesCons(a: string, b: string, rest: seq<Field>, more: Emission, fs: seq<Field>)
    requires forall g :: g in rest ==> g.Number() && WellFormed(g)
    requires FieldsCode(rest, 0, Unset, false) == more && fs == [Unsigned(a, 1)] + ([Unsigned(b, 1)] + rest)
    ensures forall g :: g in fs ==> g.Number() && WellFormed(g)
    ensures FormatOf(fs, false) == [Code(1, false)] + ([Code(1, false)] + FormatOf(rest, false))
    ensures FieldsCode(fs, 0, Unset, false)
         == Emission(more.out, [Attribute(a)] + ([Attribute(b)] + more.args), more.numvi, more.valVar)
  {
    UnsignedCons(b, rest, more);
    UnsignedCons(a, [Unsigned(b, 1)] + rest, Emission(more.out, [Attribute(b)] + more.args, more.numvi, more.valVar));
  }

  lemma DcMiddle()
    ensures var fs := [UnsignedFloat("voltage")] + ([CURRENT] + ([RESERVED] + []));
            && (forall g :: g in fs ==> g.Number() && WellFormed(g))
            && FormatOf(fs, false) == [Code(2, false), Code(2, true), Code(1, true), Code(1, false)]
            && FieldsCode(fs, 0, Unset, false) == Emission(DC_ENCODE, DC_OPERANDS[2..], 4, Word)
  {
    DcTail();
    var tail := [CURRENT] + ([RESERVED] + []);
    FloatCode("voltage", 0, Unset);
    var voltage, more := FieldCode(UnsignedFloat("voltage"), 0, Unset, false), FieldsCode(tail, 1, Var(0), false);
    CodeCons(UnsignedFloat("voltage"), tail, 0, Unset, voltage, more);
    assert Append(voltage, more) == Emission(DC_ENCODE, DC_OPERANDS[2..], 4, Word);
  }

  lemma DcCode()
    ensures forall g :: g in DC ==> g.Number() && WellFormed(g)
    ensures FormatOf(DC, false)
         == [Code(1, false)] + ([Code(1, false)] + [Code(2, false), Code(2, true), Code(1, true), Code(1, false)])
    ensures FieldsCode(DC, 0, Unset, false)
         == Emission(DC_ENCODE, [Attribute("sequence_id")] + ([Attribute("connection_number")] + DC_OPERANDS[2..]), 4,
                     Word)
  {
    DcMiddle();
    var r := [UnsignedFloat("voltage")] + ([CURRENT] + ([RESERVED] + []));
    assert DC == [Unsigned("sequence_id", 1)] + ([Unsigned("connection_number", 1)] + r);
    TwoBytesCons("sequence_id", "connection_number", r, Emission(DC_ENCODE, DC_OPERANDS[2..], 4, Word), DC);
  }

  /** The struct format, the encode statements and the operands of Pgn127751Class. */
  lemma DcEncodeCode()
    ensures AllNumbers(DC)
    ensures FormatOf(DC, false) == [Code(1, false), Code(1, false), Code(2, false), Code(2, true), Code(1, true),
                                    Code(1, false)]
    ensures EmitAttrs(NO_EMISSION, AttrsFrom(DC, 0), false) == Ok(Emission(DC_ENCODE, DC_OPERANDS, 4, Word))
  {
    DcCode();
    assert [Attribute("sequence_id")] + ([Attribute("connection_number")] + DC_OPERANDS[2..]) == DC_OPERANDS;
    EmitWhole(DC, Emission(DC_ENCODE, DC_OPERANDS, 4, Word));
  }

  lemma EmitWhole(fs: seq<Field>, code: Emission)
    requires forall f :: f in fs ==> f.Number() && WellFormed(f) && AlignedField(f, false)
    requires FieldsCode(fs, 0, Unset, false) == code
    ensures EmitAttrs(NO_EMISSION, AttrsFrom(fs, 0), false) == Ok(code)
  {
    EmitAlignedFields(NO_EMISSION, fs, false);
    assert [] + code.out == code.out && [] + code.args == code.args;
  }

  const EXTENDED_ENCODE: seq<Stmt> := [
    Assign(Word, ToInt("actual_temperature", 0xffffff)),
    Assign(Var(0), BitAnd(Load(Word), 0xFFFF)),
    Assign(Var(1), BitAnd(ShiftRight(Load(Word), 16), 0xFF)),
    Assign(Var(2), ToInt("set_temperature", 0xffff))]
  const EXTENDED_OPERANDS: seq<Loc> := [Attribute("sequence_id"), Attribute("temperature_instance"),
                                        Attribute("temperature_source"), Var(0), Var(1), Var(2)]

  lemma ExtendedTail()
    ensures forall g :: g in [TEMPERATURE] + ([UnsignedFloat("set_temperature")] + []) ==> g.Number() && WellFormed(g)
    ensures FormatOf([TEMPERATURE] + ([UnsignedFloat("set_temperature")] + []), false)
         == [Code(2, false), Code(1, false), Code(2, false)]
    ensures FieldsCode([TEMPERATURE] + ([UnsignedFloat("set_temperature")] + []), 0, Unset, false)
         == Emission(EXTENDED_ENCODE, EXTENDED_OPERANDS[3..], 3, Var(2))
  {
    ThreeByteCode(0, Unset);
    FloatCode("set_temperature", 2, Word);
    var none := Emission([], [], 3, Var(2));
    var last := FieldCode(UnsignedFloat("set_temperature"), 2, Word, false);
    CodeCons(UnsignedFloat("set_temperature"), [], 2, Word, last, none);
    CodeCons(TEMPERATURE, [UnsignedFloat("set_temperature")] + [], 0, Unset, FieldCode(TEMPERATURE, 0, Unset, false),
             Append(last, none));
  }

  lemma ExtendedMiddle()
    ensures var fs := [Unsigned("temperature_source", 1)] + ([TEMPERATURE] + ([UnsignedFloat("set_temperature")] + []));
            && (forall g :: g in fs ==> g.Number() && WellFormed(g))
            && FormatOf(fs, false) == [Code(1, false), Code(2, false), Code(1, false), Code(2, false)]
            && FieldsCode(fs, 0, Unset, false) == Emission(EXTENDED_ENCODE, EXTENDED_OPERANDS[2..], 3, Var(2))
  {
    ExtendedTail();
    var r := [TEMPERATURE] + ([UnsignedFloat("set_temperature")] + []);
    UnsignedCons("temperature_source", r, FieldsCode(r, 0, Unset, false));
  }

  /** And of Pgn130316Class. */
  lemma ExtendedEncodeCode()
    ensures AllNumbers(EXTENDED)
    ensures FormatOf(EXTENDED, false)
         == [Code(1, false), Code(1, false), Code(1, false), Code(2, false), Code(1, false), Code(2, false)]
    ensures EmitAttrs(NO_EMISSION, AttrsFrom(EXTENDED, 0), false)
            == Ok(Emission(EXTENDED_ENCODE, EXTENDED_OPERANDS, 3, Var(2)))
  {
    ExtendedMiddle();
    var r := [Unsigned("temperature_source", 1)] + ([TEMPERATURE] + ([UnsignedFloat("set_temperature")] + []));
    assert EXTENDED == [Unsigned("sequence_id", 1)] + ([Unsigned("temperature_instance", 1)] + r);
    TwoBytesCons("sequence_id", "temperature_instance", r,
                 Emission(EXTENDED_ENCODE, EXTENDED_OPERANDS[2..], 3, Var(2)), EXTENDED);
    assert [Attribute("sequence_id")] + ([Attribute("temperature_instance")] + EXTENDED_OPERANDS[2..])
        == EXTENDED_OPERANDS;
    EmitWhole(EXTENDED, Emission(EXTENDED_ENCODE, EXTENDED_OPERANDS, 3, Var(2)));
  }

  // ---- names ----

  lemma DcNames()
    ensures AllNames(DC) == DC_NAMES
  {
    NamesCons(RESERVED, []);
    var r3 := [RESERVED] + [];
    NamesCons(CURRENT, r3);
    var r2 := [CURRENT] + r3;
    NamesCons(UnsignedFloat("voltage"), r2);
    var r1 := [UnsignedFloat("voltage")] + r2;
    NamesCons(Unsigned("connection_number", 1), r1);
    NamesCons(Unsigned("sequence_id", 1), [Unsigned("connection_number", 1)] + r1);
    assert DC == [Unsigned("sequence_id", 1)] + ([Unsigned("connection_number", 1)] + r1);
  }

  lemma DcNamesDistinct()
    ensures Distinct(DC_NAMES)
  {
    assert |"sequence_id"| == 11 && |"connection_number"| == 17 && |"voltage"| == 7 && |"current"| == 7;
    assert "voltage"[0] == 'v' && "current"[0] == 'c';
  }

  lemma ExtendedNames()
    ensures AllNames(EXTENDED) == EXTENDED_NAMES && Distinct(EXTENDED_NAMES)
  {
    NamesCons(UnsignedFloat("set_temperature"), []);
    var r3 := [UnsignedFloat("set_temperature")] + [];
    NamesCons(TEMPERATURE, r3);
    var r2 := [TEMPERATURE] + r3;
    NamesCons(Unsigned("temperature_source", 1), r2);
    var r1 := [Unsigned("temperature_source", 1)] + r2;
    NamesCons(Unsigned("temperature_instance", 1), r1);
    NamesCons(Unsigned("sequence_id", 1), [Unsigned("temperature_instance", 1)] + r1);
    assert EXTENDED == [Unsigned("sequence_id", 1)] + ([Unsigned("temperature_instance", 1)] + r1);
    assert |"sequence_id"| == 11 && |"temperature_instance"| == 20 && |"temperature_source"| == 18
        && |"actual_temperature"| == 18 && |"set_temperature"| == 15;
    assert "temperature_source"[0] == 't' && "actual_temperature"[0] == 'a';
  }

  // ---- which values survive ----

  predicate DcTyped(o: Object) {
    HasInt("sequence_id", o) && HasInt("connection_number", o) && HasFloat("voltage", o) && HasFloat("current", o)
  }

  /**
   The signed current is carried if it is positive with a low half below 32768: no negative
   value, and not even "not available". Corrected, every 24-bit value is that does not
   itself mean not available.
   */
  predicate CarriedCurrent(v: Value, corrected: bool) {
    if corrected then v.NaN? || (v.Float? && -0x80_0000 <= v.raw < 0x7f_ffff && v.raw != -1)
    else v.Float? && 0 <= v.raw < 0x80_0000 && v.raw % 0x10000 < 0x8000
  }

  predicate ExtendedTyped(o: Object) {
    && HasInt("sequence_id", o) && HasInt("temperature_instance", o) && HasInt("temperature_source", o)
    && HasFloat("actual_temperature", o) && HasFloat("set_temperature", o)
  }

  /** The unsigned temperature is carried over its whole range. */
  predicate CarriedTemperature(v: Value) { v.NaN? || (v.Float? && 0 <= v.raw < 0xff_ffff) }

  lemma CurrentExact(o: Object, corrected: bool)
    requires HasFloat("current", o)
    ensures SupportedField(CURRENT, corrected) && Typed(CURRENT, o)
    ensures FieldExact(CURRENT, o, None, corrected) <==> CarriedCurrent(o["current"], corrected)
  {
    ThreeBytes();
    assert 0x7f_ffff % 0x10000 == 0xffff;
  }

  lemma TemperatureExact(o: Object, corrected: bool)
    requires HasFloat("actual_temperature", o)
    ensures SupportedField(TEMPERATURE, corrected) && Typed(TEMPERATURE, o)
    ensures FieldExact(TEMPERATURE, o, None, corrected) <==> CarriedTemperature(o["actual_temperature"])
  {
    ThreeBytes();
  }

  lemma DcExact(o: Object, corrected: bool)
    requires DcTyped(o)
    ensures SupportedFields(DC, corrected) && AllTyped(DC, o)
    ensures MessageExact(DC, o, None, corrected) <==>
            && U8(o["sequence_id"].i) && U8(o["connection_number"].i) && Raw16(o["voltage"])
            && CarriedCurrent(o["current"], corrected)
  {
    ReservedExact(o, None, corrected);
    ExactCons(RESERVED, [], o, None, corrected);
    var r3 := [RESERVED] + [];
    CurrentExact(o, corrected);
    ExactCons(CURRENT, r3, o, None, corrected);
    var r2 := [CURRENT] + r3;
    UnsignedFloatExact("voltage", o, corrected);
    ExactCons(UnsignedFloat("voltage"), r2, o, None, corrected);
    var r1 := [UnsignedFloat("voltage")] + r2;
    UnsignedExact("connection_number", 1, o, None, corrected);
    ExactCons(Unsigned("connection_number", 1), r1, o, None, corrected);
    UnsignedExact("sequence_id", 1, o, None, corrected);
    ExactCons(Unsigned("sequence_id", 1), [Unsigned("connection_number", 1)] + r1, o, None, corrected);
    assert DC == [Unsigned("sequence_id", 1)] + ([Unsigned("connection_number", 1)] + r1);
  }

  lemma ExtendedExact(o: Object, corrected: bool)
    requires ExtendedTyped(o)
    ensures SupportedFields(EXTENDED, corrected) && AllTyped(EXTENDED, o)
    ensures MessageExact(EXTENDED, o, None, corrected) <==>
            && U8(o["sequence_id"].i) && U8(o["temperature_instance"].i) && U8(o["temperature_source"].i)
            && CarriedTemperature(o["actual_temperature"]) && Raw16(o["set_temperature"])
  {
    UnsignedFloatExact("set_temperature", o, corrected);
    ExactCons(UnsignedFloat("set_temperature"), [], o, None, corrected);
    var r3 := [UnsignedFloat("set_temperature")] + [];
    TemperatureExact(o, corrected);
    ExactCons(TEMPERATURE, r3, o, None, corrected);
    var r2 := [TEMPERATURE] + r3;
    UnsignedExact("temperature_source", 1, o, None, corrected);
    ExactCons(Unsigned("temperature_source", 1), r2, o, None, corrected);
    var r1 := [Unsigned("temperature_source", 1)] + r2;
    UnsignedExact("temperature_instance", 1, o, None, corrected);
    ExactCons(Unsigned("temperature_instance", 1), r1, o, None, corrected);
    UnsignedExact("sequence_id", 1, o, None, corrected);
    ExactCons(Unsigned("sequence_id", 1), [Unsigned("temperature_instance", 1)] + r1, o, None, corrected);
    assert EXTENDED == [Unsigned("sequence_id", 1)] + ([Unsigned("temperature_instance", 1)] + r1);
  }

  /**
   Compiling PGN 127751, encoding an object and decoding the bytes gives all attributes
   back, if and only if the identifiers are bytes, the voltage is in range, and the
   current is one of those the two signed slots carry.
   */
  lemma DcRoundTrip(o: Object, o0: Object, corrected: bool) returns (p: Program)
    requires DcTyped(o)
    ensures Compile(DC, None, false, corrected) == Ok(p)
    ensures (EncodeFixed(p, o).Some? && DecodeFixed(p, EncodeFixed(p, o).value, o0).Some?
             && Recovered(DC_NAMES, o, DecodeFixed(p, EncodeFixed(p, o).value, o0).value))
       <==> U8(o["sequence_id"].i) && U8(o["connection_number"].i) && Raw16(o["voltage"])
            && CarriedCurrent(o["current"], corrected)
  {
    DcNames();
    DcNamesDistinct();
    DcExact(o, corrected);
    p := FixedMessageRoundTrip(DC, o, o0, corrected);
  }

  /** The same for PGN 130316, where the 24-bit number is carried over its whole range. */
  lemma ExtendedRoundTrip(o: Object, o0: Object, corrected: bool) returns (p: Program)
    requires ExtendedTyped(o)
    ensures Compile(EXTENDED, None, false, corrected) == Ok(p)
    ensures (EncodeFixed(p, o).Some? && DecodeFixed(p, EncodeFixed(p, o).value, o0).Some?
             && Recovered(EXTENDED_NAMES, o, DecodeFixed(p, EncodeFixed(p, o).value, o0).value))
       <==> U8(o["sequence_id"].i) && U8(o["temperature_instance"].i) && U8(o["temperature_source"].i)
            && CarriedTemperature(o["actual_temperature"]) && Raw16(o["set_temperature"])
  {
    ExtendedNames();
    ExtendedExact(o, corrected);
    p := FixedMessageRoundTrip(EXTENDED, o, o0, corrected);
  }

  /** An object whose current is "not available" cannot be encoded at all. */
  lemma NotAvailableRaises(o: Object) returns (p: Program)
    requires DcTyped(o) && o["current"].NaN?
    ensures Compile(DC, None, false, false) == Ok(p) && EncodeFixed(p, o) == None
  {
    DcExact(o, false);
    assert DC[3] == CURRENT;
    p := NumbersRun(DC, o, o, false);
    PacksAll(DC, o, false);
    SignedInvalidLowHalf(24);
    ThreeBytes();
    assert !InRange(Format(CURRENT, false)[0], SlotVals(CURRENT, o, false)[0]);
    OneRefused(DC, 3, o);
  }

  lemma {:induction false} OneRefused(fs: seq<Field>, i: nat, o: Object)
    requires Emittable(fs, false) && AllTyped(fs, o) && i < |fs| && fs[i] in fs && !Packs(fs[i], o, false)
    ensures !AllPack(fs, o, false)
    decreases i
  {
    if i > 0 {
      OneRefused(fs[1..], i - 1, o);
    }
  }
}

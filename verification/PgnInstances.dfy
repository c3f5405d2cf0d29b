/**
 PGN 129038, AIS Class A Position Report, compiled and run: the statements are the ones in
 its generated class, and the theorems say what this class loses.
 */
module PgnInstances {
  import opened Bits
  import opened Wrappers
  import opened Struct
  import opened PgnFields
  import opened PgnIr
  import opened PgnEmit
  import opened PgnSegment
  import opened PgnValues
  import opened PgnDecode
  import opened PgnExact
  import opened PgnRoundTrip
  import opened PgnMessage
  import opened PgnCompiler
  import opened PgnNumbers
  import opened PgnRanges

  const MESSAGE := BitField([Sub(Some("message_id"), 6, 0), Sub(Some("repeat_indicator"), 2, 6)])
  const MMSI := Signed32("mmsi")
  const LONGITUDE := SignedFloat("longitude")
  const LATITUDE := SignedFloat("latitude")
  const ACCURACY := BitField([Sub(Some("position_accuracy"), 1, 0), Sub(Some("RAIM"), 1, 1),
                              Sub(Some("report_timestamp"), 6, 2)])
  const COG := UnsignedFloat("COG")
  const SOG := UnsignedFloat("SOG")
  const COMMUNICATION := BitField([Sub(Some("communication_state"), 19, 0),
                                   Sub(Some("transceiver_information"), 5, 19)])
  const HEADING := UnsignedFloat("heading")
  const RATE := UnsignedFloat("rate_of_turn")
  const STATUS := Unsigned("navigation_status", 1)
  const REGIONAL := RESERVED

  const AIS_HEAD: seq<Field> := [MESSAGE, MMSI, LONGITUDE, LATITUDE, ACCURACY, COG, SOG]
  const AIS_TAIL: seq<Field> := [HEADING, RATE, STATUS, REGIONAL]
  const AIS: seq<Field> := AIS_HEAD + ([COMMUNICATION] + AIS_TAIL)

  function Masked(name: string, mask: nat, shift: nat): Expr {
    ShiftLeft(BitAnd(Load(Attribute(name)), mask), shift)
  }

  lemma BitFieldsWellFormed()
    ensures WellFormed(MESSAGE) && Slots(MESSAGE) == 1
    ensures WellFormed(ACCURACY) && Slots(ACCURACY) == 1
    ensures WellFormed(COMMUNICATION) && Slots(COMMUNICATION) == 2
  {
    TwoSubs(MESSAGE.subs[0], MESSAGE.subs[1]);
    ThreeSubs(ACCURACY.subs[0], ACCURACY.subs[1], ACCURACY.subs[2]);
    TwoSubs(COMMUNICATION.subs[0], COMMUNICATION.subs[1]);
  }

  lemma AisFields(corrected: bool)
    ensures forall f :: f in AIS ==> f.Number() && Supported(f, corrected)
  {
    BitFieldsWellFormed();
    assert forall f :: f in AIS_HEAD ==> f.Number() && Supported(f, corrected);
    assert forall f :: f in AIS_TAIL ==> f.Number() && Supported(f, corrected);
  }

  /** The encode statements of Pgn129038Class, in order. */
  const AIS_ENCODE: seq<Stmt> := [
    Assign(Var(0), Masked("message_id", 0x3f, 0)),
    OrAssign(Var(0), Masked("repeat_indicator", 0x3, 6)),
    Assign(Var(1), ToInt("longitude", 0x7fffffff)),
    Assign(Var(2), ToInt("latitude", 0x7fffffff)),
    Assign(Var(3), Masked("position_accuracy", 0x1, 0)),
    OrAssign(Var(3), Masked("RAIM", 0x1, 1)),
    OrAssign(Var(3), Masked("report_timestamp", 0x3f, 2)),
    Assign(Var(4), ToInt("COG", 0xffff)),
    Assign(Var(5), ToInt("SOG", 0xffff)),
    Assign(Word, Masked("communication_state", 0x7ffff, 0)),
    OrAssign(Word, Masked("transceiver_information", 0x1f, 19)),
    Assign(Var(6), BitAnd(Load(Word), 0xFFFF)),
    Assign(Var(7), ShiftRight(BitAnd(Load(Word), 0xFF), 16)),
    Assign(Var(8), ToInt("heading", 0xffff)),
    Assign(Var(9), ToInt("rate_of_turn", 0xffff)),
    Assign(Var(10), Lit(0xff))]

  /** The operands of its pack_into. */
  const AIS_OPERANDS: seq<Loc> := [
    Var(0), Attribute("mmsi"), Var(1), Var(2), Var(3), Var(4), Var(5), Var(6), Var(7), Var(8), Var(9),
    Attribute("navigation_status"), Var(10)]

  /** Its struct format, "<BiiiBHHHBHHBB". */
  const AIS_FORMAT: seq<Code> := [
    Code(1, false), Code(4, true), Code(4, true), Code(4, true), Code(1, false), Code(2, false), Code(2, false),
    Code(2, false), Code(1, false), Code(2, false), Code(2, false), Code(1, false), Code(1, false)]

  lemma FormatCons(f: Field, rest: seq<Field>)
    requires f.Number() && AllNumbers(rest)
    ensures AllNumbers([f] + rest) && FormatOf([f] + rest, false) == Format(f, false) + FormatOf(rest, false)
  {
    assert ([f] + rest)[1..] == rest;
  }

  lemma TailFormat()
    ensures AllNumbers([COMMUNICATION] + AIS_TAIL) && FormatOf([COMMUNICATION] + AIS_TAIL, false) == AIS_FORMAT[7..]
  {
    BitFieldsWellFormed();
    FormatCons(REGIONAL, []);
    FormatCons(STATUS, [REGIONAL] + []);
    FormatCons(RATE, [STATUS] + ([REGIONAL] + []));
    FormatCons(HEADING, [RATE] + ([STATUS] + ([REGIONAL] + [])));
    assert AIS_TAIL == [HEADING] + ([RATE] + ([STATUS] + ([REGIONAL] + [])));
    FormatCons(COMMUNICATION, AIS_TAIL);
  }

  /** One field of one slot more, in front. */
  lemma FrontFormat(f: Field, rest: seq<Field>, k: nat)
    requires f.Number() && AllNumbers(rest) && k < |AIS_FORMAT|
    requires Format(f, false) == [AIS_FORMAT[k]] && FormatOf(rest, false) == AIS_FORMAT[k + 1..]
    ensures AllNumbers([f] + rest) && FormatOf([f] + rest, false) == AIS_FORMAT[k..]
  {
    FormatCons(f, rest);
  }

  lemma FieldFormats()
    ensures Format(MESSAGE, false) == [Code(1, false)] == Format(ACCURACY, false)
    ensures Format(MMSI, false) == Format(LONGITUDE, false) == Format(LATITUDE, false) == [Code(4, true)]
    ensures Format(COG, false) == [Code(2, false)] == Format(SOG, false)
  {
    BitFieldsWellFormed();
    TwoSubs(MESSAGE.subs[0], MESSAGE.subs[1]);
    ThreeSubs(ACCURACY.subs[0], ACCURACY.subs[1], ACCURACY.subs[2]);
  }

  lemma SpeedFormat()
    ensures var fs := [ACCURACY] + ([COG] + ([SOG] + ([COMMUNICATION] + AIS_TAIL)));
            AllNumbers(fs) && FormatOf(fs, false) == AIS_FORMAT[4..]
  {
    FieldFormats();
    TailFormat();
    var r := [COMMUNICATION] + AIS_TAIL;
    FrontFormat(SOG, r, 6);
    FrontFormat(COG, [SOG] + r, 5);
    FrontFormat(ACCURACY, [COG] + ([SOG] + r), 4);
  }

  lemma AisFormat()
    ensures AllNumbers(AIS) && FormatOf(AIS, false) == AIS_FORMAT
  {
    FieldFormats();
    SpeedFormat();
    var r := [ACCURACY] + ([COG] + ([SOG] + ([COMMUNICATION] + AIS_TAIL)));
    FrontFormat(LATITUDE, r, 3);
    var r3 := [LATITUDE] + r;
    FrontFormat(LONGITUDE, r3, 2);
    FrontFormat(MMSI, [LONGITUDE] + r3, 1);
    FrontFormat(MESSAGE, [MMSI] + ([LONGITUDE] + r3), 0);
    assert AIS == [MESSAGE] + ([MMSI] + ([LONGITUDE] + r3));
    assert AIS_FORMAT[0..] == AIS_FORMAT;
  }

  lemma CodeStep(f: Field, rest: seq<Field>, n: nat, valVar: Loc)
    requires f.Number() && WellFormed(f) && forall g :: g in rest ==> g.Number() && WellFormed(g)
    ensures forall g :: g in [f] + rest ==> g.Number() && WellFormed(g)
    ensures var code := FieldCode(f, n, valVar, false);
            FieldsCode([f] + rest, n, valVar, false) == Append(code, FieldsCode(rest, code.numvi, code.valVar, false))
  {
    assert ([f] + rest)[1..] == rest;
  }

  lemma TailCode()
    ensures (forall f :: f in AIS_TAIL ==> f.Number() && WellFormed(f))
    ensures FieldsCode(AIS_TAIL, 8, Word, false) == Emission(AIS_ENCODE[13..], AIS_OPERANDS[9..], 11, Var(9))
  {
    Powers();
    assert AIS_TAIL == [HEADING] + ([RATE] + ([STATUS] + ([REGIONAL] + [])));
    CodeStep(REGIONAL, [], 10, Var(9));
    CodeStep(STATUS, [REGIONAL] + [], 10, Var(9));
    CodeStep(RATE, [STATUS] + ([REGIONAL] + []), 9, Var(8));
    CodeStep(HEADING, [RATE] + ([STATUS] + ([REGIONAL] + [])), 8, Word);
  }

  lemma MiddleCode()
    ensures (forall f :: f in [COMMUNICATION] + AIS_TAIL ==> f.Number() && WellFormed(f))
    ensures FieldsCode([COMMUNICATION] + AIS_TAIL, 6, Var(5), false)
            == Emission(AIS_ENCODE[9..], AIS_OPERANDS[7..], 11, Var(9))
  {
    TailCode();
    BitFieldsWellFormed();
    CodeStep(COMMUNICATION, AIS_TAIL, 6, Var(5));
    var code := FieldCode(COMMUNICATION, 6, Var(5), false);
    assert OrStmts(COMMUNICATION.subs, 1, Word) == [OrAssign(Word, Masked("transceiver_information", 0x1f, 19))] by {
      Powers();
    }
    assert code.out == AIS_ENCODE[9..13] by {
      Powers();
    }
  }

  lemma {:induction false} CodeConcat(a: seq<Field>, b: seq<Field>, n: nat, valVar: Loc)
    requires forall g :: g in a + b ==> g.Number() && WellFormed(g)
    ensures (forall g :: g in a ==> g.Number() && WellFormed(g)) && (forall g :: g in b ==> g.Number() && WellFormed(g))
    ensures var code := FieldsCode(a, n, valVar, false);
            FieldsCode(a + b, n, valVar, false) == Append(code, FieldsCode(b, code.numvi, code.valVar, false))
    decreases |a|
  {
    assert forall g :: g in a + b <==> g in a || g in b;
    if a == [] {
      assert a + b == b;
    } else {
      var code := FieldCode(a[0], n, valVar, false);
      assert (a + b)[1..] == a[1..] + b;
      CodeConcat(a[1..], b, code.numvi, code.valVar);
      var more := FieldsCode(a[1..], code.numvi, code.valVar, false);
      AppendAppend(code, more, FieldsCode(b, more.numvi, more.valVar, false));
    }
  }

  const AIS_POSITION: seq<Field> := [LONGITUDE, LATITUDE, ACCURACY]
  const AIS_SPEED: seq<Field> := [COG, SOG]

  lemma FrontCode()
    ensures forall f :: f in [MESSAGE, MMSI] ==> f.Number() && WellFormed(f)
    ensures FieldsCode([MESSAGE, MMSI], 0, Unset, false) == Emission(AIS_ENCODE[..2], AIS_OPERANDS[..2], 1, Var(0))
  {
    BitFieldsWellFormed();
    Powers();
    assert [MESSAGE, MMSI] == [MESSAGE] + ([MMSI] + []);
    CodeStep(MMSI, [], 1, Var(0));
    CodeStep(MESSAGE, [MMSI] + [], 0, Unset);
  }

  lemma PositionCode()
    ensures forall f :: f in AIS_POSITION ==> f.Number() && WellFormed(f)
    ensures FieldsCode(AIS_POSITION, 1, Var(0), false) == Emission(AIS_ENCODE[2..7], AIS_OPERANDS[2..5], 4, Var(3))
  {
    BitFieldsWellFormed();
    Powers();
    assert AIS_POSITION == [LONGITUDE] + ([LATITUDE] + ([ACCURACY] + []));
    CodeStep(ACCURACY, [], 3, Var(2));
    CodeStep(LATITUDE, [ACCURACY] + [], 2, Var(1));
    CodeStep(LONGITUDE, [LATITUDE] + ([ACCURACY] + []), 1, Var(0));
  }

  lemma SpeedCode()
    ensures forall f :: f in AIS_SPEED ==> f.Number() && WellFormed(f)
    ensures FieldsCode(AIS_SPEED, 4, Var(3), false) == Emission(AIS_ENCODE[7..9], AIS_OPERANDS[5..7], 6, Var(5))
  {
    Powers();
    assert AIS_SPEED == [COG] + ([SOG] + []);
    CodeStep(SOG, [], 5, Var(4));
    CodeStep(COG, [SOG] + [], 4, Var(3));
  }

  lemma Cuts<T>(s: seq<T>, a: nat, b: nat, c: nat)
    requires a <= b <= c <= |s|
    ensures s == s[..a] + (s[a..b] + (s[b..c] + s[c..]))
  {
  }

  lemma AisCode()
    ensures forall f :: f in AIS ==> f.Number() && WellFormed(f)
    ensures FieldsCode(AIS, 0, Unset, false) == Emission(AIS_ENCODE, AIS_OPERANDS, 11, Var(9))
  {
    var tail := [COMMUNICATION] + AIS_TAIL;
    var behind, front := AIS_SPEED + tail, [MESSAGE, MMSI];
    var most := AIS_POSITION + behind;
    assert AIS == front + most;
    AisFields(false);
    CodeConcat(front, most, 0, Unset);
    FrontCode();
    CodeConcat(AIS_POSITION, behind, 1, Var(0));
    PositionCode();
    CodeConcat(AIS_SPEED, tail, 4, Var(3));
    SpeedCode();
    MiddleCode();
    Cuts(AIS_ENCODE, 2, 7, 9);
    Cuts(AIS_OPERANDS, 2, 5, 7);
  }

  /**
   Compiling the definition of PGN 129038 gives the struct format, the statements and the
   operands that stand in its generated class.
   */
  lemma AisEncodeCode()
    ensures AllNumbers(AIS) && FormatOf(AIS, false) == AIS_FORMAT
    ensures EmitAttrs(NO_EMISSION, AttrsFrom(AIS, 0), false) == Ok(Emission(AIS_ENCODE, AIS_OPERANDS, 11, Var(9)))
  {
    AisFields(false);
    EmitAlignedFields(NO_EMISSION, AIS, false);
    AisCode();
    AisFormat();
    assert [] + AIS_ENCODE == AIS_ENCODE && [] + AIS_OPERANDS == AIS_OPERANDS;
  }

  /** The decode statements of its two-slot bit-field. */
  lemma AisDecodeCode()
    ensures DecodeAttrs(AttrsOf(COMMUNICATION, 7), None, false) == [
              Assign(Word, Plus(Slot(7), ShiftLeft(Slot(8), 16))),
              SetAttribute("communication_state", BitAnd(Load(Word), 0x7FFFF), Plain),
              SetAttribute("transceiver_information", BitAnd(ShiftRight(Load(Word), 19), 0x1F), Plain)]
  {
    Powers();
    BitFieldsWellFormed();
    var subs := COMMUNICATION.subs;
    var a, b := SubAttr(subs[0], 2, 0, false, 7), SubAttr(subs[1], 2, 1, true, 7);
    assert SubAttrsFrom(subs, 2, 1, 7) == [b];
    assert AttrsOf(COMMUNICATION, 7) == [a, b];
    assert [a, b][1..] == [b] && [b][1..] == [];
  }

  // ---- names ----

  const HEAD_NAMES: seq<string> := ["message_id", "repeat_indicator", "mmsi", "longitude", "latitude",
                                    "position_accuracy", "RAIM", "report_timestamp", "COG", "SOG"]
  const COMMUNICATION_NAMES: seq<string> := ["communication_state", "transceiver_information"]
  const TAIL_NAMES: seq<string> := ["heading", "rate_of_turn", "navigation_status"]
  const AIS_NAMES: seq<string> := HEAD_NAMES + (COMMUNICATION_NAMES + TAIL_NAMES)

  lemma SubFieldNames()
    ensures Names(MESSAGE) == ["message_id", "repeat_indicator"]
    ensures Names(ACCURACY) == ["position_accuracy", "RAIM", "report_timestamp"]
    ensures Names(COMMUNICATION) == COMMUNICATION_NAMES
  {
    TwoSubs(MESSAGE.subs[0], MESSAGE.subs[1]);
    ThreeSubs(ACCURACY.subs[0], ACCURACY.subs[1], ACCURACY.subs[2]);
    TwoSubs(COMMUNICATION.subs[0], COMMUNICATION.subs[1]);
    forall s: Sub ensures SubNames([s]) == if s.name.Some? then [s.name.value] else [] {
      assert [s][1..] == [];
    }
  }

  lemma TailNames()
    ensures AllNames(AIS_TAIL) == TAIL_NAMES
  {
    NamesCons(REGIONAL, []);
    NamesCons(STATUS, [REGIONAL] + []);
    NamesCons(RATE, [STATUS] + ([REGIONAL] + []));
    NamesCons(HEADING, [RATE] + ([STATUS] + ([REGIONAL] + [])));
    assert AIS_TAIL == [HEADING] + ([RATE] + ([STATUS] + ([REGIONAL] + [])));
  }

  lemma HeadNames()
    ensures AllNames(AIS_HEAD) == HEAD_NAMES
  {
    SubFieldNames();
    NamesCons(SOG, []);
    NamesCons(COG, [SOG] + []);
    var r2 := [COG] + ([SOG] + []);
    NamesCons(ACCURACY, r2);
    NamesCons(LATITUDE, [ACCURACY] + r2);
    var r3 := [LATITUDE] + ([ACCURACY] + r2);
    NamesCons(LONGITUDE, r3);
    NamesCons(MMSI, [LONGITUDE] + r3);
    NamesCons(MESSAGE, [MMSI] + ([LONGITUDE] + r3));
    assert AIS_HEAD == [MESSAGE] + ([MMSI] + ([LONGITUDE] + r3));
  }

  lemma AisNames()
    ensures AllNames(AIS) == AIS_NAMES
  {
    HeadNames();
    SubFieldNames();
    TailNames();
    NamesCons(COMMUNICATION, AIS_TAIL);
    NamesConcat(AIS_HEAD, [COMMUNICATION] + AIS_TAIL);
  }

  /** Names are told apart by length, and the few of one length by a letter. */
  lemma NameLengths()
    ensures |"message_id"| == 10 && |"repeat_indicator"| == 16 && |"mmsi"| == 4 && |"longitude"| == 9
            && |"latitude"| == 8
    ensures |"position_accuracy"| == 17 && |"RAIM"| == 4 && |"report_timestamp"| == 16 && |"COG"| == 3 && |"SOG"| == 3
    ensures |"communication_state"| == 19 && |"transceiver_information"| == 23
    ensures |"heading"| == 7 && |"rate_of_turn"| == 12 && |"navigation_status"| == 17
    ensures "mmsi" != "RAIM" && "repeat_indicator" != "report_timestamp" && "COG" != "SOG"
    ensures "position_accuracy" != "navigation_status"
  {
    assert "mmsi"[0] == 'm' && "RAIM"[0] == 'R' && "COG"[0] == 'C' && "SOG"[0] == 'S';
    assert "repeat_indicator"[3] == 'e' && "report_timestamp"[3] == 'o';
    assert "position_accuracy"[0] == 'p' && "navigation_status"[0] == 'n';
  }

  lemma TailNamesDistinct()
    ensures Distinct(COMMUNICATION_NAMES + TAIL_NAMES)
    ensures forall x :: x in COMMUNICATION_NAMES ==> x !in TAIL_NAMES
  {
    NameLengths();
  }

  lemma MiddleNamesDistinct(r: seq<string>) returns (all: seq<string>)
    requires r == COMMUNICATION_NAMES + TAIL_NAMES && Distinct(r)
    ensures all == ["report_timestamp"] + (["COG"] + (["SOG"] + r)) && Distinct(all)
  {
    NameLengths();
    DistinctCons("SOG", r);
    DistinctCons("COG", ["SOG"] + r);
    all := ["report_timestamp"] + (["COG"] + (["SOG"] + r));
    DistinctCons("report_timestamp", ["COG"] + (["SOG"] + r));
  }

  lemma LaterNamesDistinct()
    ensures Distinct(["latitude", "position_accuracy", "RAIM", "report_timestamp", "COG",
                      "SOG"] + (COMMUNICATION_NAMES + TAIL_NAMES))
  {
    NameLengths();
    TailNamesDistinct();
    var r := COMMUNICATION_NAMES + TAIL_NAMES;
    var r3 := MiddleNamesDistinct(r);
    DistinctCons("RAIM", r3);
    DistinctCons("position_accuracy", ["RAIM"] + r3);
    var r4 := ["position_accuracy"] + (["RAIM"] + r3);
    DistinctCons("latitude", r4);
    assert ["latitude", "position_accuracy", "RAIM", "report_timestamp", "COG", "SOG"] + r == ["latitude"] + r4;
  }

  lemma NamesDistinct()
    ensures Distinct(AIS_NAMES)
  {
    NameLengths();
    LaterNamesDistinct();
    var r := ["latitude", "position_accuracy", "RAIM", "report_timestamp", "COG",
              "SOG"] + (COMMUNICATION_NAMES + TAIL_NAMES);
    DistinctCons("longitude", r);
    var r2 := ["longitude"] + r;
    DistinctCons("mmsi", r2);
    var r3 := ["mmsi"] + r2;
    DistinctCons("repeat_indicator", r3);
    DistinctCons("message_id", ["repeat_indicator"] + r3);
    assert AIS_NAMES == ["message_id"] + (["repeat_indicator"] + r3);
  }

  // ---- which values survive ----

  predicate AisTyped(o: Object) {
    && HasInt("message_id", o) && HasInt("repeat_indicator", o) && HasInt("mmsi", o)
    && HasFloat("longitude", o) && HasFloat("latitude", o)
    && HasInt("position_accuracy", o) && HasInt("RAIM", o) && HasInt("report_timestamp", o)
    && HasFloat("COG", o) && HasFloat("SOG", o)
    && HasInt("communication_state", o) && HasInt("transceiver_information", o)
    && HasFloat("heading", o) && HasFloat("rate_of_turn", o) && HasInt("navigation_status", o)
  }

  predicate HeadValues(o: Object)
    requires AisTyped(o)
  {
    && 0 <= o["message_id"].i < 64 && 0 <= o["repeat_indicator"].i < 4 && S32(o["mmsi"].i)
    && Raw32(o["longitude"]) && Raw32(o["latitude"])
    && 0 <= o["position_accuracy"].i < 2 && 0 <= o["RAIM"].i < 2 && 0 <= o["report_timestamp"].i < 64
    && Raw16(o["COG"]) && Raw16(o["SOG"])
  }

  /** The two-slot bit-field: as emitted, only its low 16 bits are carried. */
  predicate CommunicationValues(o: Object, corrected: bool)
    requires AisTyped(o)
  {
    var state, information := o["communication_state"].i, o["transceiver_information"].i;
    if corrected then 0 <= state < 0x80000 && 0 <= information < 32 else 0 <= state < 0x10000 && information == 0
  }

  predicate TailValues(o: Object)
    requires AisTyped(o)
  {
    Raw16(o["heading"]) && Raw16(o["rate_of_turn"]) && U8(o["navigation_status"].i)
  }

  lemma MessageFieldExact(o: Object, corrected: bool)
    requires AisTyped(o)
    ensures SupportedField(MESSAGE, corrected) && Typed(MESSAGE, o)
    ensures FieldExact(MESSAGE, o, None, corrected) <==> 0 <= o["message_id"].i < 64 && 0 <= o["repeat_indicator"].i < 4
  {
    BitFieldsWellFormed();
    Powers();
    var subs := MESSAGE.subs;
    assert forall s :: s in subs <==> s == subs[0] || s == subs[1];
  }

  lemma AccuracyExact(o: Object, corrected: bool)
    requires AisTyped(o)
    ensures SupportedField(ACCURACY, corrected) && Typed(ACCURACY, o)
    ensures FieldExact(ACCURACY, o, None, corrected)
       <==> 0 <= o["position_accuracy"].i < 2 && 0 <= o["RAIM"].i < 2 && 0 <= o["report_timestamp"].i < 64
  {
    BitFieldsWellFormed();
    Powers();
    var subs := ACCURACY.subs;
    assert forall s :: s in subs <==> s == subs[0] || s == subs[1] || s == subs[2];
  }

  lemma CommunicationExact(o: Object, corrected: bool)
    requires AisTyped(o)
    ensures SupportedField(COMMUNICATION, corrected) && Typed(COMMUNICATION, o)
    ensures FieldExact(COMMUNICATION, o, None, corrected) <==> CommunicationValues(o, corrected)
  {
    BitFieldsWellFormed();
    Powers();
    var subs := COMMUNICATION.subs;
    assert forall s :: s in subs <==> s == subs[0] || s == subs[1];
  }

  lemma TailExact(o: Object, corrected: bool)
    requires AisTyped(o)
    ensures SupportedFields(AIS_TAIL, corrected) && AllTyped(AIS_TAIL, o)
    ensures MessageExact(AIS_TAIL, o, None, corrected) <==> TailValues(o)
  {
    ReservedExact(o, None, corrected);
    ExactCons(REGIONAL, [], o, None, corrected);
    UnsignedExact("navigation_status", 1, o, None, corrected);
    ExactCons(STATUS, [REGIONAL] + [], o, None, corrected);
    UnsignedFloatExact("rate_of_turn", o, corrected);
    ExactCons(RATE, [STATUS] + ([REGIONAL] + []), o, None, corrected);
    UnsignedFloatExact("heading", o, corrected);
    ExactCons(HEADING, [RATE] + ([STATUS] + ([REGIONAL] + [])), o, None, corrected);
    assert AIS_TAIL == [HEADING] + ([RATE] + ([STATUS] + ([REGIONAL] + [])));
  }

  lemma SpeedExact(o: Object, corrected: bool)
    requires AisTyped(o)
    ensures SupportedFields(AIS_SPEED, corrected) && AllTyped(AIS_SPEED, o)
    ensures MessageExact(AIS_SPEED, o, None, corrected) <==> Raw16(o["COG"]) && Raw16(o["SOG"])
  {
    UnsignedFloatExact("SOG", o, corrected);
    ExactCons(SOG, [], o, None, corrected);
    UnsignedFloatExact("COG", o, corrected);
    ExactCons(COG, [SOG] + [], o, None, corrected);
    assert AIS_SPEED == [COG] + ([SOG] + []);
  }

  lemma HeadExact(o: Object, corrected: bool)
    requires AisTyped(o)
    ensures SupportedFields(AIS_HEAD, corrected) && AllTyped(AIS_HEAD, o)
    ensures MessageExact(AIS_HEAD, o, None, corrected) <==> HeadValues(o)
  {
    SpeedExact(o, corrected);
    AccuracyExact(o, corrected);
    ExactCons(ACCURACY, AIS_SPEED, o, None, corrected);
    var r2 := [ACCURACY] + AIS_SPEED;
    SignedFloatExact("latitude", o, None, corrected);
    ExactCons(LATITUDE, r2, o, None, corrected);
    SignedFloatExact("longitude", o, None, corrected);
    ExactCons(LONGITUDE, [LATITUDE] + r2, o, None, corrected);
    var r3 := [LONGITUDE] + ([LATITUDE] + r2);
    Signed32Exact("mmsi", o, corrected);
    ExactCons(MMSI, r3, o, None, corrected);
    MessageFieldExact(o, corrected);
    ExactCons(MESSAGE, [MMSI] + r3, o, None, corrected);
    assert AIS_HEAD == [MESSAGE] + ([MMSI] + r3);
  }

  lemma AisExact(o: Object, corrected: bool)
    requires AisTyped(o)
    ensures SupportedFields(AIS, corrected) && AllTyped(AIS, o)
    ensures MessageExact(AIS, o, None, corrected)
       <==> HeadValues(o) && CommunicationValues(o, corrected) && TailValues(o)
  {
    HeadExact(o, corrected);
    TailExact(o, corrected);
    CommunicationExact(o, corrected);
    ExactCons(COMMUNICATION, AIS_TAIL, o, None, corrected);
    var r := [COMMUNICATION] + AIS_TAIL;
    assert forall f :: f in AIS <==> f in AIS_HEAD || f in r;
    MessageExactConcat(AIS_HEAD, r, o, None, corrected);
  }

  /**
   Compiling PGN 129038, encoding an object and decoding the bytes gives all attributes
   back if and only if the values are in the ranges of their fields and, as emitted, the
   communication state is below 2^16 and the transceiver information 0.
   */
  lemma AisRoundTrip(o: Object, o0: Object, corrected: bool) returns (p: Program)
    requires AisTyped(o)
    ensures Compile(AIS, None, false, corrected) == Ok(p)
    ensures (EncodeFixed(p, o).Some? && DecodeFixed(p, EncodeFixed(p, o).value, o0).Some?
             && Recovered(AIS_NAMES, o, DecodeFixed(p, EncodeFixed(p, o).value, o0).value))
       <==> HeadValues(o) && CommunicationValues(o, corrected) && TailValues(o)
  {
    AisNames();
    NamesDistinct();
    AisExact(o, corrected);
    p := FixedMessageRoundTrip(AIS, o, o0, corrected);
  }

  // ---- what is lost ----

  /** The word that leaves in the low slot. */
  lemma CommunicationWord(obj: Object)
    requires Typed(COMMUNICATION, obj)
    requires HasInt("communication_state", obj)
    ensures Joined(COMMUNICATION, SlotVals(COMMUNICATION, obj, false)) == obj["communication_state"].i % 0x10000
  {
    var subs, state := COMMUNICATION.subs, obj["communication_state"].i;
    BitFieldsWellFormed();
    Powers();
    assert PrefixWord(subs, 1, obj) == Part(subs[0], obj) == state % 0x80000;
    assert PrefixWord(subs, 2, obj) == state % 0x80000 + Part(subs[1], obj) * 0x80000;
    AddMultiple(state % 0x80000, Part(subs[1], obj) * 8, 0x10000);
    AddMultiple(state % 0x80000, state / 0x80000 * 8, 0x10000);
  }

  lemma CommunicationDecoded(raw: int, obj0: Object)
    ensures var obj1 := DecodedField(COMMUNICATION, raw, None, obj0);
            && "communication_state" in obj1 && obj1["communication_state"] == Int(raw / Pow2(0) % Pow2(19))
            && "transceiver_information" in obj1 && obj1["transceiver_information"] == Int(raw / Pow2(19) % Pow2(5))
  {
    var subs := COMMUNICATION.subs;
    SubFieldNames();
    TailNamesDistinct();
    DistinctParts(COMMUNICATION_NAMES, TAIL_NAMES);
    assert subs[0..] == subs;
    SetSubsValues(subs, 0, raw, obj0);
    assert subs[0].name.value == "communication_state" && subs[1].name.value == "transceiver_information";
  }

  /**
   What the generated class of PGN 129038 loses: of every object that it encodes at all,
   it decodes the transceiver information as 0 and the communication state as its low 16
   bits.
   */
  lemma TransceiverInformationIsLost(o: Object, o0: Object) returns (p: Program)
    requires AisTyped(o)
    ensures Compile(AIS, None, false, false) == Ok(p)
    ensures EncodeFixed(p, o).Some? ==>
              var r := DecodeFixed(p, EncodeFixed(p, o).value, o0);
              && r.Some?
              && "communication_state" in r.value && r.value["communication_state"]
                 == Int(o["communication_state"].i % 0x10000)
              && "transceiver_information" in r.value && r.value["transceiver_information"] == Int(0)
  {
    AisExact(o, false);
    AisFields(false);
    p := NumbersRun(AIS, o, o0, false);
    CommunicationKept(o, o0);
  }

  lemma CommunicationKept(o: Object, o0: Object)
    requires AisTyped(o)
    ensures AllNumbers(AIS) && AllTyped(AIS, o)
    ensures var o1 := DecodedFields(AIS, AllSlotVals(AIS, o, false), None, o0);
            && "communication_state" in o1 && o1["communication_state"] == Int(o["communication_state"].i % 0x10000)
            && "transceiver_information" in o1 && o1["transceiver_information"] == Int(0)
  {
    AisExact(o, false);
    AisFields(false);
    var r := [COMMUNICATION] + AIS_TAIL;
    var x, y, z := AllSlotVals(AIS_HEAD, o, false), AllSlotVals([COMMUNICATION], o, false),
        AllSlotVals(AIS_TAIL, o, false);
    SlotValsConcat(AIS_HEAD, r, o, false);
    SlotValsConcat([COMMUNICATION], AIS_TAIL, o, false);
    DecodedConcat(AIS_HEAD, r, x, y + z, None, o0);
    var o1 := DecodedFields(AIS_HEAD, x, None, o0);
    DecodedConcat([COMMUNICATION], AIS_TAIL, y, z, None, o1);
    OneField(o, o1);
    TailNames();
    TailNamesDistinct();
    DistinctParts(COMMUNICATION_NAMES, TAIL_NAMES);
    DecodedFieldsOutside(AIS_TAIL, z, None, DecodedFields([COMMUNICATION], y, None, o1));
  }

  lemma OneField(o: Object, o1: Object)
    requires AisTyped(o)
    ensures COMMUNICATION in [COMMUNICATION] && Typed(COMMUNICATION, o)
    ensures var o2 := DecodedFields([COMMUNICATION], AllSlotVals([COMMUNICATION], o, false), None, o1);
            && "communication_state" in o2 && o2["communication_state"] == Int(o["communication_state"].i % 0x10000)
            && "transceiver_information" in o2 && o2["transceiver_information"] == Int(0)
  {
    BitFieldsWellFormed();
    CommunicationExact(o, false);
    var y := SlotVals(COMMUNICATION, o, false);
    assert [COMMUNICATION][1..] == [] && AllSlotVals([COMMUNICATION], o, false) == y + [] == y;
    assert DecodedFields([COMMUNICATION], y, None, o1)
        == DecodedField(COMMUNICATION, Joined(COMMUNICATION, y), None, o1);
    CommunicationWord(o);
    CommunicationDecoded(Joined(COMMUNICATION, y), o1);
    Powers();
    assert o["communication_state"].i % 0x10000 % 0x80000 == o["communication_state"].i % 0x10000;
  }
}

/**
 Messages of numbers on the wire: which byte carries which digit of which value, and what
 is made of any bytes that are received.
 */
module PgnWire {
  import opened Bits
  import opened Wrappers
  import opened Struct
  import opened PgnFields
  import opened PgnIr
  import opened PgnValues
  import opened PgnDecode
  import opened PgnExact
  import opened PgnRoundTrip
  import opened PgnCompiler
  import opened PgnNumbers
  import opened PgnMisaligned
  import opened PgnRanges
  import opened PgnThreeBytes

  /**
   What a compiled message of numbers puts into its payload: slot after slot, each least
   significant byte first.
   */
  lemma NumbersOnWire(fs: seq<Field>, obj: Object, corrected: bool, k: nat, i: nat, at: nat)
    returns (p: Program)
    requires fs != [] && Emittable(fs, corrected) && AllTyped(fs, obj)
    requires k < SlotCount(fs) && i < FormatOf(fs, corrected)[k].width
    requires at == CalcSize(FormatOf(fs, corrected)[..k]) + i
    ensures Compile(fs, None, false, corrected) == Ok(p)
    ensures EncodeFixed(p, obj).Some? ==>
              var payload := EncodeFixed(p, obj).value;
              at < |payload| && payload[at] == AllSlotVals(fs, obj, corrected)[k] / Pow2(8 * i) % 256
  {
    p := NumbersRun(fs, obj, obj, corrected);
    if EncodeFixed(p, obj).Some? {
      PackedBytes(FormatOf(fs, corrected), AllSlotVals(fs, obj, corrected), k, i, at);
    }
  }

  /** Any bytes of the right number are decoded, from the slots they make. */
  lemma NumbersRead(fs: seq<Field>, payload: seq<byte>, obj0: Object, corrected: bool) returns (p: Program)
    requires fs != [] && Emittable(fs, corrected) && |payload| == CalcSize(FormatOf(fs, corrected))
    ensures Compile(fs, None, false, corrected) == Ok(p)
    ensures DecodeFixed(p, payload, obj0)
         == Some(DecodedFields(fs, Unpack(FormatOf(fs, corrected), payload), None, obj0))
  {
    var e;
    p, e := NumbersCompile(fs, corrected);
    RunDecodeNumbers(fs, p, Unpack(FormatOf(fs, corrected), payload), payload, obj0, corrected);
  }

  /** The slot of a field behind others. */
  lemma SlotOf(pre: seq<Field>, f: Field, post: seq<Field>, o: Object)
    requires AllNumbers(pre) && AllNumbers(post) && f.Number() && Slots(f) == 1 && AllNumbers(pre + ([f] + post))
    requires AllTyped(pre, o) && AllTyped([f] + post, o) && AllTyped(pre + ([f] + post), o)
    ensures var fs, k := pre + ([f] + post), SlotCount(pre);
            && k < SlotCount(fs) && k < |FormatOf(fs, false)| && FormatOf(fs, false)[..k] == FormatOf(pre, false)
            && FormatOf(fs, false)[k] == Code(ByteLength(f), Signed(f))
            && f in [f] + post && AllSlotVals(fs, o, false)[k] == Raw(f, o)
  {
    assert ([f] + post)[1..] == post && ([f] + post)[0] == f;
    SlotsConcat(pre, [f] + post);
    FormatConcat(pre, [f] + post);
    SlotValsConcat(pre, [f] + post, o, false);
  }

  /**
   Sub-field i of a bit-field in one slot: in the number its bytes make, least significant
   first, it is the bits from its offset on, and a reserved one is all ones.
   */
  lemma BitsOnWire(pre: seq<Field>, f: Field, post: seq<Field>, o: Object, i: nat, at: nat) returns (p: Program)
    requires Emittable(pre + ([f] + post), false) && AllTyped(pre + ([f] + post), o)
    requires AllNumbers(pre) && AllNumbers(post) && AllTyped(pre, o) && AllTyped([f] + post, o)
    requires f.BitField? && WellFormed(f) && Slots(f) == 1 && i < |f.subs| && at == CalcSize(FormatOf(pre, false))
    ensures Compile(pre + ([f] + post), None, false, false) == Ok(p)
    ensures EncodeFixed(p, o).Some? ==>
              var payload, s := EncodeFixed(p, o).value, f.subs[i];
              && at + ByteLength(f) <= |payload| && (s.name.Some? ==> s.name.value in o && o[s.name.value].Int?)
              && PlaceValue(payload, at, ByteLength(f)) / Pow2(s.offset) % Pow2(s.width)
                 == if s.name.Some? then o[s.name.value].i % Pow2(s.width) else Pow2(s.width) - 1
  {
    var fs := pre + ([f] + post);
    SlotOf(pre, f, post, o);
    p := NumbersRun(fs, o, o, false);
    assert f.subs[i] in f.subs;
    if EncodeFixed(p, o).Some? {
      PackUnpack(FormatOf(fs, false), AllSlotVals(fs, o, false));
      UnpackedValue(FormatOf(fs, false), EncodeFixed(p, o).value, SlotCount(pre), at);
      SubValueOfWord(f.subs, i, o);
    }
  }

  // ---- PGN 127751, byte for byte ----

  const DC_FORMAT: seq<Code> :=
    [Code(1, false), Code(1, false), Code(2, false), Code(2, true), Code(1, true), Code(1, false)]

  function RawOf(v: Value, invalid: nat): int { if v.Float? then v.raw else invalid }

  /** The values of the six slots. */
  lemma DcSlotVals(o: Object)
    requires DcTyped(o)
    ensures Emittable(DC, false) && AllTyped(DC, o)
    ensures var voltage, current := RawOf(o["voltage"], 0xffff), RawOf(o["current"], 0x7fffff);
            AllSlotVals(DC, o, false)
            == [o["sequence_id"].i] + ([o["connection_number"].i]
               + ([voltage] + ([current % 0x10000, current / 0x10000 % 0x100] + ([0xff] + []))))
  {
    DcExact(o, false);
    DcCode();
    Invalids();
    var r3 := [RESERVED] + [];
    var r2 := [CURRENT] + r3;
    var r1 := [UnsignedFloat("voltage")] + r2;
    var r0 := [Unsigned("connection_number", 1)] + r1;
    assert DC == [Unsigned("sequence_id", 1)] + r0;
    FirstSlotVals(Unsigned("sequence_id", 1), r0, o, false);
    FirstSlotVals(Unsigned("connection_number", 1), r1, o, false);
    FirstSlotVals(UnsignedFloat("voltage"), r2, o, false);
    FirstSlotVals(CURRENT, r3, o, false);
    FirstSlotVals(RESERVED, [], o, false);
  }

  /** Where the slots begin. */
  lemma DcOffsets()
    ensures CalcSize(DC_FORMAT) == 8 && CalcSize(DC_FORMAT[..0]) == 0 && CalcSize(DC_FORMAT[..1]) == 1
    ensures CalcSize(DC_FORMAT[..2]) == 2 && CalcSize(DC_FORMAT[..3]) == 4
    ensures CalcSize(DC_FORMAT[..4]) == 6 && CalcSize(DC_FORMAT[..5]) == 7
  {
    var one, two: seq<Code> := [Code(1, false)], [Code(2, false)];
    assert DC_FORMAT[..2] == DC_FORMAT[..1] + one && DC_FORMAT[..3] == DC_FORMAT[..2] + two;
    assert DC_FORMAT[..4] == DC_FORMAT[..3] + [Code(2, true)] && DC_FORMAT[..5] == DC_FORMAT[..4] + [Code(1, true)];
    assert DC_FORMAT == DC_FORMAT[..5] + one && DC_FORMAT[..1] == one;
    CalcSizeConcat(DC_FORMAT[..1], one);
    CalcSizeConcat(DC_FORMAT[..2], two);
    CalcSizeConcat(DC_FORMAT[..3], [Code(2, true)]);
    CalcSizeConcat(DC_FORMAT[..4], [Code(1, true)]);
    CalcSizeConcat(DC_FORMAT[..5], one);
  }

  lemma SlotInRange(fmt: seq<Code>, vals: seq<int>, k: nat)
    requires Pack(fmt, vals).Some? && k < |fmt|
    ensures |vals| == |fmt| && InRange(fmt[k], vals[k])
  {
    PackSucceeds(fmt, vals);
  }

  lemma SlotRange(c: Code, v: int)
    requires InRange(c, v) && !c.signed
    ensures c.width == 1 ==> v % 256 == v
    ensures c.width == 2 ==> v / 256 % 256 == v / 256
  {
    Powers();
  }

  lemma ByteSlot(fmt: seq<Code>, vals: seq<int>, b: seq<byte>, k: nat, at: nat)
    requires Pack(fmt, vals) == Some(b) && k < |fmt| && fmt[k].width == 1 && at == CalcSize(fmt[..k])
    ensures |vals| == |fmt| && at < |b| && b[at] == vals[k] % 256
    ensures !fmt[k].signed ==> b[at] == vals[k]
  {
    LowByteAt(fmt, vals, b, k, at);
    SlotInRange(fmt, vals, k);
    if !fmt[k].signed {
      SlotRange(fmt[k], vals[k]);
    }
  }

  lemma LowByteAt(fmt: seq<Code>, vals: seq<int>, b: seq<byte>, k: nat, at: nat)
    requires Pack(fmt, vals) == Some(b) && k < |fmt| && fmt[k].width > 0 && at == CalcSize(fmt[..k])
    ensures |vals| == |fmt| && at < |b| && b[at] == vals[k] % 256
  {
    PackedBytes(fmt, vals, k, 0, at);
    Digits(vals[k]);
  }

  lemma Digits(v: int)
    ensures v / Pow2(8 * 0) % 256 == v % 256 && v / Pow2(8 * 1) % 256 == v / 256 % 256
  {
    assert Pow2(0) == 1 && Pow2(8) == 256;
  }

  lemma WordSlot(fmt: seq<Code>, vals: seq<int>, b: seq<byte>, k: nat, at: nat)
    requires Pack(fmt, vals) == Some(b) && k < |fmt| && fmt[k].width == 2 && at == CalcSize(fmt[..k])
    ensures |vals| == |fmt| && at + 1 < |b| && b[at] == vals[k] % 256 && b[at + 1] == vals[k] / 256 % 256
    ensures !fmt[k].signed ==> b[at + 1] == vals[k] / 256
  {
    LowByteAt(fmt, vals, b, k, at);
    HighByteAt(fmt, vals, b, k, at + 1);
    SlotInRange(fmt, vals, k);
    if !fmt[k].signed {
      SlotRange(fmt[k], vals[k]);
    }
  }

  lemma HighByteAt(fmt: seq<Code>, vals: seq<int>, b: seq<byte>, k: nat, at: nat)
    requires Pack(fmt, vals) == Some(b) && k < |fmt| && fmt[k].width > 1 && at == CalcSize(fmt[..k]) + 1
    ensures |vals| == |fmt| && at < |b| && b[at] == vals[k] / 256 % 256
  {
    PackedBytes(fmt, vals, k, 1, at);
    Digits(vals[k]);
  }

  lemma DcLength(vals: seq<int>, b: seq<byte>)
    requires Pack(DC_FORMAT, vals) == Some(b)
    ensures |vals| == 6 && |b| == 8
  {
    PackSucceeds(DC_FORMAT, vals);
    PackUnpack(DC_FORMAT, vals);
    DcOffsets();
  }

  lemma DcPackedFront(vals: seq<int>, b: seq<byte>)
    requires Pack(DC_FORMAT, vals) == Some(b) && |vals| == 6 && |b| == 8
    ensures b[0] == vals[0] && b[1] == vals[1] && b[2] == vals[2] % 256 && b[3] == vals[2] / 256
  {
    DcOffsets();
    ByteSlot(DC_FORMAT, vals, b, 0, 0);
    ByteSlot(DC_FORMAT, vals, b, 1, 1);
    WordSlot(DC_FORMAT, vals, b, 2, 2);
  }

  lemma DcPacked(vals: seq<int>, b: seq<byte>)
    requires Pack(DC_FORMAT, vals) == Some(b)
    ensures |vals| == 6 && |b| == 8
    ensures b[0] == vals[0] && b[1] == vals[1] && b[2] == vals[2] % 256 && b[3] == vals[2] / 256
    ensures b[4] == vals[3] % 256 && b[5] == vals[3] / 256 % 256 && b[6] == vals[4] % 256 && b[7] == vals[5]
  {
    DcLength(vals, b);
    DcPackedFront(vals, b);
    DcPackedBack(vals, b);
  }

  lemma DcPackedBack(vals: seq<int>, b: seq<byte>)
    requires Pack(DC_FORMAT, vals) == Some(b) && |vals| == 6 && |b| == 8
    ensures b[4] == vals[3] % 256 && b[5] == vals[3] / 256 % 256 && b[6] == vals[4] % 256 && b[7] == vals[5]
  {
    DcOffsets();
    WordSlot(DC_FORMAT, vals, b, 3, 4);
    ByteSlot(DC_FORMAT, vals, b, 4, 6);
    ByteSlot(DC_FORMAT, vals, b, 5, 7);
  }

  /**
   The payload of PGN 127751: two bytes, the voltage and the current, each with the least
   significant byte first, and a reserved byte.
   */
  lemma DcOnWire(o: Object) returns (p: Program)
    requires DcTyped(o)
    ensures Compile(DC, None, false, false) == Ok(p)
    ensures EncodeFixed(p, o).Some? ==>
              var voltage, current := RawOf(o["voltage"], 0xffff), RawOf(o["current"], 0x7fffff);
              var b := EncodeFixed(p, o).value;
              && |b| == 8 && b[0] == o["sequence_id"].i && b[1] == o["connection_number"].i
              && b[2] == voltage % 256 && b[3] == voltage / 256
              && b[4] == current % 256 && b[5] == current / 256 % 256 && b[6] == current / 0x10000 % 256
              && b[7] == 0xff
  {
    var vals := DcSlots(o);
    p := NumbersRun(DC, o, o, false);
    if EncodeFixed(p, o).Some? {
      var b, current := EncodeFixed(p, o).value, RawOf(o["current"], 0x7fffff);
      DcPacked(vals, b);
      LowDigits(current);
      assert b[6] == current / 0x10000 % 256;
    }
  }

  lemma DcSlots(o: Object) returns (vals: seq<int>)
    requires DcTyped(o)
    ensures Emittable(DC, false) && AllTyped(DC, o) && FormatOf(DC, false) == DC_FORMAT
    ensures vals == AllSlotVals(DC, o, false) && |vals| == 6
    ensures var current := RawOf(o["current"], 0x7fffff);
            && vals[0] == o["sequence_id"].i && vals[1] == o["connection_number"].i
            && vals[2] == RawOf(o["voltage"], 0xffff)
            && vals[3] == current % 0x10000 && vals[4] == current / 0x10000 % 0x100 && vals[5] == 0xff
  {
    DcSlotVals(o);
    DcEncodeCode();
    vals := AllSlotVals(DC, o, false);
  }

  lemma LowDigits(x: int)
    ensures x % 0x10000 % 256 == x % 256 && x % 0x10000 / 256 % 256 == x / 256 % 256
    ensures x / 0x10000 % 0x100 % 256 == x / 0x10000 % 256
  {
    assert x == x / 0x10000 * 0x10000 + x % 0x10000;
    assert x % 0x10000 / 256 == x / 256 - x / 0x10000 * 256;
  }

  /** `check_convert_float`: the invalid value, and -1, mean not available. */
  function Available(raw: int, invalid: nat): Value { if raw == invalid || raw == -1 then NaN else Float(raw) }

  function Signed16(u: nat): int { if u < 0x8000 then u else u - 0x10000 }

  function Signed8(u: nat): int { if u < 0x80 then u else u - 0x100 }

  lemma OneDigit(b: seq<byte>, at: nat)
    requires at < |b|
    ensures PlaceValue(b, at, 1) == b[at]
  {
    assert PlaceValue(b, at, 0) == 0 && Pow2(0) == 1;
  }

  function Word16(low: byte, high: byte): nat { low + (high as int) * 256 }

  lemma TwoDigitsAt(b: seq<byte>, at: nat)
    requires at + 1 < |b|
    ensures PlaceValue(b, at, 2) == Word16(b[at], b[at + 1])
  {
    OneDigit(b, at);
    Powers();
  }

  lemma ByteRead(fmt: seq<Code>, b: seq<byte>, k: nat, at: nat)
    requires |b| == CalcSize(fmt) && k < |fmt| && fmt[k].width == 1 && at == CalcSize(fmt[..k])
    ensures at < |b| && Unpack(fmt, b)[k] == if fmt[k].signed then Signed8(b[at]) else b[at]
  {
    UnpackedValue(fmt, b, k, at);
    OneDigit(b, at);
    Powers();
  }

  lemma WordRead(fmt: seq<Code>, b: seq<byte>, k: nat, at: nat)
    requires |b| == CalcSize(fmt) && k < |fmt| && fmt[k].width == 2 && at == CalcSize(fmt[..k])
    ensures at + 1 < |b|
    ensures var u := Word16(b[at], b[at + 1]); Unpack(fmt, b)[k] == if fmt[k].signed then Signed16(u) else u
  {
    UnpackedValue(fmt, b, k, at);
    TwoDigitsAt(b, at);
    Powers();
  }

  lemma DcUnpacked(b: seq<byte>)
    requires |b| == 8
    ensures CalcSize(DC_FORMAT) == 8
    ensures var v := Unpack(DC_FORMAT, b);
            && v[0] == b[0] && v[1] == b[1] && v[2] == Word16(b[2], b[3])
            && v[3] == Signed16(Word16(b[4], b[5])) && v[4] == Signed8(b[6])
  {
    DcOffsets();
    ByteRead(DC_FORMAT, b, 0, 0);
    ByteRead(DC_FORMAT, b, 1, 1);
    WordRead(DC_FORMAT, b, 2, 2);
    WordRead(DC_FORMAT, b, 3, 4);
    ByteRead(DC_FORMAT, b, 4, 6);
  }

  /** An object of PGN 127751 with these raw values. */
  function DcObject(o: Object, sequence: int, connection: int, voltage: int, current: int): Object {
    o["sequence_id" := Int(sequence)]["connection_number" := Int(connection)]
     ["voltage" := Available(voltage, 0xffff)]["current" := Available(current, 0x7fffff)]
  }

  const DC_TAIL: seq<Field> := [UnsignedFloat("voltage")] + ([CURRENT] + ([RESERVED] + []))

  lemma DcTailDecoded(v: seq<int>, o: Object)
    requires |v| == 4
    ensures AllNumbers(DC_TAIL) && SlotCount(DC_TAIL) == 4
    ensures DecodedFields(DC_TAIL, v, None, o)
         == o["voltage" := Available(v[0], 0xffff)]["current" := Available(v[1] + v[2] * 0x10000, 0x7fffff)]
  {
    DcMiddle();
    Invalids();
    var o3 := o["voltage" := Available(v[0], 0xffff)];
    var o4 := o3["current" := Available(v[1] + v[2] * 0x10000, 0x7fffff)];
    FirstDecoded(UnsignedFloat("voltage"), [CURRENT] + ([RESERVED] + []), v, None, o);
    FirstDecoded(CURRENT, [RESERVED] + [], v[1..], None, o3);
    FirstDecoded(RESERVED, [], v[1..][2..], None, o4);
  }

  lemma DcShape()
    ensures AllNumbers(DC) && Emittable(DC, false) && FormatOf(DC, false) == DC_FORMAT && SlotCount(DC) == 6
  {
    DcEncodeCode();
    var o: Object := map["sequence_id" := Int(0), "connection_number" := Int(0), "voltage" := NaN, "current" := NaN];
    DcExact(o, false);
  }

  /** What decoding does to the object, slot values given. */
  lemma DcDecoded(v: seq<int>, o0: Object, sequence: int, connection: int, voltage: int, current: int)
    requires |v| == 6 && AllNumbers(DC) && SlotCount(DC) == 6
    requires v[0] == sequence && v[1] == connection && v[2] == voltage && v[3] + v[4] * 0x10000 == current
    ensures DecodedFields(DC, v, None, o0) == DcObject(o0, sequence, connection, voltage, current)
  {
    DcMiddle();
    var first, r0 := Unsigned("sequence_id", 1), [Unsigned("connection_number", 1)] + DC_TAIL;
    assert DC == [first] + r0;
    var o1 := o0["sequence_id" := Int(sequence)];
    FirstDecoded(first, r0, v, None, o0);
    FirstDecoded(Unsigned("connection_number", 1), DC_TAIL, v[1..], None, o1);
    assert v[1..][1..] == v[2..];
    DcTailDecoded(v[2..], o1["connection_number" := Int(connection)]);
  }

  /**
   Any eight bytes received as PGN 127751: what becomes of them, least significant byte
   first, the current from two signed slots.
   */
  lemma DcRead(b: seq<byte>, o0: Object) returns (p: Program)
    requires |b| == 8
    ensures Compile(DC, None, false, false) == Ok(p)
    ensures DecodeFixed(p, b, o0)
         == Some(DcObject(o0, b[0], b[1], Word16(b[2], b[3]), Signed16(Word16(b[4], b[5])) + Signed8(b[6]) * 0x10000))
  {
    DcShape();
    DcUnpacked(b);
    p := NumbersRead(DC, b, o0, false);
    DcDecoded(Unpack(DC_FORMAT, b), o0, b[0], b[1], Word16(b[2], b[3]),
              Signed16(Word16(b[4], b[5])) + Signed8(b[6]) * 0x10000);
  }
}

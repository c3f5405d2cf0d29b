/**
 Field definitions of a PGN as the meta model receives them: bit-fields already
 grouped from their sub-fields, scalars, fixed-length and variable-length strings.
 */
module PgnFields {
  import opened Bits
  import opened Wrappers
  import opened Struct

  /** One sub-field of a bit-field; a sub-field without a key is reserved. */
  datatype Sub = Sub(name: Option<string>, width: nat, offset: nat)

  datatype Field =
    | BitField(subs: seq<Sub>)
    | Scalar(name: Option<string>, bits: nat, signed: bool, isFloat: bool)
    | Text(name: Option<string>, length: nat)
    | VarText(name: Option<string>)
  {
    /** decode_method == FIXED_LENGTH_NUMBER */
    predicate Number() { BitField? || Scalar? }
  }

  /** The field sets of a PGN: its own fields, then possibly one repeated set counted by `count`. */
  datatype Repeat = Repeat(count: string, fields: seq<Field>)
  datatype FieldSet = FieldSet(fields: seq<Field>, repeat: Option<Repeat>)

  function BitLength(subs: seq<Sub>): nat {
    if subs == [] then 0 else BitLength(subs[..|subs| - 1]) + subs[|subs| - 1].width
  }

  /** BitField.add_field only accepts a sub-field that starts where the previous one ends. */
  predicate Contiguous(subs: seq<Sub>) {
    forall i :: 0 <= i < |subs| ==> subs[i].offset == BitLength(subs[..i])
  }

  function ByteLength(f: Field): nat
    requires f.Number()
  {
    match f
    case BitField(subs) => (BitLength(subs) + 7) / 8
    case Scalar(_, bits, _, _) => (bits + 7) / 8
  }

  /** The lengths the struct format tables know. */
  predicate SupportedLength(n: nat) { n == 1 || n == 2 || n == 3 || n == 4 || n == 8 }

  /** What the field definition classes guarantee of a field they deliver. */
  predicate WellFormed(f: Field) {
    match f
    case BitField(subs) => subs != [] && Contiguous(subs) && SupportedLength(ByteLength(f))
                           && forall s :: s in subs ==> s.width > 0
    case Scalar(_, bits, signed, isFloat) => SupportedLength(ByteLength(f)) && (signed || isFloat || bits % 8 == 0)
    case Text(_, length) => length > 0
    case VarText(_) => true
  }

  predicate Signed(f: Field) { f.Scalar? && f.signed }

  /**
   Struct slots of a numeric field. Three bytes take two slots, "HB" or "hb"; the
   corrected emission reads the low half of a signed one unsigned, "Hb".
   */
  function Format(f: Field, corrected: bool): (fmt: seq<Code>)
    requires f.Number()
    ensures |fmt| == Slots(f)
  {
    var n, s := ByteLength(f), Signed(f);
    if n == 3 then [Code(2, s && !corrected), Code(1, s)] else [Code(n, s)]
  }

  function Slots(f: Field): nat
    requires f.Number()
  {
    if ByteLength(f) == 3 then 2 else 1
  }

  function ScalarInvalid(bits: nat, signed: bool): nat {
    if signed && bits > 0 then Pow2(bits - 1) - 1 else Pow2(bits) - 1
  }

  /** The attribute names a field defines, in order. */
  function Names(f: Field): seq<string> {
    match f
    case BitField(subs) => SubNames(subs)
    case _ => if f.name.Some? then [f.name.value] else []
  }

  function SubNames(subs: seq<Sub>): seq<string> {
    if subs == [] then []
    else (if subs[0].name.Some? then [subs[0].name.value] else []) + SubNames(subs[1..])
  }

  function AllNames(fs: seq<Field>): seq<string> {
    if fs == [] then [] else Names(fs[0]) + AllNames(fs[1..])
  }

  predicate Distinct<T(==)>(s: seq<T>) {
    forall i, j :: 0 <= i < j < |s| ==> s[i] != s[j]
  }

  function SlotCount(fs: seq<Field>): nat
    requires forall f :: f in fs ==> f.Number()
  {
    if fs == [] then 0 else Slots(fs[0]) + SlotCount(fs[1..])
  }

  function FormatOf(fs: seq<Field>, corrected: bool): (fmt: seq<Code>)
    requires forall f :: f in fs ==> f.Number()
    ensures |fmt| == SlotCount(fs)
  {
    if fs == [] then [] else Format(fs[0], corrected) + FormatOf(fs[1..], corrected)
  }
}

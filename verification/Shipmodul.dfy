/**
 The Shipmodul $MXPGN sentence of a single frame: PGN, a packed attribute, and the data
 bytes last first, in hexadecimal.
 */
module Shipmodul {
  import opened Bits
  import opened Struct
  import opened WireIds

  // ---- the attribute ----

  function Attribute(prio: nat, length: nat, da: nat): int {
    Or(Or(Or(0x8000, Shl(prio, 12)), Shl(length, 8)), da)
  }

  lemma AttributeIs(prio: nat, length: nat, da: nat)
    requires prio < 8 && length < 16 && da < 256
    ensures Attribute(prio, length, da) == da + length * 0x100 + prio * 0x1000 + 0x8000
  {
    Powers();
    OrParts(0x8000, prio, length, da, Shl(prio, 12), Shl(length, 8));
  }

  lemma OrParts(send: nat, prio: nat, length: nat, da: nat, p: nat, l: nat)
    requires prio < 8 && length < 16 && da < 256
    requires send == 0x8000 && p == prio * 0x1000 && l == length * 0x100
    ensures Or(Or(Or(send, p), l), da) == send + p + l + da
  {
    OrPriority(send, p);
    OrLength(send + p, l, 8 + prio);
    OrDestination(send + p + l, da, length + (8 + prio) * 16);
  }

  lemma OrPriority(send: nat, p: nat)
    requires send == 0x8000 && p < 0x8000
    ensures Or(send, p) == send + p
  {
    Powers();
    OrBelow(p, 1, 15, send);
  }

  lemma OrLength(above: nat, l: nat, high: nat)
    requires above == high * 0x1000 && l < 0x1000
    ensures Or(above, l) == above + l
  {
    Powers();
    OrBelow(l, high, 12, above);
  }

  lemma OrDestination(above: nat, da: nat, high: nat)
    requires above == high * 0x100 && da < 0x100
    ensures Or(above, da) == above + da
  {
    Powers();
    OrBelow(da, high, 8, above);
  }

  /** OR-ing a value in below the bits that are there. */
  lemma OrBelow(low: nat, high: nat, k: nat, shifted: nat)
    requires low < Pow2(k) && shifted == high * Pow2(k)
    ensures Or(shifted, low) == shifted + low
  {
    OrCommutes(shifted, low);
    OrDisjoint(low, high, k);
  }

  lemma AttributeFields(prio: nat, length: nat, da: nat, attribute: nat)
    requires prio < 8 && length < 16 && da < 256 && attribute == da + length * 0x100 + prio * 0x1000 + 0x8000
    ensures attribute % 0x100 == da && attribute / 0x100 % 16 == length && attribute / 0x1000 % 8 == prio
            && attribute < 0x1_0000
  {
    assert attribute / 0x100 == length + (8 + prio) * 16;
    assert attribute / 0x1000 == 8 + prio;
  }

  lemma AttributeMasks(attribute: nat)
    ensures And(Shr(attribute, 12), 7) == attribute / 0x1000 % 8
    ensures And(Shr(attribute, 8), 0xF) == attribute / 0x100 % 16
    ensures And(attribute, 0xFF) == attribute % 0x100
  {
    Powers();
    ThreeBits(attribute / 0x1000);
    MaskIsRemainder(attribute / 0x100, 4);
    LowByte(attribute);
  }

  // ---- the data ----

  function Reversed(s: seq<nat>): (r: seq<nat>)
    ensures |r| == |s|
  {
    if s == [] then [] else Reversed(s[1..]) + [s[0]]
  }

  lemma {:induction false} ReversedAppend(s: seq<nat>, b: nat)
    ensures Reversed(s + [b]) == [b] + Reversed(s)
  {
    if s == [] {
      assert [b][1..] == [];
    } else {
      assert (s + [b])[1..] == s[1..] + [b];
      ReversedAppend(s[1..], b);
    }
  }

  lemma {:induction false} ReversedAt(s: seq<nat>, i: nat)
    requires i < |s|
    ensures Reversed(s)[i] == s[|s| - 1 - i]
  {
    if i < |s| - 1 {
      ReversedAt(s[1..], i);
    }
  }

  lemma {:induction false} ReversedTwice(s: seq<nat>)
    ensures Reversed(Reversed(s)) == s
  {
    if s != [] {
      ReversedTwice(s[1..]);
      ReversedAppend(Reversed(s[1..]), s[0]);
    }
  }

  /** bytes.hex() */
  function HexBytes(b: seq<nat>): Digits {
    if b == [] then [] else [b[0] / 16, b[0] % 16] + HexBytes(b[1..])
  }

  lemma {:induction false} HexBytesAt(b: seq<nat>, i: nat)
    requires i < |b|
    ensures |HexBytes(b)| == 2 * |b|
    ensures HexBytes(b)[2 * i] == b[i] / 16 && HexBytes(b)[2 * i + 1] == b[i] % 16
  {
    if b[1..] != [] {
      HexBytesAt(b[1..], if i == 0 then 0 else i - 1);
    }
  }

  /** The data of a sentence, digit by digit: byte k of the payload stands k bytes from the end. */
  lemma DataDigits(payload: seq<byte>, k: nat)
    requires k < |payload|
    ensures |HexBytes(Reversed(payload))| == 2 * |payload|
    ensures var at := 2 * (|payload| - 1 - k);
            && HexBytes(Reversed(payload))[at] == payload[k] / 16
            && HexBytes(Reversed(payload))[at + 1] == payload[k] % 16
  {
    DigitsOfReversed(payload, Reversed(payload), |payload| - 1 - k);
  }

  lemma DigitsOfReversed(payload: seq<byte>, r: seq<nat>, i: nat)
    requires r == Reversed(payload) && i < |payload|
    ensures |HexBytes(r)| == 2 * |payload|
    ensures HexBytes(r)[2 * i] == payload[|payload| - 1 - i] / 16
    ensures HexBytes(r)[2 * i + 1] == payload[|payload| - 1 - i] % 16
  {
    ReversedAt(payload, i);
    HexBytesAt(r, i);
  }

  /** bytearray.fromhex() of digits below 16 */
  function FromHex(d: Digits): seq<nat> {
    if |d| < 2 then [] else [d[0] * 16 + d[1]] + FromHex(d[2..])
  }

  lemma {:induction false} FromHexOfBytes(b: seq<nat>)
    ensures FromHex(HexBytes(b)) == b
  {
    if b != [] {
      assert HexBytes(b)[2..] == HexBytes(b[1..]);
      FromHexOfBytes(b[1..]);
    }
  }

  // ---- the sentence ----

  datatype Sentence = Sentence(pgn: Digits, attribute: Digits, data: Digits)

  predicate Single(pgn: nat, prio: nat, da: nat, payload: seq<byte>) {
    pgn < 0x20000 && prio < 8 && da < 256 && |payload| <= 8
  }

  function Encoded(pgn: nat, prio: nat, da: nat, payload: seq<byte>): Sentence {
    Sentence(Hex(pgn, 6), Hex(Unsigned(Attribute(prio, |payload|, da)), 4), HexBytes(Reversed(payload)))
  }

  /** What mxpgn_decode reads: PGN and destination, priority, length, source, data. */
  datatype Frame = Frame(pgn: int, da: int, prio: int, length: int, sa: int, data: seq<nat>)

  function Decode(s: Sentence): Frame {
    var attribute := ParseHex(s.attribute);
    var (pgn, da) := Adjust(ParseHex(s.pgn));
    var data := FromHex(s.data);
    Frame(pgn, da, And(Shr(attribute, 12), 7), And(Shr(attribute, 8), 0xF), And(attribute, 0xFF), Reversed(data))
  }

  lemma ParsedBack(n: nat, k: nat)
    requires n < Power16(k)
    ensures ParseHex(Hex(n, k)) == n
  {
    ParseOfHex(n, k);
  }

  /**
   A sentence that is sent reads back as its PGN split by PDU format, priority, length and
   data in order; the low byte of the attribute is the destination when it is written, and
   the source when it is read.
   */
  lemma SentenceRoundTrip(pgn: nat, prio: nat, da: nat, payload: seq<byte>)
    requires Single(pgn, prio, da, payload)
    ensures var f := Decode(Encoded(pgn, prio, da, payload));
            && f.prio == prio && f.length == |payload| && f.sa == da && f.data == payload
            && (f.pgn, f.da) == if Addressed(pgn) then (pgn - pgn % 256, pgn % 256) else (pgn, 255)
  {
    AttributeReadBack(prio, |payload|, da);
    assert Power16(6) == 0x100_0000;
    ParsedBack(pgn, 6);
    DataReadBack(payload);
    AdjustIs(pgn);
  }

  lemma AttributeReadBack(prio: nat, length: nat, da: nat)
    requires prio < 8 && length < 16 && da < 256
    ensures var attribute := ParseHex(Hex(Unsigned(Attribute(prio, length, da)), 4));
            && And(Shr(attribute, 12), 7) == prio && And(Shr(attribute, 8), 0xF) == length && And(attribute, 0xFF) == da
  {
    var attribute := da + length * 0x100 + prio * 0x1000 + 0x8000;
    AttributeIs(prio, length, da);
    AttributeFields(prio, length, da, attribute);
    assert Power16(4) == 0x1_0000;
    ParsedBack(attribute, 4);
    AttributeMasks(attribute);
  }

  lemma DataReadBack(payload: seq<byte>)
    ensures Reversed(FromHex(HexBytes(Reversed(payload)))) == payload
  {
    FromHexOfBytes(Reversed(payload));
    ReversedTwice(payload);
  }

  /** encode: the payload goes into an eight-byte buffer from its end. */
  method Encode(pgn: nat, prio: nat, da: nat, payload: seq<byte>) returns (s: Sentence)
    requires Single(pgn, prio, da, payload)
    ensures s == Encoded(pgn, prio, da, payload)
  {
    var rdata := new byte[8](_ => 0);
    var id := 7;
    for i := 0 to |payload|
      invariant id == 7 - i && rdata[id + 1..] == Reversed(payload[..i])
    {
      ReversedAppend(payload[..i], payload[i]);
      assert payload[..i + 1] == payload[..i] + [payload[i]];
      rdata[id] := payload[i];
      id := id - 1;
      assert rdata[id + 1..] == [payload[i]] + rdata[id + 2..];
    }
    assert payload[..|payload|] == payload;
    s := Sentence(Hex(pgn, 6), Hex(Unsigned(Attribute(prio, |payload|, da)), 4), HexBytes(rdata[id + 1..]));
  }
}

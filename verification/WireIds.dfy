/**
 Identifiers on the wire: the CAN arbitration id (section 5.2 of SAE J1939-21), the
 eight-digit id of Yacht Devices frames, and the Shipmodul $MXPGN sentence.
 */
module WireIds {
  import opened Bits

  // ---- masks ----

  lemma AndEven(x: int, h: nat)
    requires h > 0
    ensures And(x, 2 * h) == 2 * And(x / 2, h)
  {
    assert (2 * h) % 2 == 0 && (2 * h) / 2 == h;
  }

  lemma Doubled(y: int, p: int)
    ensures 2 * (y * p) == y * (2 * p)
  {
  }

  lemma {:induction false} AndShifted(x: int, m: nat, k: nat)
    requires m > 0
    ensures And(x, m * Pow2(k)) == And(x / Pow2(k), m) * Pow2(k)
    decreases k
  {
    if k > 0 {
      var p, h := Pow2(k - 1), m * Pow2(k - 1);
      Doubled(m, p);
      MulMonotone(1, m, p);
      AndShifted(x / 2, m, k - 1);
      AndEven(x, h);
      DivDiv(x, 2, p);
      Doubled(And(x / 2 / p, m), p);
    }
  }

  lemma LowByte(x: nat)
    ensures And(x, 0xFF) == x % 0x100
  {
    Powers();
    MaskIsRemainder(x, 8);
  }

  lemma PduFormat(x: nat)
    ensures And(Shr(x, 8), 0xFF) == x / 0x100 % 0x100
  {
    Powers();
    LowByte(x / 0x100);
  }

  lemma PageAndFormat(x: nat)
    ensures And(x, 0x1FF00) == x / 0x100 % 0x200 * 0x100
  {
    Powers();
    AndShifted(x, 0x1FF, 8);
    MaskIsRemainder(x / 0x100, 9);
  }

  lemma PgnBits(x: nat)
    ensures And(Shr(x, 8), 0x1FFFF) == x / 0x100 % 0x20000
  {
    Powers();
    MaskIsRemainder(x / 0x100, 17);
  }

  lemma ThreeBits(x: nat)
    ensures And(x, 7) == x % 8
  {
    Powers();
    MaskIsRemainder(x, 3);
  }

  lemma PriorityBits(x: nat)
    ensures And(Shr(x, 26), 7) == x / 0x400_0000 % 8
  {
    Powers();
    ThreeBits(x / 0x400_0000);
  }

  // ---- the CAN arbitration id ----

  datatype Header = Header(pgn: nat, prio: nat, sa: nat, da: nat)

  predicate Fits(h: Header) { h.pgn < 0x20000 && h.prio < 8 && h.sa < 256 && h.da < 256 }

  /** PDU format below 240: the message has a destination. */
  predicate Addressed(pgn: nat) { pgn / 256 % 256 < 240 }

  function BuildArbitrationId(h: Header): int {
    var pf := And(Shr(h.pgn, 8), 0xFF);
    Assembled(h.sa, if pf < 240 then h.pgn + h.da else h.pgn, And(h.prio, 7))
  }

  function Assembled(sa: nat, body: nat, prio: int): int { Or(Or(sa, Shl(body, 8)), Shl(prio, 26)) }

  /** pgn_pdu1_adjust */
  function Adjust(pgn: nat): (int, int) {
    if And(Shr(pgn, 8), 0xFF) < 240 then (And(pgn, 0x1FF00), And(pgn, 0xFF)) else (pgn, 0xFF)
  }

  lemma AdjustIs(pgn: nat)
    requires pgn < 0x20000
    ensures Adjust(pgn) == if Addressed(pgn) then (pgn - pgn % 256, pgn % 256) else (pgn, 255)
  {
    PduFormat(pgn);
    PageAndFormat(pgn);
    LowByte(pgn);
    HighPart(pgn);
  }

  lemma HighPart(pgn: nat)
    requires pgn < 0x20000
    ensures pgn / 0x100 % 0x200 * 0x100 == pgn - pgn % 256
  {
  }

  /** The part of the id between source and priority. */
  function Body(h: Header): nat { if Addressed(h.pgn) then h.pgn + h.da else h.pgn }

  lemma BuildUnfolds(h: Header)
    requires Fits(h)
    ensures BuildArbitrationId(h) == Assembled(h.sa, Body(h), h.prio)
  {
    assert And(h.prio, 7) == h.prio by {
      ThreeBits(h.prio);
    }
    assert And(Shr(h.pgn, 8), 0xFF) == h.pgn / 256 % 256 by {
      PduFormat(h.pgn);
    }
  }

  lemma AssembledIs(sa: nat, body: nat, prio: nat)
    requires sa < 256 && body < 0x40000
    ensures Assembled(sa, body, prio) == sa + body * 0x100 + prio * 0x400_0000
  {
    Powers();
    OrDisjoint(sa, body, 8);
    OrDisjoint(sa + body * 0x100, prio, 26);
  }

  lemma BuildIs(h: Header)
    requires Fits(h)
    ensures BuildArbitrationId(h) == h.sa + Body(h) * 0x100 + h.prio * 0x400_0000
  {
    BuildUnfolds(h);
    AssembledIs(h.sa, Body(h), h.prio);
  }

  lemma Fields(sa: nat, body: nat, prio: nat)
    requires sa < 256 && body < 0x40000 && prio < 8
    ensures var id := sa + body * 0x100 + prio * 0x400_0000;
            id % 0x100 == sa && id / 0x100 % 0x20000 == body % 0x20000 && id / 0x100 % 0x40000 == body
                && id / 0x400_0000 % 8 == prio
  {
    var id := sa + body * 0x100 + prio * 0x400_0000;
    assert id / 0x100 == body + prio * 0x40000;
    assert id / 0x400_0000 == prio;
  }

  /** The header process_receive_msg takes from an id. */
  function DecodeArbitrationId(id: nat): (h: (int, int, int, int)) {
    var (pgn, da) := Adjust(Unsigned(And(Shr(id, 8), 0x1FFFF)));
    (pgn, And(Shr(id, 26), 7), And(id, 0xFF), da)
  }

  function Unsigned(x: int): nat { if x < 0 then 0 else x }

  lemma DecodeUnfolds(id: nat, sa: nat, pgn: nat, prio: nat)
    requires sa == id % 0x100 && pgn == id / 0x100 % 0x20000 && prio == id / 0x400_0000 % 8
    ensures DecodeArbitrationId(id) == (Adjust(pgn).0, prio, sa, Adjust(pgn).1)
  {
    LowByte(id);
    PgnBits(id);
    PriorityBits(id);
  }

  lemma DecodeIs(id: nat, sa: nat, body: nat, prio: nat)
    requires sa < 256 && body < 0x20000 && prio < 8 && id == sa + body * 0x100 + prio * 0x400_0000
    ensures DecodeArbitrationId(id) == if Addressed(body) then (body - body % 256, prio, sa, body % 256)
            else (body, prio, sa, 255)
  {
    assert DecodeArbitrationId(id) == (Adjust(body).0, prio, sa, Adjust(body).1) by {
      Fields(sa, body, prio);
      DecodeUnfolds(id, sa, body, prio);
    }
    AdjustIs(body);
  }

  /**
   What was built is decoded again, with destination 255 where the PGN has none, if and
   only if the low byte of a PGN that has a destination is 0.
   */
  lemma ArbitrationIdRoundTrip(h: Header)
    requires Fits(h)
    ensures BuildArbitrationId(h) >= 0
    ensures DecodeArbitrationId(BuildArbitrationId(h)) == (h.pgn, h.prio, h.sa, if Addressed(h.pgn) then h.da else 255)
       <==> (Addressed(h.pgn) ==> h.pgn % 256 == 0)
  {
    BuildIs(h);
    DecodeOfBuilt(h, BuildArbitrationId(h));
  }

  lemma DecodeOfBuilt(h: Header, id: nat)
    requires Fits(h) && id == h.sa + Body(h) * 0x100 + h.prio * 0x400_0000
    ensures DecodeArbitrationId(id) == (h.pgn, h.prio, h.sa, if Addressed(h.pgn) then h.da else 255)
       <==> (Addressed(h.pgn) ==> h.pgn % 256 == 0)
  {
    if Addressed(h.pgn) {
      DecodeOfAddressed(h, id);
    } else {
      DecodeIs(id, h.sa, h.pgn, h.prio);
    }
  }

  lemma DecodeOfAddressed(h: Header, id: nat)
    requires Fits(h) && Addressed(h.pgn) && id == h.sa + (h.pgn + h.da) * 0x100 + h.prio * 0x400_0000
    ensures DecodeArbitrationId(id) == (h.pgn, h.prio, h.sa, h.da) <==> h.pgn % 256 == 0
  {
    var body := BodyFits(h.pgn, h.da);
    var pgn, da := DecodedParts(id, h.sa, body, h.prio);
    LowByteDecides(h.pgn, h.da, body, pgn, da);
  }

  lemma BodyFits(pgn: nat, da: nat) returns (body: nat)
    requires pgn < 0x20000 && da < 256 && Addressed(pgn)
    ensures body == pgn + da < 0x20000
  {
    DestinationFits(pgn, da);
    body := pgn + da;
  }

  lemma DecodedParts(id: nat, sa: nat, body: nat, prio: nat) returns (pgn: int, da: int)
    requires sa < 256 && body < 0x20000 && prio < 8 && id == sa + body * 0x100 + prio * 0x400_0000
    ensures DecodeArbitrationId(id) == (pgn, prio, sa, da)
    ensures if Addressed(body) then pgn == body - body % 256 && da == body % 256 else pgn == body && da == 255
  {
    DecodeIs(id, sa, body, prio);
    pgn, da := if Addressed(body) then body - body % 256 else body, if Addressed(body) then body % 256 else 255;
  }

  lemma LowByteDecides(pgn: nat, da: nat, body: nat, pgn': int, da': int)
    requires pgn < 0x20000 && da < 256 && Addressed(pgn) && body == pgn + da
    requires if Addressed(body) then pgn' == body - body % 256 && da' == body % 256 else pgn' == body && da' == 255
    ensures pgn' == pgn && da' == da <==> pgn % 256 == 0
  {
    DestinationFits(pgn, da);
  }

  lemma DestinationFits(pgn: nat, da: nat)
    requires pgn < 0x20000 && da < 256 && Addressed(pgn)
    ensures pgn + da < 0x20000
    ensures pgn % 256 == 0 ==> Addressed(pgn + da) && (pgn + da) % 256 == da
    ensures pgn % 256 != 0 && !Addressed(pgn + da) ==> da != 0
  {
    assert pgn == pgn / 256 * 256 + pgn % 256;
    assert pgn / 256 < 512;
    assert pgn / 256 % 256 < 240 ==> pgn / 256 < 496;
  }

  // ---- hexadecimal digits ----

  /** Digits by their values. */
  type Digits = seq<nat>

  function Power16(k: nat): (p: nat)
    ensures p > 0
  {
    if k == 0 then 1 else 16 * Power16(k - 1)
  }

  /** k digits of n, as %0kX prints them. */
  function Hex(n: nat, k: nat): (s: Digits)
    ensures |s| == k
  {
    if k == 0 then [] else Hex(n / 16, k - 1) + [n % 16]
  }

  /** The digits, the highest first. */
  lemma {:induction false} HexDigit(n: nat, k: nat, i: nat)
    requires i < k
    ensures Hex(n, k)[i] == n / Power16(k - 1 - i) % 16
    decreases k
  {
    if i < k - 1 {
      HexDigit(n / 16, k - 1, i);
      DivDiv(n, 16, Power16(k - 2 - i));
    }
  }

  /** int(s, 16) */
  function ParseHex(s: Digits): nat {
    if s == [] then 0 else ParseHex(s[..|s| - 1]) * 16 + s[|s| - 1]
  }

  lemma {:induction false} ParseOfHex(n: nat, k: nat)
    ensures ParseHex(Hex(n, k)) == n % Power16(k)
  {
    if k > 0 {
      var s := Hex(n, k);
      assert s[..k - 1] == Hex(n / 16, k - 1);
      ParseOfHex(n / 16, k - 1);
      DivDiv(n, 16, Power16(k - 1));
    }
  }

  lemma {:induction false} HexPrefix(n: nat, k: nat, j: nat)
    requires j <= k
    ensures Hex(n, k)[..j] == Hex(n / Power16(k - j), j)
    decreases k
  {
    if j < k {
      assert Hex(n, k)[..j] == Hex(n / 16, k - 1)[..j];
      HexPrefix(n / 16, k - 1, j);
      DivDiv(n, 16, Power16(k - 1 - j));
    } else {
      assert Hex(n, k)[..k] == Hex(n, k);
    }
  }

  lemma {:induction false} HexSuffix(n: nat, k: nat, i: nat)
    requires i <= k
    ensures Hex(n, k)[i..] == Hex(n, k - i)
    decreases k
  {
    if i < k {
      HexSuffix(n / 16, k - 1, i);
      assert Hex(n, k)[i..] == Hex(n / 16, k - 1)[i..] + [n % 16];
    }
  }

  lemma SliceOfHex(n: nat, k: nat, i: nat, j: nat, m: nat)
    requires i <= j <= k && m == n / Power16(k - j)
    ensures Hex(n, k)[i..j] == Hex(m, j - i)
  {
    HexPrefix(n, k, j);
    HexSuffix(m, j, i);
    SliceOfPrefix(Hex(n, k), i, j);
  }

  lemma SliceOfPrefix<T>(s: seq<T>, i: nat, j: nat)
    requires i <= j <= |s|
    ensures s[i..j] == s[..j][i..]
  {
  }

  /** Digits i up to j of the k digits of n. */
  lemma ParseOfSlice(n: nat, k: nat, i: nat, j: nat, m: nat)
    requires i <= j <= k && m == n / Power16(k - j)
    ensures ParseHex(Hex(n, k)[i..j]) == m % Power16(j - i)
  {
    SliceOfHex(n, k, i, j, m);
    ParseOfHex(m, j - i);
  }

  // ---- Yacht Devices ----

  /** The id encode_nmea2000 prints in eight digits. */
  function YachtId(pgn: nat, prio: nat, da: nat): int { Or(Or(Shl(pgn, 8), Shl(prio, 26)), da) }

  /** decode_msgid: five digits of PGN, two of priority, two of source. */
  function DecodeMsgId(msgid: Digits): (int, int, nat)
    requires |msgid| == 8
  {
    (And(ParseHex(msgid[1..6]), 0x3FFFF), And(Shr(ParseHex(msgid[0..2]), 2), 7), ParseHex(msgid[6..8]))
  }

  /** A bit-wise OR of numbers without common bits, in the order the code writes it. */
  lemma YachtIdIs(pgn: nat, prio: nat, da: nat)
    requires pgn < 0x40000 && prio < 8 && da < 256
    ensures YachtId(pgn, prio, da) == da + pgn * 0x100 + prio * 0x400_0000
  {
    Powers();
    OrDisjoint(pgn * 0x100, prio, 26);
    OrCommutes(Shl(pgn, 8) + Shl(prio, 26), da);
    assert Shl(pgn, 8) + Shl(prio, 26) == (pgn + prio * 0x40000) * 0x100;
    OrDisjoint(da, pgn + prio * 0x40000, 8);
  }

  lemma {:induction false} OrCommutes(a: int, b: int)
    ensures Or(a, b) == Or(b, a)
    decreases Spread(a) + Spread(b)
  {
    if !((a == 0 || a == -1) && (b == 0 || b == -1)) {
      OrCommutes(a / 2, b / 2);
    }
  }

  /**
   The id of a frame that is sent parses back to its PGN and priority; its low byte is the
   destination when it is printed, and the source when it is read.
   */
  lemma YachtIdRoundTrip(pgn: nat, prio: nat, da: nat)
    requires pgn < 0x40000 && prio < 8 && da < 256
    ensures YachtId(pgn, prio, da) >= 0 && DecodeMsgId(Hex(YachtId(pgn, prio, da), 8)) == (pgn, prio, da)
  {
    YachtIdIs(pgn, prio, da);
    YachtIdParses(YachtId(pgn, prio, da), pgn, prio, da);
  }

  lemma YachtIdParses(id: nat, pgn: nat, prio: nat, da: nat)
    requires pgn < 0x40000 && prio < 8 && da < 256 && id == da + pgn * 0x100 + prio * 0x400_0000
    ensures DecodeMsgId(Hex(id, 8)) == (pgn, prio, da)
  {
    assert Power16(2) == 0x100 && Power16(5) == 0x10_0000 && Power16(6) == 0x100_0000 && Power16(0) == 1;
    ParseOfSlice(id, 8, 1, 6, id / 0x100);
    ParseOfSlice(id, 8, 0, 2, id / 0x100_0000);
    ParseOfSlice(id, 8, 6, 8, id);
    YachtFields(pgn, prio, da);
    Powers();
    MaskIsRemainder(id / 0x100 % 0x10_0000, 18);
    ThreeBits(id / 0x100_0000 % 0x100 / 4);
    assert Pow2(2) == 4;
  }

  lemma YachtFields(pgn: nat, prio: nat, da: nat)
    requires pgn < 0x40000 && prio < 8 && da < 256
    ensures var id := da + pgn * 0x100 + prio * 0x400_0000;
            && id / 0x100 % 0x10_0000 % 0x40000 == pgn
            && id / 0x100_0000 % 0x100 / 4 % 8 == prio
            && id % 0x100 == da
  {
    var id := da + pgn * 0x100 + prio * 0x400_0000;
    YachtPgn(id / 0x100, pgn, prio);
    YachtPriority(id / 0x100_0000, pgn / 0x10000, prio);
  }

  lemma YachtPgn(high: nat, pgn: nat, prio: nat)
    requires pgn < 0x40000 && prio < 8 && high == pgn + prio * 0x40000
    ensures high % 0x10_0000 % 0x40000 == pgn
  {
    assert high % 0x10_0000 == pgn + prio % 4 * 0x40000;
  }

  lemma YachtPriority(high: nat, top: nat, prio: nat)
    requires top < 4 && prio < 8 && high == top + prio * 4
    ensures high % 0x100 / 4 % 8 == prio
  {
  }
}

/**
 What the VE.Direct reader makes of what is not as it should be: a HEX frame inside a line,
 and more bytes than its buffer holds.
 */
module VEDirectFaults {
  import opened Struct
  import opened VEDirect

  // ---- a HEX frame inside a line ----

  /**
   A HEX frame is taken wherever a ':' is not the checksum byte itself. It goes out behind
   the bytes that were in the buffer; the checksum starts again, and the key and the value
   that were being read are kept as they are.
   */
  lemma FrameAnywhere(p: Parser, f: seq<byte>, full: bool)
    requires p.mode != IN_CHECKSUM && GoodItem(Hex(f)) && |p.buf| + |f| <= BUFFER_SIZE
    ensures Feed(p, f, full) == (p.(mode := WAIT_HEADER, sum := 0, buf := []), [HexResponse(p.buf + f)])
  {
    var p1 := if p.mode == HEX || p.mode == WAIT_HEADER || p.mode == IN_KEY || p.mode == IN_VALUE
              then p.(mode := HEX, sum := 0, buf := p.buf + [COLON]) else p;
    FeedQuiet(p, f, full, p1);
    assert f[1..][..|f| - 2] == f[..|f| - 1][1..];
    FeedHex(p1, f[1..], full);
    assert p1.buf + f[1..] == p.buf + f;
  }

  /** Between lines everything up to the next line feed is skipped, but counts for the checksum. */
  lemma {:induction false} FeedSkipped(p: Parser, s: seq<byte>, full: bool)
    requires p.mode == WAIT_HEADER && LF !in s && COLON !in s && |p.buf| + |s| < BUFFER_SIZE
    ensures Feed(p, s + [LF], full) == (p.(mode := IN_KEY, sum := p.sum + Sum(s + [LF]), buf := p.buf + (s + [LF])), [])
    decreases |s|
  {
    if s == [] {
      assert s + [LF] == [LF];
      FeedOne(p, LF, full);
      SumOne(LF);
    } else {
      var p1 := p.(sum := p.sum + s[0], buf := p.buf + [s[0]]);
      assert (s + [LF])[1..] == s[1..] + [LF] && (s + [LF])[0] == s[0];
      FeedQuiet(p, s + [LF], full, p1);
      FeedSkipped(p1, s[1..], full);
      assert p1.buf + (s[1..] + [LF]) == p.buf + (s + [LF]);
      assert p1.sum + Sum(s[1..] + [LF]) == p.sum + Sum(s + [LF]);
    }
  }

  /** A line whose key and value are read behind what is already there. */
  lemma FeedGlued(p: Parser, l: Line, full: bool, p': Parser)
    requires p.mode == IN_KEY && GoodLine(l) && p.key + l.key != CHECKSUM && |p.buf| + |LineBytes(l)| <= BUFFER_SIZE
    requires p' == p.(key := [], value := [], dict := p.dict[p.key + l.key := Text(p.value + l.value)],
                      sum := p.sum + Sum(LineBytes(l)), buf := p.buf + LineBytes(l))
    ensures Feed(p, LineBytes(l), full) == (p', [])
  {
    var a, b := l.key + [TAB], l.value + [CR, LF];
    assert LineBytes(l) == a + b;
    var p1 := p.(key := p.key + l.key, sum := p.sum + Sum(l.key), buf := p.buf + l.key);
    var p2 := p1.(mode := IN_VALUE, sum := p1.sum + TAB, buf := p1.buf + [TAB]);
    FeedKey(p, l.key, full);
    StepTab(p1, full, p2);
    FeedOne(p1, TAB, full);
    FeedBoth(p, l.key, [TAB], full, p1, p2);
    SumOne(TAB);
    Grown(p, l.key, [TAB]);
    Grown(p, a, b);
    assert p2 == p.(mode := IN_VALUE, key := p.key + l.key, sum := p.sum + Sum(a), buf := p.buf + a);
    FeedGluedValue(p2, l.value, full, p');
    FeedBoth(p, a, b, full, p2, p');
  }

  lemma FeedGluedValue(p: Parser, v: seq<byte>, full: bool, p': Parser)
    requires p.mode == IN_VALUE && CR !in v && COLON !in v && |p.buf| + |v| + 2 <= BUFFER_SIZE
    requires p' == p.(mode := IN_KEY, key := [], value := [], dict := p.dict[p.key := Text(p.value + v)],
                      sum := p.sum + Sum(v + [CR, LF]), buf := p.buf + (v + [CR, LF]))
    ensures Feed(p, v + [CR, LF], full) == (p', [])
  {
    var p1 := p.(value := p.value + v, sum := p.sum + Sum(v), buf := p.buf + v);
    FeedValue(p, v, full);
    var p2 := p1.(mode := WAIT_HEADER, key := [], value := [], dict := p.dict[p.key := Text(p1.value)],
                  sum := p1.sum + CR, buf := p1.buf + [CR]);
    var p3 := p2.(mode := IN_KEY, sum := p2.sum + LF, buf := p2.buf + [LF]);
    FeedTwo(p1, CR, LF, full, p2, p3);
    Grown(p, v, [CR, LF]);
    assert p1.buf + [CR] + [LF] == p1.buf + [CR, LF];
    FeedBoth(p, v, [CR, LF], full, p1, p');
  }

  /**
   A HEX frame inside a key or a value: the rest of that line is lost, and the next line's
   field goes into the dictionary under what was read of the key followed by its own, with
   what was read of the value before its own.
   */
  lemma InterruptedLineIsGlued(p: Parser, f: seq<byte>, rest: seq<byte>, l: Line, full: bool)
    requires (p.mode == IN_KEY || p.mode == IN_VALUE) && GoodItem(Hex(f)) && |p.buf| + |f| <= BUFFER_SIZE
    requires LF !in rest && COLON !in rest && GoodLine(l) && p.key + l.key != CHECKSUM
    requires |rest| + 1 + |LineBytes(l)| <= BUFFER_SIZE
    ensures var behind := rest + [LF] + LineBytes(l);
            Feed(p, f + behind, full) == (
              Parser(IN_KEY, [], [], Sum(behind), p.dict[p.key + l.key := Text(p.value + l.value)], behind),
              [HexResponse(p.buf + f)])
  {
    var a, b := rest + [LF], LineBytes(l);
    var p1 := p.(mode := WAIT_HEADER, sum := 0, buf := []);
    var p2 := p1.(mode := IN_KEY, sum := Sum(a), buf := a);
    assert [] + a == a;
    FrameAnywhere(p, f, full);
    FeedSkipped(p1, rest, full);
    SumConcat(a, b);
    var p3 := Parser(IN_KEY, [], [], Sum(a + b), p.dict[p.key + l.key := Text(p.value + l.value)], a + b);
    FeedGlued(p2, l, full, p3);
    FeedBoth(p1, a, b, full, p2, p3);
    FeedConcat(p, f, a + b, full);
    assert [HexResponse(p.buf + f)] + [] == [HexResponse(p.buf + f)];
  }

  // ---- more than 512 bytes ----

  /**
   The byte that finds the buffer full is lost, whatever it is: it is in no key or value,
   does not end anything and does not count for the checksum. The buffer starts again
   behind it.
   */
  lemma OverflowLosesOneByte(p: Parser, b: byte, t: seq<byte>, full: bool)
    requires |p.buf| == BUFFER_SIZE
    ensures Feed(p, [b] + t, full) == Feed(p.(buf := []), t, full)
  {
    assert ([b] + t)[1..] == t;
    FeedQuiet(p, [b] + t, full, p.(buf := []));
  }

  /** The value of a line that has the lost byte. */
  lemma OverflowInValue(p: Parser, v1: seq<byte>, b: byte, v2: seq<byte>, full: bool, p': Parser)
    requires p.mode == IN_VALUE && p.value == [] && CR !in v1 && COLON !in v1 && CR !in v2 && COLON !in v2
    requires |p.buf| + |v1| == BUFFER_SIZE && |v2| + 2 <= BUFFER_SIZE
    requires p' == p.(mode := IN_KEY, key := [], dict := p.dict[p.key := Text(v1 + v2)],
                      sum := p.sum + Sum(v1) + Sum(v2 + [CR, LF]), buf := v2 + [CR, LF])
    ensures Feed(p, v1 + ([b] + (v2 + [CR, LF])), full) == (p', [])
  {
    var p1 := p.(value := v1, sum := p.sum + Sum(v1), buf := p.buf + v1);
    assert p.value + v1 == v1;
    FeedValue(p, v1, full);
    OverflowLosesOneByte(p1, b, v2 + [CR, LF], full);
    var p2 := p1.(buf := []);
    assert p2.buf + (v2 + [CR, LF]) == v2 + [CR, LF];
    FeedGluedValue(p2, v2, full, p');
    FeedBoth(p, v1, [b] + (v2 + [CR, LF]), full, p1, p');
  }

  /** The bytes of a block up to a value, and from the end of that value on. */
  function Front(a: seq<Line>, key: seq<byte>): seq<byte> { [CR, LF] + LinesBytes(a) + (key + [TAB]) }

  function Back(c: seq<Line>, checksum: byte): seq<byte> { LinesBytes(c) + (CHECKSUM + [TAB]) + [checksum] }

  lemma FeedFront(p: Parser, a: seq<Line>, key: seq<byte>, full: bool, p': Parser)
    requires p.mode == WAIT_HEADER && p.key == [] && p.value == [] && (forall l :: l in a ==> GoodLine(l))
    requires TAB !in key && COLON !in key && key != CHECKSUM && |p.buf| + |Front(a, key)| <= BUFFER_SIZE
    requires p' == p.(mode := IN_VALUE, key := key, dict := Overlay(p.dict, a), sum := p.sum + Sum(Front(a, key)),
                      buf := p.buf + Front(a, key))
    ensures Feed(p, Front(a, key), full) == (p', [])
  {
    var x, y, z := [CR, LF], LinesBytes(a), key + [TAB];
    var p1 := p.(mode := IN_KEY, sum := p.sum + Sum(x), buf := p.buf + x);
    FeedHeader(p, full, p1);
    var p2 := p1.(dict := Overlay(p.dict, a), sum := p1.sum + Sum(y), buf := p1.buf + y);
    FeedLines(p1, a, full, p2);
    FeedBoth(p, x, y, full, p1, p2);
    SumsAndBuffers(p, x, y, z);
    FeedKeyTab(p2, key, full, p');
    FeedBoth(p, x + y, z, full, p2, p');
  }

  /** What is left when the checksum byte has come. */
  function Closed(d: Dict, buf: seq<byte>, holds: bool, full: bool): (Parser, seq<Output>) {
    if !holds then (Parser(WAIT_HEADER, [], [], 0, d, buf), [])
    else if full then (Parser(WAIT_HEADER, [], [], 0, d[TIMESTAMP := Time], buf), [])
    else (START, [Packet(d[TIMESTAMP := Time])])
  }

  lemma ChecksumByte(p: Parser, checksum: byte, full: bool, sum: nat, buf: seq<byte>)
    requires p.mode == IN_CHECKSUM && |p.buf| < BUFFER_SIZE && sum == p.sum + checksum && buf == p.buf + [checksum]
    ensures Feed(p, [checksum], full) == Closed(p.dict, buf, sum % 256 == 0, full)
  {
    FeedOne(p, checksum, full);
  }

  /** Lines and the checksum, behind a line. */
  lemma FeedBack(p: Parser, c: seq<Line>, checksum: byte, full: bool, sum: nat)
    requires p.mode == IN_KEY && p.key == [] && p.value == [] && forall l :: l in c ==> GoodLine(l)
    requires |p.buf| + |Back(c, checksum)| <= BUFFER_SIZE && sum == p.sum + Sum(Back(c, checksum))
    ensures Feed(p, Back(c, checksum), full)
         == Closed(Overlay(p.dict, c), p.buf + Back(c, checksum), sum % 256 == 0, full)
  {
    var x, y := LinesBytes(c), CHECKSUM + [TAB];
    var p1 := p.(dict := Overlay(p.dict, c), sum := p.sum + Sum(x), buf := p.buf + x);
    FeedLines(p, c, full, p1);
    var p2 := p1.(mode := IN_CHECKSUM, key := CHECKSUM, sum := p1.sum + Sum(y), buf := p1.buf + y);
    FeedKeyTab(p1, CHECKSUM, full, p2);
    FeedBoth(p, x, y, full, p1, p2);
    SumsAndBuffers(p, x, y, [checksum]);
    SumOne(checksum);
    ChecksumByte(p2, checksum, full, sum, p.buf + Back(c, checksum));
    FeedConcat(p, x + y, [checksum], full);
    NoOutputBefore(Feed(p2, [checksum], full).1);
  }

  lemma NoOutputBefore(out: seq<Output>)
    ensures [] + out == out
  {
  }

  lemma {:induction false} LinesConcat(a: seq<Line>, b: seq<Line>)
    ensures LinesBytes(a + b) == LinesBytes(a) + LinesBytes(b)
    decreases |a|
  {
    if a == [] {
      assert a + b == b;
    } else {
      assert (a + b)[1..] == a[1..] + b && (a + b)[0] == a[0];
      LinesConcat(a[1..], b);
      var line := LineBytes(a[0]);
      assert line + (LinesBytes(a[1..]) + LinesBytes(b)) == line + LinesBytes(a[1..]) + LinesBytes(b);
    }
  }

  lemma {:induction false} OverlayConcat(d: Dict, a: seq<Line>, b: seq<Line>)
    ensures Overlay(d, a + b) == Overlay(Overlay(d, a), b)
    decreases |a|
  {
    if a == [] {
      assert a + b == b;
    } else {
      assert (a + b)[1..] == a[1..] + b && (a + b)[0] == a[0];
      OverlayConcat(d[a[0].key := Text(a[0].value)], a[1..], b);
    }
  }

  /** A block around one of its values. */
  lemma BlockParts(a: seq<Line>, key: seq<byte>, value: seq<byte>, c: seq<Line>, checksum: byte)
    ensures Bytes(Block(a + ([Line(key, value)] + c), checksum))
         == Front(a, key) + ((value + [CR, LF]) + Back(c, checksum))
  {
    var l := Line(key, value);
    LinesConcat(a, [l] + c);
    assert ([l] + c)[1..] == c && ([l] + c)[0] == l;
    assert LineBytes(l) == (key + [TAB]) + (value + [CR, LF]);
    assert CHECKSUM + [TAB, checksum] == (CHECKSUM + [TAB]) + [checksum];
    Regroup([CR, LF], LinesBytes(a), key + [TAB], value + [CR, LF], LinesBytes(c), CHECKSUM + [TAB], [checksum]);
  }

  lemma Regroup(h: seq<byte>, a: seq<byte>, k: seq<byte>, v: seq<byte>, c: seq<byte>, y: seq<byte>, z: seq<byte>)
    ensures h + (a + ((k + v) + c)) + (y + z) == (h + a + k) + (v + (c + y + z))
  {
    Moved(h, a, (k + v) + c, y + z);
    Moved(k, v, c, y + z);
    Moved(h, a, k, v + c + (y + z));
    assert v + c + (y + z) == v + (c + y + z);
  }

  lemma Moved(x: seq<byte>, y: seq<byte>, z: seq<byte>, w: seq<byte>)
    ensures x + (y + z) + w == x + y + (z + w) && (x + y) + z + w == x + (y + z + w)
  {
  }

  lemma SumThree(x: seq<byte>, y: seq<byte>, z: seq<byte>)
    ensures Sum(x + (y + z)) == Sum(x) + Sum(y) + Sum(z)
  {
    SumConcat(y, z);
    SumConcat(x, y + z);
  }

  /** The bytes of a block with one value v1 + [b] + v2, and their sum. */
  lemma OverlongParts(a: seq<Line>, key: seq<byte>, v1: seq<byte>, b: byte, v2: seq<byte>, c: seq<Line>, checksum: byte)
    ensures var s := Bytes(Block(a + ([Line(key, v1 + ([b] + v2))] + c), checksum));
            && s == Front(a, key) + ((v1 + ([b] + (v2 + [CR, LF]))) + Back(c, checksum))
            && Sum(s) - b == Sum(Front(a, key)) + Sum(v1) + Sum(v2 + [CR, LF]) + Sum(Back(c, checksum))
  {
    BlockParts(a, key, v1 + ([b] + v2), c, checksum);
    var middle := v1 + ([b] + (v2 + [CR, LF]));
    assert (v1 + ([b] + v2)) + [CR, LF] == middle;
    SumThree(Front(a, key), middle, Back(c, checksum));
    SumThree(v1, [b], v2 + [CR, LF]);
    SumOne(b);
  }

  /**
   A block too long for the buffer, which is full when byte b of a value comes: the field has
   its value without that byte, and the checksum is tested as if the byte were 0. So a block
   with a good checksum is taken for a bad one, and its fields stay in the dictionary for
   the next, unless the byte is 0.
   */
  lemma OverlongBlock(e: Expected, a: seq<Line>, key: seq<byte>, v1: seq<byte>, b: byte, v2: seq<byte>, c: seq<Line>,
                      checksum: byte, full: bool)
    requires (forall l :: l in a ==> GoodLine(l)) && forall l :: l in c ==> GoodLine(l)
    requires GoodLine(Line(key, v1)) && GoodLine(Line(key, v2))
    requires |e.seen| + |Front(a, key)| + |v1| == BUFFER_SIZE && |v2| + 2 + |Back(c, checksum)| <= BUFFER_SIZE
    ensures var s := Bytes(Block(a + ([Line(key, v1 + ([b] + v2))] + c), checksum));
            var d := Overlay(e.pending, a + ([Line(key, v1 + v2)] + c));
            && Feed(Resting(e), s, full)
               == Closed(d, v2 + [CR, LF] + Back(c, checksum), (Sum(s) - b) % 256 == 0, full)
            && (Sum(s) % 256 == 0 && b != 0 ==>
                 Feed(Resting(e), s, full).1 == [] && Feed(Resting(e), s, full).0.dict == d)
  {
    var s := Bytes(Block(a + ([Line(key, v1 + ([b] + v2))] + c), checksum));
    var l := Line(key, v1 + v2);
    OverlongParts(a, key, v1, b, v2, c, checksum);
    OverlayConcat(e.pending, a, [l] + c);
    assert ([l] + c)[1..] == c && ([l] + c)[0] == l;
    OverlongFed(e, a, key, v1, b, v2, c, checksum, full, Sum(s) - b);
  }

  lemma OverlongFed(e: Expected, a: seq<Line>, key: seq<byte>, v1: seq<byte>, b: byte, v2: seq<byte>, c: seq<Line>,
                    checksum: byte, full: bool, sum: nat)
    requires (forall l :: l in a ==> GoodLine(l)) && forall l :: l in c ==> GoodLine(l)
    requires GoodLine(Line(key, v1)) && GoodLine(Line(key, v2))
    requires |e.seen| + |Front(a, key)| + |v1| == BUFFER_SIZE && |v2| + 2 + |Back(c, checksum)| <= BUFFER_SIZE
    requires sum == Sum(Front(a, key)) + Sum(v1) + Sum(v2 + [CR, LF]) + Sum(Back(c, checksum))
    ensures Feed(Resting(e), Front(a, key) + ((v1 + ([b] + (v2 + [CR, LF]))) + Back(c, checksum)), full)
         == Closed(Overlay(Overlay(e.pending, a)[key := Text(v1 + v2)], c), v2 + [CR, LF] + Back(c, checksum),
                   sum % 256 == 0, full)
  {
    var p, middle, back := Resting(e), v1 + ([b] + (v2 + [CR, LF])), Back(c, checksum);
    var p1 := p.(mode := IN_VALUE, key := key, dict := Overlay(p.dict, a), sum := p.sum + Sum(Front(a, key)),
                 buf := p.buf + Front(a, key));
    FeedFront(p, a, key, full, p1);
    var p2 := p1.(mode := IN_KEY, key := [], dict := p1.dict[key := Text(v1 + v2)],
                  sum := p1.sum + Sum(v1) + Sum(v2 + [CR, LF]), buf := v2 + [CR, LF]);
    OverflowInValue(p1, v1, b, v2, full, p2);
    FeedBack(p2, c, checksum, full, sum);
    FeedConcat(p1, middle, back, full);
    FeedConcat(p, Front(a, key), middle + back, full);
    var out := Feed(p2, back, full).1;
    assert [] + out == out;
  }
}

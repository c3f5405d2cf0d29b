/**
 The VE.Direct reader: a byte-wise parser of text blocks with a checksum, and of HEX
 frames that come between them.
 */
module VEDirect {
  import opened Struct

  datatype Mode = HEX | WAIT_HEADER | IN_KEY | IN_VALUE | IN_CHECKSUM

  const CR: byte := 0x0D
  const LF: byte := 0x0A
  const TAB: byte := 0x09
  const COLON: byte := 0x3A
  const BUFFER_SIZE: nat := 512
  const CHECKSUM: seq<byte> := [0x43, 0x68, 0x65, 0x63, 0x6B, 0x73, 0x75, 0x6D]
  const TIMESTAMP: seq<byte> := [0x74, 0x69, 0x6D, 0x65, 0x73, 0x74, 0x61, 0x6D, 0x70]

  /** A value of the dictionary: a text, or the time the packet was completed. */
  datatype Value = Text(s: seq<byte>) | Time
  type Dict = map<seq<byte>, Value>

  datatype Output = Packet(fields: Dict) | HexResponse(frame: seq<byte>)

  /** The fields of the reader; `buf` is what _buffer holds up to _buflen. */
  datatype Parser = Parser(mode: Mode, key: seq<byte>, value: seq<byte>, sum: nat, dict: Dict, buf: seq<byte>)

  const START := Parser(WAIT_HEADER, [], [], 0, map[], [])

  // ---- one byte ----

  datatype Parsed = Nothing | Complete | Response(frame: seq<byte>)

  /** input(byte) */
  function Input(p: Parser, b: byte): (Parser, Parsed) {
    if |p.buf| >= BUFFER_SIZE then (p.(buf := []), Nothing)
    else
      var p := p.(buf := p.buf + [b]);
      var p := if b == COLON && p.mode != IN_CHECKSUM then p.(mode := HEX) else p;
      match p.mode
      case WAIT_HEADER => (p.(sum := p.sum + b, mode := if b == LF then IN_KEY else WAIT_HEADER), Nothing)
      case IN_KEY =>
        if b == TAB then (p.(sum := p.sum + b, mode := if p.key == CHECKSUM then IN_CHECKSUM else IN_VALUE), Nothing)
        else (p.(sum := p.sum + b, key := p.key + [b]), Nothing)
      case IN_VALUE =>
        if b == CR
        then (p.(sum := p.sum + b, mode := WAIT_HEADER, dict := p.dict[p.key := Text(p.value)], key := [],
                 value := []), Nothing)
        else (p.(sum := p.sum + b, value := p.value + [b]), Nothing)
      case IN_CHECKSUM =>
        (p.(key := [], value := [], mode := WAIT_HEADER, sum := 0), if (p.sum + b) % 256 == 0 then Complete
         else Nothing)
      case HEX =>
        if b == LF then (p.(sum := 0, mode := WAIT_HEADER, buf := []), Response(p.buf)) else (p.(sum := 0), Nothing)
  }

  /** What run() does with the result: a full queue keeps the dictionary and the buffer. */
  function Handle(p: Parser, r: Parsed, full: bool): (Parser, seq<Output>) {
    match r
    case Nothing => (p, [])
    case Response(frame) => (p, [HexResponse(frame)])
    case Complete =>
      var d := p.dict[TIMESTAMP := Time];
      if full then (p.(dict := d), []) else (p.(dict := map[], buf := []), [Packet(d)])
  }

  function Step(p: Parser, b: byte, full: bool): (Parser, seq<Output>) {
    var (p', r) := Input(p, b);
    Handle(p', r, full)
  }

  /** run() over the bytes that arrive while the queue is full, or is not. */
  function Feed(p: Parser, s: seq<byte>, full: bool): (Parser, seq<Output>)
    decreases |s|
  {
    if s == [] then (p, [])
    else
      var (p1, out1) := Step(p, s[0], full);
      var (p2, out2) := Feed(p1, s[1..], full);
      (p2, out1 + out2)
  }

  lemma {:induction false} FeedConcat(p: Parser, s: seq<byte>, t: seq<byte>, full: bool)
    ensures Feed(p, s + t, full)
         == (Feed(Feed(p, s, full).0, t, full).0, Feed(p, s, full).1 + Feed(Feed(p, s, full).0, t, full).1)
    decreases |s|
  {
    if s == [] {
      assert s + t == t;
      assert [] + Feed(p, t, full).1 == Feed(p, t, full).1;
    } else {
      assert (s + t)[1..] == s[1..] + t;
      var (p1, out1) := Step(p, s[0], full);
      FeedConcat(p1, s[1..], t, full);
      var (p2, out2) := Feed(p1, s[1..], full);
      assert out1 + (out2 + Feed(p2, t, full).1) == out1 + out2 + Feed(p2, t, full).1;
    }
  }

  // ---- printing ----

  datatype Line = Line(key: seq<byte>, value: seq<byte>)

  /** What arrives: a block of lines with its checksum byte, or a HEX frame. */
  datatype Item = Block(lines: seq<Line>, checksum: byte) | Hex(frame: seq<byte>)

  function LineBytes(l: Line): seq<byte> { l.key + [TAB] + l.value + [CR, LF] }

  function LinesBytes(lines: seq<Line>): seq<byte> {
    if lines == [] then [] else LineBytes(lines[0]) + LinesBytes(lines[1..])
  }

  function Bytes(item: Item): seq<byte> {
    match item
    case Block(lines, c) => [CR, LF] + LinesBytes(lines) + (CHECKSUM + [TAB, c])
    case Hex(frame) => frame
  }

  function Print(items: seq<Item>): seq<byte> {
    if items == [] then [] else Bytes(items[0]) + Print(items[1..])
  }

  /** A block with one field "V" of two characters, byte for byte. */
  lemma OneFieldBlock(x: byte, y: byte, checksum: byte)
    ensures Bytes(Block([Line([0x56], [x, y])], checksum))
         == [13, 10, 0x56, 9, x, y, 13, 10, 0x43, 0x68, 0x65, 0x63, 0x6B, 0x73, 0x75, 0x6D, 9, checksum]
  {
    var l := Line([0x56], [x, y]);
    assert LinesBytes([l]) == LineBytes(l) by {
      assert [l][1..] == [];
    }
    assert LineBytes(l) == [0x56, 9, x, y, 13, 10];
    assert CHECKSUM + [TAB, checksum] == [0x43, 0x68, 0x65, 0x63, 0x6B, 0x73, 0x75, 0x6D, 9, checksum];
  }

  function Sum(s: seq<byte>): nat { if s == [] then 0 else s[0] + Sum(s[1..]) }

  predicate GoodLine(l: Line) {
    && TAB !in l.key && COLON !in l.key && l.key != CHECKSUM
    && CR !in l.value && COLON !in l.value
  }

  predicate GoodItem(item: Item) {
    match item
    case Block(lines, _) => forall l :: l in lines ==> GoodLine(l)
    case Hex(frame) => |frame| >= 2 && frame[0] == COLON && frame[|frame| - 1] == LF && LF !in frame[..|frame| - 1]
  }

  predicate ChecksumHolds(item: Item) { item.Block? ==> Sum(Bytes(item)) % 256 == 0 }

  function Overlay(d: Dict, lines: seq<Line>): Dict
    decreases |lines|
  {
    if lines == [] then d else Overlay(d[lines[0].key := Text(lines[0].value)], lines[1..])
  }

  // ---- what the reader is expected to do ----

  /** Fields waiting for a good checksum, bytes since the buffer was last emptied, and output. */
  datatype Expected = Expected(pending: Dict, seen: seq<byte>, out: seq<Output>)

  function Expect(e: Expected, item: Item, full: bool): Expected {
    match item
    case Hex(frame) => Expected(e.pending, [], e.out + [HexResponse(e.seen + frame)])
    case Block(lines, _) =>
      var d := Overlay(e.pending, lines);
      if !ChecksumHolds(item) then Expected(d, e.seen + Bytes(item), e.out)
      else if full then Expected(d[TIMESTAMP := Time], e.seen + Bytes(item), e.out)
      else Expected(map[], [], e.out + [Packet(d[TIMESTAMP := Time])])
  }

  /** An item, and whether the output queue is full when its checksum arrives. */
  datatype Arrival = Arrival(item: Item, full: bool)

  function ExpectAll(e: Expected, arrivals: seq<Arrival>): Expected
    decreases |arrivals|
  {
    if arrivals == [] then e else ExpectAll(Expect(e, arrivals[0].item, arrivals[0].full), arrivals[1..])
  }

  /** run() over items, while the queue fills and drains. */
  function FeedAll(p: Parser, arrivals: seq<Arrival>): (Parser, seq<Output>)
    decreases |arrivals|
  {
    if arrivals == [] then (p, [])
    else
      var (p1, out1) := Feed(p, Bytes(arrivals[0].item), arrivals[0].full);
      var (p2, out2) := FeedAll(p1, arrivals[1..]);
      (p2, out1 + out2)
  }

  /** No overflow: between two points where the buffer is emptied at most 512 bytes arrive. */
  predicate Fits(e: Expected, arrivals: seq<Arrival>)
    decreases |arrivals|
  {
    arrivals == []
    || (|e.seen| + |Bytes(arrivals[0].item)| <= BUFFER_SIZE
        && Fits(Expect(e, arrivals[0].item, arrivals[0].full), arrivals[1..]))
  }

  /** The reader between two items. */
  function Resting(e: Expected): Parser { Parser(WAIT_HEADER, [], [], 0, e.pending, e.seen) }

  // ---- the parser reads what was printed ----

  lemma {:induction false} SumConcat(s: seq<byte>, t: seq<byte>)
    ensures Sum(s + t) == Sum(s) + Sum(t)
  {
    if s == [] {
      assert s + t == t;
    } else {
      assert (s + t)[1..] == s[1..] + t;
      SumConcat(s[1..], t);
    }
  }

  lemma FeedOne(p: Parser, b: byte, full: bool)
    ensures Feed(p, [b], full) == Step(p, b, full)
  {
    assert [b][1..] == [];
    var (p1, out) := Step(p, b, full);
    assert out + [] == out;
  }

  /** A byte that causes no output. */
  lemma FeedQuiet(p: Parser, s: seq<byte>, full: bool, p1: Parser)
    requires s != [] && Step(p, s[0], full) == (p1, [])
    ensures Feed(p, s, full) == Feed(p1, s[1..], full)
  {
    var (p2, out) := Feed(p1, s[1..], full);
    assert [] + out == out;
  }

  lemma {:induction false} FeedKey(p: Parser, k: seq<byte>, full: bool)
    requires p.mode == IN_KEY && TAB !in k && COLON !in k && |p.buf| + |k| <= BUFFER_SIZE
    ensures Feed(p, k, full) == (p.(key := p.key + k, sum := p.sum + Sum(k), buf := p.buf + k), [])
    decreases |k|
  {
    if k == [] {
      assert p.key + k == p.key && p.buf + k == p.buf;
    } else {
      var p1 := p.(key := p.key + [k[0]], sum := p.sum + k[0], buf := p.buf + [k[0]]);
      FeedQuiet(p, k, full, p1);
      FeedKey(p1, k[1..], full);
      assert p1.key + k[1..] == p.key + k && p1.buf + k[1..] == p.buf + k && p1.sum + Sum(k[1..]) == p.sum + Sum(k);
    }
  }

  lemma {:induction false} FeedValue(p: Parser, v: seq<byte>, full: bool)
    requires p.mode == IN_VALUE && CR !in v && COLON !in v && |p.buf| + |v| <= BUFFER_SIZE
    ensures Feed(p, v, full) == (p.(value := p.value + v, sum := p.sum + Sum(v), buf := p.buf + v), [])
    decreases |v|
  {
    if v == [] {
      assert p.value + v == p.value && p.buf + v == p.buf;
    } else {
      var p1 := p.(value := p.value + [v[0]], sum := p.sum + v[0], buf := p.buf + [v[0]]);
      FeedQuiet(p, v, full, p1);
      FeedValue(p1, v[1..], full);
      assert p1.value + v[1..] == p.value + v && p1.buf + v[1..] == p.buf + v && p1.sum + Sum(v[1..]) == p.sum + Sum(v);
    }
  }

  lemma {:induction false} FeedHex(p: Parser, s: seq<byte>, full: bool)
    requires p.mode == HEX && s != [] && s[|s| - 1] == LF && LF !in s[..|s| - 1] && |p.buf| + |s| <= BUFFER_SIZE
    ensures Feed(p, s, full) == (p.(mode := WAIT_HEADER, sum := 0, buf := []), [HexResponse(p.buf + s)])
    decreases |s|
  {
    if |s| == 1 {
      assert s == [LF];
      FeedOne(p, LF, full);
    } else {
      assert s[0] == s[..|s| - 1][0] && s[0] != LF;
      var p1 := p.(sum := 0, buf := p.buf + [s[0]]);
      FeedQuiet(p, s, full, p1);
      assert s[1..][..|s| - 2] == s[..|s| - 1][1..];
      FeedHex(p1, s[1..], full);
      assert p1.buf + s[1..] == p.buf + s;
    }
  }

  lemma Grown(p: Parser, x: seq<byte>, y: seq<byte>)
    ensures p.buf + x + y == p.buf + (x + y) && p.sum + Sum(x) + Sum(y) == p.sum + Sum(x + y)
  {
    SumConcat(x, y);
  }

  /** Two stretches without output in a row. */
  lemma FeedBoth(p: Parser, s: seq<byte>, t: seq<byte>, full: bool, p1: Parser, p2: Parser)
    requires Feed(p, s, full) == (p1, []) && Feed(p1, t, full) == (p2, [])
    ensures Feed(p, s + t, full) == (p2, [])
  {
    FeedConcat(p, s, t, full);
  }

  /** Key and delimiter. */
  lemma FeedKeyTab(p: Parser, k: seq<byte>, full: bool, p': Parser)
    requires p.mode == IN_KEY && p.key == [] && TAB !in k && COLON !in k && |p.buf| + |k| < BUFFER_SIZE
    requires p' == p.(mode := if k == CHECKSUM then IN_CHECKSUM
                      else IN_VALUE, key := k, sum := p.sum + Sum(k + [TAB]), buf := p.buf + (k + [TAB]))
    ensures Feed(p, k + [TAB], full) == (p', [])
  {
    var p1 := p.(key := k, sum := p.sum + Sum(k), buf := p.buf + k);
    assert p.key + k == k;
    FeedKey(p, k, full);
    SumOne(TAB);
    Grown(p, k, [TAB]);
    StepTab(p1, full, p');
    FeedOne(p1, TAB, full);
    FeedBoth(p, k, [TAB], full, p1, p');
  }

  lemma StepTab(p: Parser, full: bool, p': Parser)
    requires p.mode == IN_KEY && |p.buf| < BUFFER_SIZE
    requires p' == p.(mode := if p.key == CHECKSUM then IN_CHECKSUM
                      else IN_VALUE, sum := p.sum + TAB, buf := p.buf + [TAB])
    ensures Step(p, TAB, full) == (p', [])
  {
  }

  /** Value and line end: the field goes into the dictionary. */
  lemma FeedValueEnd(p: Parser, v: seq<byte>, full: bool, p': Parser)
    requires p.mode == IN_VALUE && p.value == [] && CR !in v && COLON !in v && |p.buf| + |v| + 2 <= BUFFER_SIZE
    requires p' == p.(mode := IN_KEY, key := [], dict := p.dict[p.key := Text(v)],
                      sum := p.sum + Sum(v + [CR, LF]), buf := p.buf + (v + [CR, LF]))
    ensures Feed(p, v + [CR, LF], full) == (p', [])
  {
    var p1 := p.(value := v, sum := p.sum + Sum(v), buf := p.buf + v);
    assert p.value + v == v;
    FeedValue(p, v, full);
    var p2 := p1.(mode := WAIT_HEADER, key := [], value := [], dict := p.dict[p.key := Text(v)], sum := p1.sum + CR,
                  buf := p1.buf + [CR]);
    var p3 := p2.(mode := IN_KEY, sum := p2.sum + LF, buf := p2.buf + [LF]);
    FeedTwo(p1, CR, LF, full, p2, p3);
    Grown(p, v, [CR, LF]);
    assert p1.buf + [CR] + [LF] == p1.buf + [CR, LF];
    FeedBoth(p, v, [CR, LF], full, p1, p');
  }

  /** A line leaves the reader ready for the next key, and its field in the dictionary. */
  lemma FeedLine(p: Parser, l: Line, full: bool, p': Parser)
    requires p.mode == IN_KEY && p.key == [] && p.value == [] && GoodLine(l) && |p.buf| + |LineBytes(l)| <= BUFFER_SIZE
    requires p' == p.(dict := p.dict[l.key := Text(l.value)], sum := p.sum + Sum(LineBytes(l)),
                      buf := p.buf + LineBytes(l))
    ensures Feed(p, LineBytes(l), full) == (p', [])
  {
    var a, b := l.key + [TAB], l.value + [CR, LF];
    assert LineBytes(l) == a + b;
    var p1 := p.(mode := IN_VALUE, key := l.key, sum := p.sum + Sum(a), buf := p.buf + a);
    FeedKeyTab(p, l.key, full, p1);
    Grown(p, a, b);
    FeedValueEnd(p1, l.value, full, p');
    FeedBoth(p, a, b, full, p1, p');
  }

  lemma {:induction false} FeedLines(p: Parser, lines: seq<Line>, full: bool, p': Parser)
    requires p.mode == IN_KEY && p.key == [] && p.value == [] && (forall l :: l in lines ==> GoodLine(l))
    requires |p.buf| + |LinesBytes(lines)| <= BUFFER_SIZE
    requires p' == p.(dict := Overlay(p.dict, lines), sum := p.sum + Sum(LinesBytes(lines)),
                      buf := p.buf + LinesBytes(lines))
    ensures Feed(p, LinesBytes(lines), full) == (p', [])
    decreases |lines|
  {
    if lines == [] {
      assert p.buf + [] == p.buf;
    } else {
      var l := lines[0];
      var p1 := p.(dict := p.dict[l.key := Text(l.value)], sum := p.sum + Sum(LineBytes(l)),
                   buf := p.buf + LineBytes(l));
      assert l in lines;
      FeedLine(p, l, full, p1);
      Grown(p, LineBytes(l), LinesBytes(lines[1..]));
      FeedLines(p1, lines[1..], full, p');
      FeedBoth(p, LineBytes(l), LinesBytes(lines[1..]), full, p1, p');
    }
  }

  lemma FeedTwo(p: Parser, a: byte, b: byte, full: bool, p1: Parser, p2: Parser)
    requires Step(p, a, full) == (p1, []) && Step(p1, b, full) == (p2, [])
    ensures Feed(p, [a, b], full) == (p2, []) && Sum([a, b]) == a + b
  {
    FeedQuiet(p, [a, b], full, p1);
    assert [a, b][1..] == [b];
    FeedOne(p1, b, full);
    SumOne(b);
  }

  lemma SumOne(b: byte)
    ensures Sum([b]) == b
  {
    assert [b][1..] == [];
  }

  // ---- items ----

  /** Reading the bytes from rest leads to the expected state and output. */
  ghost predicate ReadsAs(e: Expected, s: seq<byte>, full: bool, e': Expected) {
    var (p, out) := Feed(Resting(e), s, full);
    p == Resting(e') && e'.out == e.out + out
  }

  ghost predicate ReadsAllAs(e: Expected, arrivals: seq<Arrival>, e': Expected) {
    var (p, out) := FeedAll(Resting(e), arrivals);
    p == Resting(e') && e'.out == e.out + out
  }

  lemma ReadsNext(e: Expected, arrivals: seq<Arrival>, e1: Expected, e2: Expected)
    requires arrivals != [] && ReadsAs(e, Bytes(arrivals[0].item), arrivals[0].full, e1)
    requires ReadsAllAs(e1, arrivals[1..], e2)
    ensures ReadsAllAs(e, arrivals, e2)
  {
    var out1, out2 := Feed(Resting(e), Bytes(arrivals[0].item), arrivals[0].full).1,
        FeedAll(Resting(e1), arrivals[1..]).1;
    assert e.out + out1 + out2 == e.out + (out1 + out2);
  }

  /** Line end, lines, and the key of the checksum. */
  lemma FeedUpToChecksum(p: Parser, lines: seq<Line>, full: bool, p': Parser)
    requires p.mode == WAIT_HEADER && p.key == [] && p.value == [] && forall l :: l in lines ==> GoodLine(l)
    requires |p.buf| + |LinesBytes(lines)| + 11 <= BUFFER_SIZE
    requires var s := [CR, LF] + LinesBytes(lines) + (CHECKSUM + [TAB]);
             p' == p.(mode := IN_CHECKSUM, key := CHECKSUM, dict := Overlay(p.dict, lines), sum := p.sum + Sum(s),
                      buf := p.buf + s)
    ensures Feed(p, [CR, LF] + LinesBytes(lines) + (CHECKSUM + [TAB]), full) == (p', [])
  {
    var a, b, c := [CR, LF], LinesBytes(lines), CHECKSUM + [TAB];
    var p1 := p.(mode := IN_KEY, sum := p.sum + Sum(a), buf := p.buf + a);
    FeedHeader(p, full, p1);
    var p2 := p1.(dict := Overlay(p.dict, lines), sum := p1.sum + Sum(b), buf := p1.buf + b);
    FeedLines(p1, lines, full, p2);
    FeedBoth(p, a, b, full, p1, p2);
    SumsAndBuffers(p, a, b, c);
    FeedKeyTab(p2, CHECKSUM, full, p');
    FeedBoth(p, a + b, c, full, p2, p');
  }

  lemma FeedHeader(p: Parser, full: bool, p': Parser)
    requires p.mode == WAIT_HEADER && |p.buf| + 2 <= BUFFER_SIZE
    requires p' == p.(mode := IN_KEY, sum := p.sum + Sum([CR, LF]), buf := p.buf + [CR, LF])
    ensures Feed(p, [CR, LF], full) == (p', [])
  {
    var p1 := p.(sum := p.sum + CR, buf := p.buf + [CR]);
    assert p.buf + [CR] + [LF] == p.buf + [CR, LF];
    FeedTwo(p, CR, LF, full, p1, p1.(mode := IN_KEY, sum := p1.sum + LF, buf := p1.buf + [LF]));
  }

  lemma SumsAndBuffers(p: Parser, a: seq<byte>, b: seq<byte>, c: seq<byte>)
    ensures p.sum + Sum(a) + Sum(b) + Sum(c) == p.sum + Sum(a + b + c)
    ensures p.buf + a + b + c == p.buf + (a + b + c)
  {
    Grown(p, a, b);
    Grown(p, a + b, c);
  }

  /** After the checksum byte the dictionary goes out, waits, or is kept for the next block. */
  lemma FeedBlock(e: Expected, item: Item, full: bool)
    requires item.Block? && GoodItem(item) && |e.seen| + |Bytes(item)| <= BUFFER_SIZE
    ensures ReadsAs(e, Bytes(item), full, Expect(e, item, full))
  {
    var s := [CR, LF] + LinesBytes(item.lines) + (CHECKSUM + [TAB]);
    var p := Parser(IN_CHECKSUM, CHECKSUM, [], Sum(s), Overlay(e.pending, item.lines), e.seen + s);
    FeedUpToChecksum(Resting(e), item.lines, full, p);
    FeedChecksum(e, item, full, p);
    assert s + [item.checksum] == Bytes(item);
    FeedConcat(Resting(e), s, [item.checksum], full);
    var out := Feed(p, [item.checksum], full).1;
    assert [] + out == out;
  }

  lemma FeedChecksum(e: Expected, item: Item, full: bool, p: Parser)
    requires item.Block? && |e.seen| + |Bytes(item)| <= BUFFER_SIZE
    requires var s := [CR, LF] + LinesBytes(item.lines) + (CHECKSUM + [TAB]);
             p == Parser(IN_CHECKSUM, CHECKSUM, [], Sum(s), Overlay(e.pending, item.lines), e.seen + s)
    ensures var (p', out) := Feed(p, [item.checksum], full);
            var e' := Expect(e, item, full);
            p' == Resting(e') && e'.out == e.out + out
  {
    var s := [CR, LF] + LinesBytes(item.lines) + (CHECKSUM + [TAB]);
    assert s + [item.checksum] == Bytes(item);
    assert e.seen + s + [item.checksum] == e.seen + Bytes(item);
    SumConcat(s, [item.checksum]);
    SumOne(item.checksum);
    FeedOne(p, item.checksum, full);
    assert e.out + [] == e.out;
  }

  lemma FeedFrame(e: Expected, item: Item, full: bool)
    requires item.Hex? && GoodItem(item) && |e.seen| + |Bytes(item)| <= BUFFER_SIZE
    ensures ReadsAs(e, Bytes(item), full, Expect(e, item, full))
  {
    var p, f := Resting(e), item.frame;
    var p1 := p.(mode := HEX, buf := p.buf + [COLON]);
    FeedQuiet(p, f, full, p1);
    assert f[1..][..|f| - 2] == f[..|f| - 1][1..];
    FeedHex(p1, f[1..], full);
    assert p1.buf + f[1..] == e.seen + f;
  }

  /**
   Any sequence of blocks, with good or bad checksums, and of HEX frames between them is
   read as expected, while the output queue fills and drains: a dictionary goes out at
   every good checksum that finds room, holding all fields completed since the last one
   went out.
   */
  lemma {:induction false} ItemsAreRead(e: Expected, arrivals: seq<Arrival>)
    requires (forall a :: a in arrivals ==> GoodItem(a.item)) && Fits(e, arrivals)
    ensures ReadsAllAs(e, arrivals, ExpectAll(e, arrivals))
    decreases |arrivals|
  {
    if arrivals == [] {
      assert e.out + [] == e.out;
    } else {
      var a := arrivals[0];
      assert a in arrivals;
      var e1 := Expect(e, a.item, a.full);
      FeedItem(e, a.item, a.full);
      ItemsAreRead(e1, arrivals[1..]);
      ReadsNext(e, arrivals, e1, ExpectAll(e1, arrivals[1..]));
    }
  }

  lemma FeedItem(e: Expected, item: Item, full: bool)
    requires GoodItem(item) && |e.seen| + |Bytes(item)| <= BUFFER_SIZE
    ensures ReadsAs(e, Bytes(item), full, Expect(e, item, full))
  {
    if item.Block? {
      FeedBlock(e, item, full);
    } else {
      FeedFrame(e, item, full);
    }
  }

  // ---- good checksums only ----

  /** What a block or frame is to the receivers. */
  function Meaning(item: Item): Output {
    match item
    case Block(lines, _) => Packet(Overlay(map[], lines)[TIMESTAMP := Time])
    case Hex(frame) => HexResponse(frame)
  }

  function Meanings(items: seq<Item>): seq<Output> {
    if items == [] then [] else [Meaning(items[0])] + Meanings(items[1..])
  }

  lemma ExpectGoodOne(out: seq<Output>, item: Item)
    requires ChecksumHolds(item)
    ensures Expect(Expected(map[], [], out), item, false) == Expected(map[], [], out + [Meaning(item)])
  {
    assert item.Hex? ==> [] + item.frame == item.frame;
  }

  /** Items that arrive while there is room in the queue. */
  function WithRoom(items: seq<Item>): seq<Arrival> {
    if items == [] then [] else [Arrival(items[0], false)] + WithRoom(items[1..])
  }

  lemma {:induction false} WithRoomItems(items: seq<Item>)
    ensures forall a :: a in WithRoom(items) ==> a.item in items
  {
    if items != [] {
      WithRoomItems(items[1..]);
    }
  }

  lemma {:induction false} FeedWithRoom(p: Parser, items: seq<Item>)
    ensures FeedAll(p, WithRoom(items)) == Feed(p, Print(items), false)
    decreases |items|
  {
    if items != [] {
      assert WithRoom(items)[1..] == WithRoom(items[1..]);
      FeedConcat(p, Bytes(items[0]), Print(items[1..]), false);
      FeedWithRoom(Feed(p, Bytes(items[0]), false).0, items[1..]);
    }
  }

  /** The first of several items that arrive while there is room. */
  lemma ArrivesFirst(e: Expected, items: seq<Item>)
    requires items != []
    ensures var e' := Expect(e, items[0], false);
            && ExpectAll(e, WithRoom(items)) == ExpectAll(e', WithRoom(items[1..]))
            && (Fits(e, WithRoom(items))
                <==> |e.seen| + |Bytes(items[0])| <= BUFFER_SIZE && Fits(e', WithRoom(items[1..])))
  {
    assert WithRoom(items)[0] == Arrival(items[0], false) && WithRoom(items)[1..] == WithRoom(items[1..]);
  }

  lemma ExpectNext(out: seq<Output>, items: seq<Item>, out1: seq<Output>)
    requires items != [] && ChecksumHolds(items[0]) && |Bytes(items[0])| <= BUFFER_SIZE
             && out1 == out + [Meaning(items[0])]
    ensures ExpectAll(Expected(map[], [], out), WithRoom(items))
            == ExpectAll(Expected(map[], [], out1), WithRoom(items[1..]))
    ensures Fits(Expected(map[], [], out1), WithRoom(items[1..])) ==> Fits(Expected(map[], [], out), WithRoom(items))
  {
    ArrivesFirst(Expected(map[], [], out), items);
    ExpectGoodOne(out, items[0]);
  }

  lemma {:induction false} ExpectGood(out: seq<Output>, items: seq<Item>)
    requires forall i :: i in items ==> ChecksumHolds(i) && |Bytes(i)| <= BUFFER_SIZE
    ensures ExpectAll(Expected(map[], [], out), WithRoom(items)) == Expected(map[], [], out + Meanings(items))
    ensures Fits(Expected(map[], [], out), WithRoom(items))
    decreases |items|
  {
    if items == [] {
      assert out + [] == out;
    } else {
      assert items[0] in items;
      var out1 := out + [Meaning(items[0])];
      ExpectNext(out, items, out1);
      ExpectGood(out1, items[1..]);
      MeaningsBehind(out, items);
    }
  }

  lemma MeaningsBehind(out: seq<Output>, items: seq<Item>)
    requires items != []
    ensures out + [Meaning(items[0])] + Meanings(items[1..]) == out + Meanings(items)
  {
  }

  /**
   Printing any blocks with correct checksums, with HEX frames between them, and reading
   the bytes one by one gives exactly those dictionaries and frames, in order, and leaves
   the reader as it was at the start.
   */
  lemma BlocksComeBack(items: seq<Item>)
    requires forall i :: i in items ==> GoodItem(i) && ChecksumHolds(i) && |Bytes(i)| <= BUFFER_SIZE
    ensures Feed(START, Print(items), false) == (START, Meanings(items))
  {
    ExpectGood([], items);
    assert [] + Meanings(items) == Meanings(items);
    WithRoomItems(items);
    ItemsAreRead(Expected(map[], [], []), WithRoom(items));
    FeedWithRoom(START, items);
    var (p, out) := Feed(START, Print(items), false);
    assert [] + out == out;
  }
}

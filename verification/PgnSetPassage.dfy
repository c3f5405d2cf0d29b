/**
 The way of a message that comes back, through its own fields and through its only item.
 */
module PgnSetPassage {
  import opened Wrappers
  import opened Struct
  import opened PgnFields
  import opened PgnIr
  import opened PgnExact
  import opened PgnText
  import opened PgnProgram
  import opened PgnMessage
  import opened PgnCompiler
  import opened PgnRepeated
  import opened PgnFrames
  import opened PgnTwoRuns
  import opened PgnTransfer
  import opened PgnFaithful
  import opened PgnSetSizes

  // ---- messages that come back ----

  /** Every value in its range, and no longer than a fast packet. */
  predicate InRangeMessage(s: FieldSet, msg: Message) {
    MessageOk(s, msg, true) && SetExact(s, msg, true) && SetSize(s, msg) <= BUFFER_SIZE
  }

  /** As emitted, the message is decoded again from what it is encoded to. */
  predicate SetComesBack(s: FieldSet, msg: Message) {
    var p := CompileSet(s, false);
    && p.Ok?
    && var payload := EncodeMessage(p.value, msg);
       && payload.Some? && DecodeMessage(p.value, payload.value).Some?
       && SetRecovered(s, msg, DecodeMessage(p.value, payload.value).value.0)
  }

  predicate SetFaithful(s: FieldSet) {
    AllFaithful(s.fields) && (s.repeat.Some? ==> AllFaithful(s.repeat.value.fields))
  }

  ghost predicate WholeSetComesBack(s: FieldSet) {
    forall msg :: InRangeMessage(s, msg) ==> SetComesBack(s, msg)
  }

  /** The number of items is not in a three-byte field. */
  predicate CounterInOneSlot(s: FieldSet) {
    s.repeat.Some? ==> forall f :: f in s.fields && f.Number() && Slots(f) == 2 ==> s.repeat.value.count !in Names(f)
  }

  // ---- the way of a message that comes back ----

  lemma ItemCode(fs: seq<Field>, r: RepeatProgram)
    requires IsItemProgram(r, fs, false)
    ensures r.item.size == End(Groups(fs), 0) && (r.variable || NoVarText(Flatten(Groups(fs))))
    ensures GenEncodeAll(LayoutOf(Groups(fs), 0, false), r.variable, false) == Ok(r.item.encode)
    ensures GenDecodeAll(LayoutOf(Groups(fs), 0, false), None, false) == Ok(r.item.decode)
  {
  }

  lemma EndsBehind(gs: seq<seq<Field>>, end: nat, variable: bool, ops: seq<EncodeOp>, st: EncodeState,
                   fin: EncodeState) returns (next: nat)
    requires (forall g :: g in gs ==> IsGroup(g)) && (variable || NoVarText(Flatten(gs))) && end == End(gs, 0)
    requires GenEncodeAll(LayoutOf(gs, 0, false), variable, false) == Ok(ops) && RunEncode(ops, st) == Some(fin)
    ensures next == (if variable then fin.cursor else end + st.cursor) == Position(fin, End(gs, 0), variable)
    ensures Grows(st.buf, fin.buf, st.cursor) && st.cursor <= next
  {
    GroupsGrow(gs, 0, variable, ops, st, fin);
    next := if variable then fin.cursor else end + st.cursor;
    assert Position(st, 0, variable) == st.cursor;
  }

  lemma ItemUnfolds(r: RepeatProgram, item: Object, buf: seq<byte>, cursor: nat) returns (fin: EncodeState)
    requires EncodeItem(r, item, buf, cursor).Some?
    ensures RunEncode(r.item.encode, EncodeState(buf, cursor, Fresh(item))) == Some(fin)
    ensures EncodeItem(r, item, buf, cursor).value.0 == fin.buf
    ensures EncodeItem(r, item, buf, cursor).value.1 == if r.variable then fin.cursor else r.item.size + cursor
  {
    fin := RunEncode(r.item.encode, EncodeState(buf, cursor, Fresh(item))).value;
  }

  /** An item is written behind the cursor, and moves it on. */
  lemma ItemGrows(fs: seq<Field>, r: RepeatProgram, item: Object, buf: seq<byte>, cursor: nat)
      returns (fin: EncodeState, next: nat)
    requires IsItemProgram(r, fs, false) && EncodeItem(r, item, buf, cursor).Some?
    ensures RunEncode(r.item.encode, EncodeState(buf, cursor, Fresh(item))) == Some(fin)
    ensures EncodeItem(r, item, buf, cursor).value.0 == fin.buf && EncodeItem(r, item, buf, cursor).value.1 == next
    ensures next == Position(fin, End(Groups(fs), 0), r.variable)
    ensures Grows(buf, fin.buf, cursor) && cursor <= next
  {
    ItemCode(fs, r);
    fin := ItemUnfolds(r, item, buf, cursor);
    next := EndsBehind(Groups(fs), r.item.size, r.variable, r.item.encode, EncodeState(buf, cursor, Fresh(item)), fin);
  }

  lemma {:induction false} ItemsGrow(fs: seq<Field>, r: RepeatProgram, items: seq<Object>, buf: seq<byte>, cursor: nat)
    requires IsItemProgram(r, fs, false) && EncodeItems(r, items, buf, cursor).Some?
    ensures var (buf', cursor') := EncodeItems(r, items, buf, cursor).value;
            Grows(buf, buf', cursor) && cursor <= cursor'
    decreases |items|
  {
    if items != [] {
      var fin, next := ItemGrows(fs, r, items[0], buf, cursor);
      ItemsGrow(fs, r, items[1..], fin.buf, next);
    }
  }

  /** The payload is the buffer up to the cursor: it has what was written before some point on the way. */
  lemma CutCarries(buf: seq<byte>, buf': seq<byte>, lo: nat, hi: nat, cursor: nat)
    requires Grows(buf, buf', hi) && hi <= cursor
    ensures Carried(Slice(buf', 0, cursor), buf, lo, hi)
  {
    forall k | lo <= k < hi && k < |buf| ensures SameByte(Slice(buf', 0, cursor), buf, k) {
    }
  }

  lemma SetPrograms(s: FieldSet) returns (p: SetProgram)
    requires CompileSet(s, false).Ok?
    ensures CompileSet(s, false) == Ok(p) && Compile(s.fields, CounterOf(s), true, false) == Ok(p.own)
    ensures s.repeat.None? ==> p.repeat.None?
    ensures s.repeat.Some? ==> p.repeat.Some? && p.repeat.value.count == s.repeat.value.count
                               && IsItemProgram(p.repeat.value, s.repeat.value.fields, false)
  {
    p := CompileSet(s, false).value;
  }

  /** The way of the own fields. */
  lemma OwnPasses(s: FieldSet, msg: Message) returns (t: Transfer)
    requires SetComesBack(s, msg)
    ensures Passes(Groups(s.fields), 0, true, CounterOf(s), t)
    ensures t.st == EncodeState(Zeros(BUFFER_SIZE), 0, Fresh(msg.attributes)) && t.ds == DecodeState(0, Fresh(map[]))
    ensures Recovered(AllNames(s.fields), msg.attributes, t.r.m.obj)
    ensures t.payload == EncodeMessage(CompileSet(s, false).value, msg).value
  {
    var p := SetPrograms(s);
    var st := EncodeState(Zeros(BUFFER_SIZE), 0, Fresh(msg.attributes));
    var fin := RunEncode(p.own.encode, st).value;
    var buf, cursor := EncodedRepeat(s, p, msg.items, fin.buf, fin.cursor);
    var payload := EncodeMessage(p, msg).value;
    var ds := DecodeState(0, Fresh(map[]));
    t := Transfer(st, fin, payload, ds, RunDecode(p.own.decode, payload, ds).value);
    CutCarries(fin.buf, buf, 0, fin.cursor, cursor);
    DecodedAttributes(p, payload, t.r);
  }

  lemma EncodedRepeat(s: FieldSet, p: SetProgram, items: seq<Object>, buf: seq<byte>, cursor: nat)
    returns (buf': seq<byte>, cursor': nat)
    requires s.repeat.None? ==> p.repeat.None?
    requires s.repeat.Some? ==> p.repeat.Some? && IsItemProgram(p.repeat.value, s.repeat.value.fields, false)
    requires EncodeRepeat(p.repeat, items, buf, cursor).Some?
    ensures EncodeRepeat(p.repeat, items, buf, cursor) == Some((buf', cursor')) && Grows(buf, buf', cursor)
            && cursor <= cursor'
  {
    if s.repeat.Some? {
      ItemsGrow(s.repeat.value.fields, p.repeat.value, items, buf, cursor);
    }
    var r := EncodeRepeat(p.repeat, items, buf, cursor).value;
    buf', cursor' := r.0, r.1;
  }

  // ---- the way of the only item ----

  /** Own fields that are handled are written in one piece, as long as there is room. */
  lemma OwnWritten(s: FieldSet, p: SetProgram, o: Object) returns (own: EncodeState, b: seq<byte>)
    requires Compilable(s.fields, o, false) && Compile(s.fields, CounterOf(s), true, false) == Ok(p.own)
    requires ListSize(s.fields, o) <= BUFFER_SIZE
    requires RunEncode(p.own.encode, EncodeState(Zeros(BUFFER_SIZE), 0, Fresh(o))).Some?
    ensures RunEncode(p.own.encode, EncodeState(Zeros(BUFFER_SIZE), 0, Fresh(o))) == Some(own)
    ensures FieldsPayload(s.fields, o, false) == Some(b) && |own.buf| == BUFFER_SIZE
    ensures own.cursor == |b| == ListSize(s.fields, o) && Holds(own.buf, 0, b)
  {
    var st := EncodeState(Zeros(BUFFER_SIZE), 0, Fresh(o));
    var q := EncodeSet(s.fields, CounterOf(s), true, false, st);
    own := RunEncode(p.own.encode, st).value;
    b := FieldsPayload(s.fields, o, false).value;
    FieldsPayloadSize(s.fields, o, false);
  }

  /** encode_payload of a message with one item. */
  lemma ItemPayload(p: SetProgram, msg: Message, own: EncodeState) returns (payload: seq<byte>)
    requires p.repeat.Some? && |msg.items| == 1 && EncodeMessage(p, msg).Some?
    requires RunEncode(p.own.encode, EncodeState(Zeros(BUFFER_SIZE), 0, Fresh(msg.attributes))) == Some(own)
    ensures EncodeItem(p.repeat.value, msg.items[0], own.buf, own.cursor).Some?
    ensures var e := EncodeItem(p.repeat.value, msg.items[0], own.buf, own.cursor).value;
            EncodeMessage(p, msg) == Some(payload) && payload == Slice(e.0, 0, e.1)
  {
    EncodeMessageUnfolds(p, msg, Some((own.buf, own.cursor)));
    EncodeOnly(p.repeat.value, msg.items, own.buf, own.cursor);
    payload := EncodeMessage(p, msg).value;
  }

  lemma EncodeOnly(r: RepeatProgram, items: seq<Object>, buf: seq<byte>, cursor: nat)
    requires |items| == 1
    ensures EncodeItems(r, items, buf, cursor) == EncodeItem(r, items[0], buf, cursor)
  {
    var rest := items[1..];
    assert rest == [];
    var e := EncodeItem(r, items[0], buf, cursor);
    if e.Some? {
      assert EncodeItems(r, rest, e.value.0, e.value.1) == Some((e.value.0, e.value.1));
    }
  }

  /** decode_payload with a counter that says 1. */
  lemma OneItemDecoded(p: SetProgram, payload: seq<byte>, d: DecodeState) returns (e: DecodeState)
    requires p.repeat.Some? && DecodeMessage(p, payload).Some?
    requires RunDecode(p.own.decode, payload, DecodeState(0, Fresh(map[]))) == Some(d)
    requires p.repeat.value.count in d.m.obj && d.m.obj[p.repeat.value.count] == Int(1)
    ensures RunDecode(p.repeat.value.item.decode, payload, DecodeState(d.cursor, Fresh(map[]))) == Some(e)
    ensures DecodeMessage(p, payload).value.0 == Message(d.m.obj, [e.m.obj])
  {
    var r := p.repeat.value;
    DecodeMessageUnfolds(p, payload, d);
    e := RunDecode(r.item.decode, payload, DecodeState(d.cursor, Fresh(map[]))).value;
    var next := if r.variable then e.cursor else d.cursor + r.item.size;
    assert DecodeItems(r, 0, payload, next) == Some(([], next));
    assert DecodeItems(r, 1, payload, d.cursor) == Some(([e.m.obj] + [], next));
  }

  lemma StillThere(b: seq<byte>, buf: seq<byte>, buf': seq<byte>, cursor: nat)
    requires Holds(buf, 0, b) && Grows(buf, buf', |b|) && |b| <= cursor
    ensures Holds(Slice(buf', 0, cursor), 0, b)
  {
    assert |b| <= |Slice(buf', 0, cursor)|;
    forall i | 0 <= i < |b| ensures Slice(buf', 0, cursor)[i] == b[i] {
      assert buf[0..0 + |b|][i] == b[i];
    }
  }

  predicate OneItem(s: FieldSet, msg: Message) {
    && s.repeat.Some? && |msg.items| == 1
    && s.repeat.value.count in AllNames(s.fields)
    && s.repeat.value.count in msg.attributes && msg.attributes[s.repeat.value.count] == Int(1)
  }

  /** Decoding the own fields of a message that comes back: up to their end, with the counter. */
  lemma OwnDecoded(s: FieldSet, msg: Message, p: SetProgram, payload: seq<byte>, b: seq<byte>) returns (d: DecodeState)
    requires SetComesBack(s, msg) && OneItem(s, msg) && CompileSet(s, false) == Ok(p)
    requires Compilable(s.fields, msg.attributes, false) && FieldsPayload(s.fields, msg.attributes, false) == Some(b)
    requires EncodeMessage(p, msg) == Some(payload) && Holds(payload, 0, b)
    ensures RunDecode(p.own.decode, payload, DecodeState(0, Fresh(map[]))) == Some(d) && d.cursor == |b|
    ensures s.repeat.value.count in d.m.obj && d.m.obj[s.repeat.value.count] == Int(1)
  {
    var q := SetPrograms(s);
    var own := DecodeSet(s.fields, CounterOf(s), true, false, payload, DecodeState(0, Fresh(map[])), msg.attributes);
    d := RunDecode(p.own.decode, payload, DecodeState(0, Fresh(map[]))).value;
    DecodedAttributes(p, payload, d);
  }

  /** The way of the item, behind own fields that are handled. */
  lemma ItemPasses(s: FieldSet, msg: Message, p: SetProgram) returns (own: EncodeState, t: Transfer)
    requires SetComesBack(s, msg) && OneItem(s, msg) && CompileSet(s, false) == Ok(p)
    requires Compilable(s.fields, msg.attributes, false) && ListSize(s.fields, msg.attributes) <= BUFFER_SIZE
    ensures RunEncode(p.own.encode, EncodeState(Zeros(BUFFER_SIZE), 0, Fresh(msg.attributes))) == Some(own)
    ensures |own.buf| == BUFFER_SIZE && own.cursor == ListSize(s.fields, msg.attributes)
    ensures var r := s.repeat.value;
            && Passes(Groups(r.fields), 0, HasVarText(r.fields), None, t)
            && t.st == EncodeState(own.buf, own.cursor, Fresh(msg.items[0]))
               && t.ds == DecodeState(own.cursor, Fresh(map[]))
            && Recovered(AllNames(r.fields), msg.items[0], t.r.m.obj)
  {
    var q := SetPrograms(s);
    var b, fin, next;
    own, b := OwnWritten(s, p, msg.attributes);
    var payload := ItemPayload(p, msg, own);
    fin, next := ItemGrows(s.repeat.value.fields, p.repeat.value, msg.items[0], own.buf, own.cursor);
    StillThere(b, own.buf, fin.buf, next);
    var d := OwnDecoded(s, msg, p, payload, b);
    var e := OneItemDecoded(p, payload, d);
    t := Transfer(EncodeState(own.buf, own.cursor, Fresh(msg.items[0])), fin, payload,
                  DecodeState(own.cursor, Fresh(map[])), e);
    CutCarries(fin.buf, fin.buf, own.cursor, next, next);
    ItemCode(s.repeat.value.fields, p.repeat.value);
  }
}

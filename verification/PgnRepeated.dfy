/**
 Messages with variable-length strings and a repeated set of fields: encoding along the
 running start_byte, then item by item; decoding counts the items it reads.
 */
module PgnRepeated {
  import opened Wrappers
  import opened Struct
  import opened PgnFields
  import opened PgnIr
  import opened PgnEmit
  import opened PgnExact
  import opened PgnText
  import opened PgnProgram
  import opened PgnMessage
  import opened PgnCompiler

  /** DEFAULT_BUFFER_SIZE: the longest fast packet. */
  const BUFFER_SIZE := 31 * 7 + 6

  predicate HasVarText(fs: seq<Field>) { exists f :: f in fs && f.VarText? }

  datatype RepeatProgram = RepeatProgram(count: string, item: Program, variable: bool)
  datatype SetProgram = SetProgram(own: Program, repeat: Option<RepeatProgram>)

  /** A message object: its attributes and the list of items of its repeated set. */
  datatype Message = Message(attributes: Object, items: seq<Object>)

  function CounterOf(s: FieldSet): Option<string> {
    match s.repeat case None => None case Some(r) => Some(r.count)
  }

  /** gen_class for a set of variable size; the item class picks its own generator. */
  function CompileSet(s: FieldSet, corrected: bool): Result<SetProgram, GenError> {
    match Compile(s.fields, CounterOf(s), true, corrected)
    case Err(e) => Err(e)
    case Ok(own) =>
      match s.repeat
      case None => Ok(SetProgram(own, None))
      case Some(r) =>
        match Compile(r.fields, None, HasVarText(r.fields), corrected)
        case Err(e) => Err(e)
        case Ok(item) => Ok(SetProgram(own, Some(RepeatProgram(r.count, item, HasVarText(r.fields)))))
  }

  /** encode_payload(buffer, start_byte) of an item: the buffer and where the next item goes. */
  function EncodeItem(r: RepeatProgram, item: Object, buf: seq<byte>, cursor: nat): Option<(seq<byte>, nat)> {
    match RunEncode(r.item.encode, EncodeState(buf, cursor, Fresh(item)))
    case None => None
    case Some(st) => Some((st.buf, if r.variable then st.cursor else r.item.size + cursor))
  }

  function EncodeItems(r: RepeatProgram, items: seq<Object>, buf: seq<byte>, cursor: nat): Option<(seq<byte>, nat)> {
    if items == [] then Some((buf, cursor))
    else
      match EncodeItem(r, items[0], buf, cursor)
      case None => None
      case Some((buf', cursor')) => EncodeItems(r, items[1..], buf', cursor')
  }

  function EncodeRepeat(r: Option<RepeatProgram>, items: seq<Object>, buf: seq<byte>,
                        cursor: nat): Option<(seq<byte>, nat)> {
    match r
    case None => Some((buf, cursor))
    case Some(r) => EncodeItems(r, items, buf, cursor)
  }

  /** encode_payload of a message of variable size. */
  function EncodeMessage(p: SetProgram, msg: Message): Option<seq<byte>> {
    match RunEncode(p.own.encode, EncodeState(Zeros(BUFFER_SIZE), 0, Fresh(msg.attributes)))
    case None => None
    case Some(st) =>
      match EncodeRepeat(p.repeat, msg.items, st.buf, st.cursor)
      case None => None
      case Some((buf, cursor)) => Some(Slice(buf, 0, cursor))
  }

  /** `for i in range(0, count)`: decode a fresh item each time. */
  function DecodeItems(r: RepeatProgram, n: nat, payload: seq<byte>, cursor: nat): Option<(seq<Object>, nat)> {
    if n == 0 then Some(([], cursor))
    else
      match RunDecode(r.item.decode, payload, DecodeState(cursor, Fresh(map[])))
      case None => None
      case Some(st) =>
        match DecodeItems(r, n - 1, payload, if r.variable then st.cursor else cursor + r.item.size)
        case None => None
        case Some((items, last)) => Some(([st.m.obj] + items, last))
  }

  /** decode_payload into a fresh object: the message and the final start_byte. */
  function DecodeMessage(p: SetProgram, payload: seq<byte>): Option<(Message, nat)> {
    match RunDecode(p.own.decode, payload, DecodeState(0, Fresh(map[])))
    case None => None
    case Some(st) =>
      match p.repeat
      case None => Some((Message(st.m.obj, []), st.cursor))
      case Some(r) =>
        if r.count !in st.m.obj || !st.m.obj[r.count].Int? then None
        else
          var count := st.m.obj[r.count].i;
          match DecodeItems(r, if count < 0 then 0 else count, payload, st.cursor)
          case None => None
          case Some((items, last)) => Some((Message(st.m.obj, items), last))
  }

  // ---- what the theorem is about ----

  predicate ItemsOk(fs: seq<Field>, items: seq<Object>, corrected: bool) {
    forall item :: item in items ==> Compilable(fs, item, corrected)
  }

  /** The message object matches its set: the counter counts the items. */
  predicate MessageOk(s: FieldSet, msg: Message, corrected: bool) {
    && Compilable(s.fields, msg.attributes, corrected)
    && match s.repeat
       case None => msg.items == []
       case Some(r) =>
         && SupportedFields(r.fields, corrected) && Distinct(AllNames(r.fields))
         && ItemsOk(r.fields, msg.items, corrected)
         && r.count in AllNames(s.fields)
         && r.count in msg.attributes && msg.attributes[r.count] == Int(|msg.items|)
  }

  predicate ItemsExact(fs: seq<Field>, items: seq<Object>, corrected: bool)
    requires ItemsOk(fs, items, corrected)
  {
    items == []
    || (assert items[0] in items;
        MessageExact(fs, items[0], None, corrected) && ItemsExact(fs, items[1..], corrected))
  }

  predicate SetExact(s: FieldSet, msg: Message, corrected: bool)
    requires MessageOk(s, msg, corrected)
  {
    && MessageExact(s.fields, msg.attributes, CounterOf(s), corrected)
    && (s.repeat.Some? ==> ItemsExact(s.repeat.value.fields, msg.items, corrected))
  }

  predicate ItemsRecovered(fs: seq<Field>, items: seq<Object>, items': seq<Object>) {
    |items'| == |items| && forall i :: 0 <= i < |items| ==> Recovered(AllNames(fs), items[i], items'[i])
  }

  predicate SetRecovered(s: FieldSet, msg: Message, msg': Message) {
    && Recovered(AllNames(s.fields), msg.attributes, msg'.attributes)
    && ItemsRecovered(if s.repeat.Some? then s.repeat.value.fields else [], msg.items, msg'.items)
  }

  function FieldsPayload(fs: seq<Field>, obj: Object, corrected: bool): Option<seq<byte>> {
    if Compilable(fs, obj, corrected) then
      GroupsAreOk(fs, obj, corrected);
      PayloadOf(Groups(fs), obj, corrected)
    else None
  }

  function ItemsPayload(fs: seq<Field>, items: seq<Object>, corrected: bool): Option<seq<byte>> {
    if items == [] then Some([])
    else Concat(FieldsPayload(fs, items[0], corrected), ItemsPayload(fs, items[1..], corrected))
  }

  function SetPayload(s: FieldSet, msg: Message, corrected: bool): Option<seq<byte>> {
    Concat(FieldsPayload(s.fields, msg.attributes, corrected), RepeatPayload(s, msg, corrected))
  }

  function RepeatPayload(s: FieldSet, msg: Message, corrected: bool): Option<seq<byte>> {
    if s.repeat.Some? then ItemsPayload(s.repeat.value.fields, msg.items, corrected) else Some([])
  }

  // ---- one field set at the running start_byte ----

  /** The compiled encode of a set, at any place of any buffer. */
  lemma EncodeSet(fs: seq<Field>, counter: Option<string>, variable: bool, corrected: bool, st: EncodeState)
    returns (p: Program)
    requires Compilable(fs, st.m.obj, corrected) && (variable || NoVarText(fs))
    ensures Compile(fs, counter, variable, corrected) == Ok(p)
    ensures Encodes(p.encode, st, 0, FieldsPayload(fs, st.m.obj, corrected), variable)
    ensures NoVarText(fs) && FieldsPayload(fs, st.m.obj, corrected).Some? ==>
              |FieldsPayload(fs, st.m.obj, corrected).value| == p.size
  {
    GroupsAreOk(fs, st.m.obj, corrected);
    var enc := EncodeGroups(Groups(fs), 0, st, variable, corrected);
    var dec := DecodeGroups(Groups(fs), 0, [], DecodeState(0, Fresh(map[])), st.m.obj, counter, corrected);
    p := Compile(fs, counter, variable, corrected).value;
    if NoVarText(fs) && FieldsPayload(fs, st.m.obj, corrected).Some? {
      PayloadLength(Groups(fs), 0, st.m.obj, corrected);
    }
  }

  lemma DecodeSet(fs: seq<Field>, counter: Option<string>, variable: bool, corrected: bool, payload: seq<byte>,
                  st: DecodeState, obj: Object) returns (p: Program)
    requires Compilable(fs, obj, corrected) && (variable || NoVarText(fs))
    ensures Compile(fs, counter, variable, corrected) == Ok(p)
    ensures Decodes(p.decode, payload, st, FieldsPayload(fs, obj, corrected), AllNames(fs), obj,
                    MessageExact(fs, obj, counter, corrected))
  {
    GroupsAreOk(fs, obj, corrected);
    var enc := EncodeGroups(Groups(fs), 0, EncodeState([], 0, Fresh(obj)), variable, corrected);
    var dec := DecodeGroups(Groups(fs), 0, payload, st, obj, counter, corrected);
    p := Compile(fs, counter, variable, corrected).value;
  }

  // ---- items ----

  predicate IsItemProgram(r: RepeatProgram, fs: seq<Field>, corrected: bool) {
    && Compile(fs, None, HasVarText(fs), corrected) == Ok(r.item)
    && r.variable == HasVarText(fs)
  }

  /** Writing b at the cursor and moving past it, or raising when there is no b. */
  ghost predicate Puts(r: Option<(seq<byte>, nat)>, buf: seq<byte>, cursor: nat, b: Option<seq<byte>>) {
    && (b.None? ==> r == None)
    && (b.Some? && cursor + |b.value| <= |buf| ==> r == Some((Splice(buf, cursor, b.value), cursor + |b.value|)))
  }

  lemma EncodeOneItem(r: RepeatProgram, fs: seq<Field>, item: Object, buf: seq<byte>, cursor: nat, corrected: bool)
    requires IsItemProgram(r, fs, corrected) && Compilable(fs, item, corrected)
    ensures Puts(EncodeItem(r, item, buf, cursor), buf, cursor, FieldsPayload(fs, item, corrected))
  {
    var st := EncodeState(buf, cursor, Fresh(item));
    if r.variable {
      var p := EncodeSet(fs, None, true, corrected, st);
      VariableItemPuts(r, st, FieldsPayload(fs, item, corrected));
    } else {
      var p := EncodeSet(fs, None, false, corrected, st);
      FixedItemPuts(r, st, FieldsPayload(fs, item, corrected));
    }
  }

  /** The item class returns the running start_byte, or the size added to where it began. */
  lemma VariableItemPuts(r: RepeatProgram, st: EncodeState, b: Option<seq<byte>>)
    requires r.variable && Encodes(r.item.encode, st, 0, b, true)
             && st == EncodeState(st.buf, st.cursor, Fresh(st.m.obj))
    ensures Puts(EncodeItem(r, st.m.obj, st.buf, st.cursor), st.buf, st.cursor, b)
  {
  }

  lemma FixedItemPuts(r: RepeatProgram, st: EncodeState, b: Option<seq<byte>>)
    requires !r.variable && Encodes(r.item.encode, st, 0, b, false)
             && st == EncodeState(st.buf, st.cursor, Fresh(st.m.obj))
    requires b.Some? ==> |b.value| == r.item.size
    ensures Puts(EncodeItem(r, st.m.obj, st.buf, st.cursor), st.buf, st.cursor, b)
  {
  }

  lemma PutsNext(first: Option<(seq<byte>, nat)>, r: Option<(seq<byte>, nat)>, buf: seq<byte>, cursor: nat,
                 a: Option<seq<byte>>, b: Option<seq<byte>>)
    requires Puts(first, buf, cursor, a)
    requires first.None? ==> r.None?
    requires first.Some? ==> Puts(r, first.value.0, first.value.1, b)
    ensures Puts(r, buf, cursor, Concat(a, b))
  {
    if a.Some? && b.Some? && cursor + |a.value| + |b.value| <= |buf| {
      SpliceSplice(buf, cursor, a.value, b.value);
    }
  }

  lemma {:induction false} EncodeAllItems(r: RepeatProgram, fs: seq<Field>, items: seq<Object>, buf: seq<byte>,
                                          cursor: nat, corrected: bool)
    requires IsItemProgram(r, fs, corrected) && ItemsOk(fs, items, corrected)
    ensures Puts(EncodeItems(r, items, buf, cursor), buf, cursor, ItemsPayload(fs, items, corrected))
    decreases |items|
  {
    if items == [] {
      if cursor <= |buf| {
        assert Splice(buf, cursor, []) == buf;
      }
    } else {
      assert items[0] in items;
      EncodeOneItem(r, fs, items[0], buf, cursor, corrected);
      var first := EncodeItem(r, items[0], buf, cursor);
      if first.Some? {
        EncodeAllItems(r, fs, items[1..], first.value.0, first.value.1, corrected);
      }
      PutsNext(first, EncodeItems(r, items, buf, cursor), buf, cursor,
               FieldsPayload(fs, items[0], corrected), ItemsPayload(fs, items[1..], corrected));
    }
  }

  /** Reading b back as a list of items. */
  ghost predicate ReadsItems(r: Option<(seq<Object>, nat)>, payload: seq<byte>, cursor: nat, b: Option<seq<byte>>,
                             fs: seq<Field>, items: seq<Object>, exact: bool) {
    && (b.None? ==> !exact)
    && (b.Some? && Holds(payload, cursor, b.value) ==>
         r.Some? && r.value.1 == cursor + |b.value| && (ItemsRecovered(fs, items, r.value.0) <==> exact))
  }

  /** Items come back in order, and the decode cursor ends where the encode cursor did. */
  lemma {:induction false} DecodeAllItems(r: RepeatProgram, fs: seq<Field>, items: seq<Object>, payload: seq<byte>,
                                          cursor: nat, corrected: bool)
    requires IsItemProgram(r, fs, corrected) && ItemsOk(fs, items, corrected)
    ensures ReadsItems(DecodeItems(r, |items|, payload, cursor), payload, cursor, ItemsPayload(fs, items, corrected),
                       fs, items, ItemsExact(fs, items, corrected))
    decreases |items|
  {
    if items != [] {
      var item, rest := items[0], items[1..];
      assert item in items;
      DecodeOneItem(r, fs, item, payload, cursor, corrected);
      var a, b := FieldsPayload(fs, item, corrected), ItemsPayload(fs, rest, corrected);
      var next := if a.Some? then cursor + |a.value| else cursor;
      DecodeAllItems(r, fs, rest, payload, next, corrected);
      ReadsNext(r, fs, items, payload, cursor, a, b, MessageExact(fs, item, None, corrected),
                ItemsExact(fs, rest, corrected));
    }
  }

  lemma ReadsNext(r: RepeatProgram, fs: seq<Field>, items: seq<Object>, payload: seq<byte>, cursor: nat,
                  a: Option<seq<byte>>, b: Option<seq<byte>>, exact: bool, exact': bool)
    requires items != []
    requires Decodes(r.item.decode, payload, DecodeState(cursor, Fresh(map[])), a, AllNames(fs), items[0], exact)
    requires a.Some? && !r.variable ==> |a.value| == r.item.size
    requires var next := if a.Some? then cursor + |a.value| else cursor;
             ReadsItems(DecodeItems(r, |items| - 1, payload, next), payload, next, b, fs, items[1..], exact')
    ensures ReadsItems(DecodeItems(r, |items|, payload, cursor), payload, cursor, Concat(a, b), fs, items,
                       exact && exact')
  {
    if a.Some? && b.Some? {
      if Holds(payload, cursor, a.value + b.value) {
        HoldsParts(payload, cursor, a.value, b.value);
        NextItem(r, fs, items, payload, DecodeState(cursor, Fresh(map[])), cursor + |a.value|);
      }
    }
  }

  lemma NextItem(r: RepeatProgram, fs: seq<Field>, items: seq<Object>, payload: seq<byte>, st: DecodeState, next: nat)
    requires items != [] && RunDecode(r.item.decode, payload, st).Some? && st == DecodeState(st.cursor, Fresh(map[]))
    requires next == if r.variable then RunDecode(r.item.decode, payload, st).value.cursor else st.cursor + r.item.size
    requires DecodeItems(r, |items| - 1, payload, next).Some?
    ensures var more := DecodeItems(r, |items| - 1, payload, next).value;
            var all := DecodeItems(r, |items|, payload, st.cursor);
            && all.Some? && all.value.1 == more.1
            && (ItemsRecovered(fs, items, all.value.0)
                <==> Recovered(AllNames(fs), items[0], RunDecode(r.item.decode, payload, st).value.m.obj)
                     && ItemsRecovered(fs, items[1..], more.0))
  {
    ItemsRecoveredCons(fs, items, RunDecode(r.item.decode, payload, st).value.m.obj,
                       DecodeItems(r, |items| - 1, payload, next).value.0);
  }

  lemma DecodeOneItem(r: RepeatProgram, fs: seq<Field>, item: Object, payload: seq<byte>, cursor: nat, corrected: bool)
    requires IsItemProgram(r, fs, corrected) && Compilable(fs, item, corrected)
    ensures var b, st := FieldsPayload(fs, item, corrected), DecodeState(cursor, Fresh(map[]));
            && Decodes(r.item.decode, payload, st, b, AllNames(fs), item, MessageExact(fs, item, None, corrected))
            && (b.Some? && !r.variable ==> |b.value| == r.item.size)
  {
    var p := DecodeSet(fs, None, r.variable, corrected, payload, DecodeState(cursor, Fresh(map[])), item);
    var q := EncodeSet(fs, None, r.variable, corrected, EncodeState([], 0, Fresh(item)));
  }

  lemma ItemsRecoveredCons(fs: seq<Field>, items: seq<Object>, first: Object, more: seq<Object>)
    requires items != []
    ensures ItemsRecovered(fs, items, [first] + more)
       <==> Recovered(AllNames(fs), items[0], first) && ItemsRecovered(fs, items[1..], more)
  {
    var all := [first] + more;
    if |more| == |items| - 1 {
      assert forall i :: 0 <= i < |more| ==> all[i + 1] == more[i] && items[1..][i] == items[i + 1];
      if ItemsRecovered(fs, items, all) {
        forall i | 0 <= i < |items| - 1 ensures Recovered(AllNames(fs), items[1..][i], more[i]) {
          assert Recovered(AllNames(fs), items[i + 1], all[i + 1]);
        }
        assert Recovered(AllNames(fs), items[0], all[0]);
      } else if ItemsRecovered(fs, items[1..], more) {
        forall i | 1 <= i < |items| ensures Recovered(AllNames(fs), items[i], all[i]) {
          assert Recovered(AllNames(fs), items[1..][i - 1], more[i - 1]);
        }
      }
    }
  }

  // ---- the whole message ----

  /** encode_payload after the own fields were encoded. */
  lemma EncodeMessageUnfolds(p: SetProgram, msg: Message, first: Option<(seq<byte>, nat)>)
    requires var r := RunEncode(p.own.encode, EncodeState(Zeros(BUFFER_SIZE), 0, Fresh(msg.attributes)));
             first == if r.None? then None else Some((r.value.buf, r.value.cursor))
    ensures EncodeMessage(p, msg) ==
            if first.None? then None
            else
              var r := EncodeRepeat(p.repeat, msg.items, first.value.0, first.value.1);
              if r.None? then None else Some(Slice(r.value.0, 0, r.value.1))
  {
  }

  lemma EncodeWhole(p: SetProgram, s: FieldSet, msg: Message, corrected: bool)
    requires MessageOk(s, msg, corrected) && CompileSet(s, corrected) == Ok(p)
    requires SetPayload(s, msg, corrected).Some? ==> |SetPayload(s, msg, corrected).value| <= BUFFER_SIZE
    ensures EncodeMessage(p, msg) == SetPayload(s, msg, corrected)
  {
    var buf := Zeros(BUFFER_SIZE);
    var first := EncodeTheOwn(p, s, msg, buf, corrected);
    EncodeMessageUnfolds(p, msg, first);
    var r := if first.None? then None else EncodeRepeat(p.repeat, msg.items, first.value.0, first.value.1);
    if first.Some? {
      EncodeTheRepeat(p, s, msg, first.value.0, first.value.1, corrected);
    }
    PutsNext(first, r, buf, 0, FieldsPayload(s.fields, msg.attributes, corrected), RepeatPayload(s, msg, corrected));
    WholeBuffer(r, buf, SetPayload(s, msg, corrected));
  }

  lemma EncodeTheOwn(p: SetProgram, s: FieldSet, msg: Message, buf: seq<byte>, corrected: bool)
    returns (first: Option<(seq<byte>, nat)>)
    requires MessageOk(s, msg, corrected) && CompileSet(s, corrected) == Ok(p)
    ensures var r := RunEncode(p.own.encode, EncodeState(buf, 0, Fresh(msg.attributes)));
            first == if r.None? then None else Some((r.value.buf, r.value.cursor))
    ensures Puts(first, buf, 0, FieldsPayload(s.fields, msg.attributes, corrected))
  {
    var st := EncodeState(buf, 0, Fresh(msg.attributes));
    var own := EncodeSet(s.fields, CounterOf(s), true, corrected, st);
    first := match RunEncode(own.encode, st) case None => None case Some(st1) => Some((st1.buf, st1.cursor));
  }

  /** Cutting the buffer at the cursor leaves what was put. */
  lemma WholeBuffer(r: Option<(seq<byte>, nat)>, buf: seq<byte>, b: Option<seq<byte>>)
    requires Puts(r, buf, 0, b) && (b.Some? ==> |b.value| <= |buf|)
    ensures (if r.None? then None else Some(Slice(r.value.0, 0, r.value.1))) == b
  {
    if b.Some? {
      assert Slice(Splice(buf, 0, b.value), 0, |b.value|) == b.value;
    }
  }

  lemma EncodeTheRepeat(p: SetProgram, s: FieldSet, msg: Message, buf: seq<byte>, cursor: nat, corrected: bool)
    requires MessageOk(s, msg, corrected) && CompileSet(s, corrected) == Ok(p)
    ensures Puts(EncodeRepeat(p.repeat, msg.items, buf, cursor), buf, cursor, RepeatPayload(s, msg, corrected))
  {
    if s.repeat.Some? {
      EncodeAllItems(p.repeat.value, s.repeat.value.fields, msg.items, buf, cursor, corrected);
    } else if cursor <= |buf| {
      assert Splice(buf, cursor, []) == buf;
    }
  }

  /**
   Variable and repeated layouts: for every field set and every message whose counter
   counts its items and whose payload fits the buffer, decoding the encoded message into
   a fresh object gives back every attribute and every item in order, with the cursor at
   the end of the payload, if and only if all values are in the range their fields carry.
   */
  lemma RepeatedMessageRoundTrip(s: FieldSet, msg: Message, corrected: bool) returns (p: SetProgram)
    requires MessageOk(s, msg, corrected)
    requires SetPayload(s, msg, corrected).Some? ==> |SetPayload(s, msg, corrected).value| <= BUFFER_SIZE
    ensures CompileSet(s, corrected) == Ok(p)
    ensures var payload := EncodeMessage(p, msg);
            && (payload.Some? && DecodeMessage(p, payload.value).Some?
                && SetRecovered(s, msg, DecodeMessage(p, payload.value).value.0)
                <==> SetExact(s, msg, corrected))
            && (SetExact(s, msg, corrected) ==> DecodeMessage(p, payload.value).value.1 == |payload.value|)
  {
    p := SetCompiles(s, msg, corrected);
    EncodeWhole(p, s, msg, corrected);
    var payload := EncodeMessage(p, msg);
    DecodeWhole(p, s, msg, if payload.Some? then payload.value else [], corrected);
  }

  /** What decode_payload makes of bytes that start with the own fields. */
  lemma DecodeMessageUnfolds(p: SetProgram, payload: seq<byte>, st: DecodeState)
    requires RunDecode(p.own.decode, payload, DecodeState(0, Fresh(map[]))) == Some(st)
    ensures p.repeat.None? ==> DecodeMessage(p, payload) == Some((Message(st.m.obj, []), st.cursor))
    ensures p.repeat.Some? && p.repeat.value.count in st.m.obj && st.m.obj[p.repeat.value.count].Int? ==>
              (var count := st.m.obj[p.repeat.value.count].i;
               var r := DecodeItems(p.repeat.value, if count < 0 then 0 else count, payload, st.cursor);
               DecodeMessage(p, payload) == if r.None? then None else Some((Message(st.m.obj, r.value.0), r.value.1)))
  {
  }

  /** The attributes of a decoded message are those its own fields left. */
  lemma DecodedAttributes(p: SetProgram, payload: seq<byte>, st: DecodeState)
    requires RunDecode(p.own.decode, payload, DecodeState(0, Fresh(map[]))) == Some(st)
    requires DecodeMessage(p, payload).Some?
    ensures DecodeMessage(p, payload).value.0.attributes == st.m.obj
  {
  }

  lemma NoPayload(s: FieldSet, msg: Message, corrected: bool)
    requires MessageOk(s, msg, corrected) && SetPayload(s, msg, corrected).None?
    ensures !SetExact(s, msg, corrected)
  {
    if FieldsPayload(s.fields, msg.attributes, corrected).None? {
      var own := DecodeSet(s.fields, CounterOf(s), true, corrected, [], DecodeState(0, Fresh(map[])), msg.attributes);
    } else {
      var p := SetCompiles(s, msg, corrected);
      DecodeAllItems(p.repeat.value, s.repeat.value.fields, msg.items, [], 0, corrected);
    }
  }

  /** Behind the own fields st was read: what the repeated set adds to it. */
  lemma DecodeTheRepeat(p: SetProgram, s: FieldSet, msg: Message, bytes: seq<byte>, st: DecodeState, b: seq<byte>,
                        corrected: bool)
    requires MessageOk(s, msg, corrected)
    requires s.repeat.None? ==> p.repeat.None?
    requires s.repeat.Some? ==> p.repeat.Some? && p.repeat.value.count == s.repeat.value.count
                                && IsItemProgram(p.repeat.value, s.repeat.value.fields, corrected)
    requires RunDecode(p.own.decode, bytes, DecodeState(0, Fresh(map[]))) == Some(st)
    requires Recovered(AllNames(s.fields), msg.attributes, st.m.obj)
    requires RepeatPayload(s, msg, corrected) == Some(b) && Holds(bytes, st.cursor, b)
    ensures DecodeMessage(p, bytes).Some? && DecodeMessage(p, bytes).value.1 == st.cursor + |b|
    ensures SetRecovered(s, msg, DecodeMessage(p, bytes).value.0)
       <==> (s.repeat.Some? ==> ItemsExact(s.repeat.value.fields, msg.items, corrected))
  {
    if s.repeat.Some? {
      DecodeAllItems(p.repeat.value, s.repeat.value.fields, msg.items, bytes, st.cursor, corrected);
    }
    DecodeMessageUnfolds(p, bytes, st);
  }

  lemma DecodeWhole(p: SetProgram, s: FieldSet, msg: Message, bytes: seq<byte>, corrected: bool)
    requires MessageOk(s, msg, corrected) && CompileSet(s, corrected) == Ok(p)
    requires s.repeat.None? ==> p.repeat.None?
    requires s.repeat.Some? ==> p.repeat.Some? && p.repeat.value.count == s.repeat.value.count
                                && IsItemProgram(p.repeat.value, s.repeat.value.fields, corrected)
    requires SetPayload(s, msg, corrected).Some? ==> bytes == SetPayload(s, msg, corrected).value
    ensures SetPayload(s, msg, corrected).Some? && DecodeMessage(p, bytes).Some?
            && SetRecovered(s, msg, DecodeMessage(p, bytes).value.0)
       <==> SetExact(s, msg, corrected)
    ensures SetExact(s, msg, corrected) ==> DecodeMessage(p, bytes).value.1 == |bytes|
  {
    if SetPayload(s, msg, corrected).None? {
      NoPayload(s, msg, corrected);
    } else {
      var a, b := FieldsPayload(s.fields, msg.attributes, corrected).value, RepeatPayload(s, msg, corrected).value;
      var own := DecodeSet(s.fields, CounterOf(s), true, corrected, bytes, DecodeState(0, Fresh(map[])),
                           msg.attributes);
      assert Holds(bytes, 0, a + b);
      HoldsParts(bytes, 0, a, b);
      var st := RunDecode(p.own.decode, bytes, DecodeState(0, Fresh(map[]))).value;
      if Recovered(AllNames(s.fields), msg.attributes, st.m.obj) {
        DecodeTheRepeat(p, s, msg, bytes, st, b, corrected);
      } else if DecodeMessage(p, bytes).Some? {
        DecodedAttributes(p, bytes, st);
      }
    }
  }

  lemma SetCompiles(s: FieldSet, msg: Message, corrected: bool) returns (p: SetProgram)
    requires MessageOk(s, msg, corrected)
    ensures CompileSet(s, corrected) == Ok(p)
    ensures s.repeat.None? ==> p.repeat.None?
    ensures s.repeat.Some? ==> p.repeat.Some? && p.repeat.value.count == s.repeat.value.count
                               && IsItemProgram(p.repeat.value, s.repeat.value.fields, corrected)
  {
    CompileSucceeds(s.fields, CounterOf(s), true, corrected);
    if s.repeat.Some? {
      CompileSucceeds(s.repeat.value.fields, None, HasVarText(s.repeat.value.fields), corrected);
    }
    p := CompileSet(s, corrected).value;
  }
}

/**
 The same for messages with variable strings and a repeated set: every message in range
 comes back as emitted if and only if every field, own or repeated, is faithful.
 */
module PgnWholeSets {
  import opened Wrappers
  import opened PgnFields
  import opened PgnIr
  import opened PgnExact
  import opened PgnRoundTrip
  import opened PgnProgram
  import opened PgnMessage
  import opened PgnCompiler
  import opened PgnRepeated
  import opened PgnInterference
  import opened PgnFrames
  import opened PgnTransfer
  import opened PgnUnfaithful
  import opened PgnFaithful
  import opened PgnWholeRange
  import opened PgnSetSizes
  import opened PgnSetPassage

  // ---- faithful sets ----

  lemma {:induction false} FaithfulItems(fs: seq<Field>, items: seq<Object>)
    requires SupportedFields(fs, true) && AllFaithful(fs) && ItemsOk(fs, items, true) && ItemsExact(fs, items, true)
    ensures ItemsOk(fs, items, false) && ItemsExact(fs, items, false)
    decreases |items|
  {
    FaithfulSupported(fs);
    assert forall item :: item in items ==> Compilable(fs, item, true);
    if items != [] {
      assert items[0] in items;
      FaithfulListCarries(fs, items[0], None);
      FaithfulItems(fs, items[1..]);
    }
  }

  /**
   Messages of any set of faithful fields come back: whatever field counts the items, and
   however many there are.
   */
  lemma FaithfulComesBack(s: FieldSet, msg: Message)
    requires SetFaithful(s) && InRangeMessage(s, msg)
    ensures SetComesBack(s, msg)
  {
    FaithfulListCarries(s.fields, msg.attributes, CounterOf(s));
    if s.repeat.Some? {
      FaithfulSupported(s.repeat.value.fields);
      FaithfulItems(s.repeat.value.fields, msg.items);
    }
    InRangeComesBack(s, msg);
  }

  lemma InRangeComesBack(s: FieldSet, msg: Message)
    requires SetSize(s, msg) <= BUFFER_SIZE && MessageOk(s, msg, false)
    ensures SetComesBack(s, msg) <==> SetExact(s, msg, false)
  {
    if SetPayload(s, msg, false).Some? {
      SetPayloadSize(s, msg, false);
    }
    var p := RepeatedMessageRoundTrip(s, msg, false);
  }

  // ---- a message in range that does not come back ----

  /** Other own values of the same size. */
  lemma WithAttributes(s: FieldSet, msg: Message, o: Object)
    requires InRangeMessage(s, msg) && InRangeObject(s.fields, o, CounterOf(s))
             && ListSize(s.fields, o) == ListSize(s.fields, msg.attributes)
    requires s.repeat.Some? ==> SameAt(msg.attributes, o, s.repeat.value.count)
    ensures InRangeMessage(s, msg.(attributes := o))
  {
  }

  lemma SingleItem(fs: seq<Field>, item: Object)
    requires SaneList(fs) && InRangeObject(fs, item, None)
    ensures ItemsOk(fs, [item], true) && ItemsExact(fs, [item], true) && ItemsSize(fs, [item]) == ListSize(fs, item)
  {
    assert [item][1..] == [];
  }

  /** Another item of the same size. */
  lemma WithItem(s: FieldSet, msg: Message, item: Object)
    requires InRangeMessage(s, msg) && OneItem(s, msg)
    requires InRangeObject(s.repeat.value.fields, item, None)
    requires ListSize(s.repeat.value.fields, item) == ListSize(s.repeat.value.fields, msg.items[0])
    ensures InRangeMessage(s, msg.(items := [item])) && OneItem(s, msg.(items := [item]))
  {
    ItemInRange(s, msg);
    SingleItem(s.repeat.value.fields, item);
    SingleItem(s.repeat.value.fields, msg.items[0]);
    assert msg.items == [msg.items[0]];
  }

  lemma ItemInRange(s: FieldSet, msg: Message)
    requires InRangeMessage(s, msg) && OneItem(s, msg)
    ensures SaneList(s.repeat.value.fields) && InRangeObject(s.repeat.value.fields, msg.items[0], None)
  {
    assert msg.items[0] in msg.items;
  }

  lemma TwoAsWitness(fs: seq<Field>, o: Object, counter: Option<string>) returns (x: string, o0: Object, o1: Object)
    requires SaneList(fs) && !SupportedFields(fs, false) && InRangeObject(fs, o, counter)
    requires forall f :: f in fs && f.Number() && Slots(f) == 2 && counter.Some? ==> counter.value !in Names(f)
    ensures InRangeObject(fs, o0, counter) && InRangeObject(fs, o1, counter) && SameBut(o0, o1, x)
    ensures counter != Some(x) && SameBut(o, o0, x) && SameBut(o, o1, x)
    ensures ListSize(fs, o0) == ListSize(fs, o1) == ListSize(fs, o)
    ensures Sane(Groups(fs)) && !AllHandled(Groups(fs))
    ensures var w := GroupsWitness(Groups(fs));
            if w.AtMostOne? then x == w.name && x in AllNames(fs) && o0 == o[x := Int(0)] && o1 == o[x := Int(w.other)]
            else x !in AllNames(fs) && o0 == o1 == o
  {
    SaneGroups(fs);
    x, o0, o1 := TwoObjects(fs, o, counter);
    var w := GroupsWitness(Groups(fs));
    if w.AtMostOne? {
      ListSizeSame(fs, o, x, Int(0));
      ListSizeSame(fs, o, x, Int(w.other));
    }
  }

  /** Of the two ways at most one can be that of a message that comes back. */
  lemma NotBothPass(fs: seq<Field>, variable: bool, counter: Option<string>, x: string, o0: Object, o1: Object,
                    o: Object, t0: Transfer, t1: Transfer)
    requires SaneList(fs) && Sane(Groups(fs)) && !AllHandled(Groups(fs)) && (variable || NoVarText(fs))
    requires AllTyped(fs, o0) && AllTyped(fs, o1) && SameBut(o0, o1, x) && counter != Some(x)
    requires var w := GroupsWitness(Groups(fs));
             if w.AtMostOne? then x == w.name && x in AllNames(fs) && o0 == o[x := Int(0)] && o1 == o[x := Int(w.other)]
             else x !in AllNames(fs)
    requires Passes(Groups(fs), 0, variable, counter, t0) && Passes(Groups(fs), 0, variable, counter, t1)
    requires t0.st.buf == t1.st.buf && t0.st.cursor == t1.st.cursor && t0.ds == t1.ds && t0.ds.cursor == t0.st.cursor
    requires t0.st.m == Fresh(o0) && t1.st.m == Fresh(o1) && t0.st.cursor + ListSize(fs, o0) <= |t0.st.buf|
    ensures !(Recovered(AllNames(fs), o0, t0.r.m.obj) && Recovered(AllNames(fs), o1, t1.r.m.obj))
  {
    TypedGroups(fs, o0);
    TypedGroups(fs, o1);
    NeverBoth(Groups(fs), 0, variable, counter, x, t0, t1);
  }

  lemma UnhandledOwn(s: FieldSet, msg: Message) returns (m: Message)
    requires InRangeMessage(s, msg) && CounterInOneSlot(s) && !SupportedFields(s.fields, false)
    ensures InRangeMessage(s, m) && !SetComesBack(s, m)
  {
    var x, o0, o1 := TwoAsWitness(s.fields, msg.attributes, CounterOf(s));
    var m0, m1 := msg.(attributes := o0), msg.(attributes := o1);
    WithAttributes(s, msg, o0);
    WithAttributes(s, msg, o1);
    if SetComesBack(s, m0) && SetComesBack(s, m1) {
      var t0 := OwnPasses(s, m0);
      var t1 := OwnPasses(s, m1);
      NotBothPass(s.fields, true, CounterOf(s), x, o0, o1, msg.attributes, t0, t1);
      assert false;
    }
    m := if SetComesBack(s, m0) then m1 else m0;
  }

  lemma UnhandledItem(s: FieldSet, msg: Message) returns (m: Message)
    requires InRangeMessage(s, msg) && OneItem(s, msg) && SupportedFields(s.fields, false)
    requires !SupportedFields(s.repeat.value.fields, false)
    ensures InRangeMessage(s, m) && !SetComesBack(s, m)
  {
    var fs := s.repeat.value.fields;
    ItemInRange(s, msg);
    var x, o0, o1 := TwoAsWitness(fs, msg.items[0], None);
    var m0, m1 := msg.(items := [o0]), msg.(items := [o1]);
    WithItem(s, msg, o0);
    WithItem(s, msg, o1);
    if SetComesBack(s, m0) && SetComesBack(s, m1) {
      var p := SetPrograms(s);
      var own0, t0 := ItemPasses(s, m0, p);
      var own1, t1 := ItemPasses(s, m1, p);
      NotBothPass(fs, HasVarText(fs), None, x, o0, o1, msg.items[0], t0, t1);
      assert false;
    }
    m := if SetComesBack(s, m0) then m1 else m0;
  }

  /** A field that is not faithful gets a value that is in range, but not as emitted. */
  lemma ValueOutside(fs: seq<Field>, o: Object, counter: Option<string>) returns (x: string, v: Value)
    requires SaneList(fs) && SupportedFields(fs, false) && !AllFaithful(fs) && InRangeObject(fs, o, counter)
    requires forall f :: f in fs && f.Number() && Slots(f) == 2 && counter.Some? ==> counter.value !in Names(f)
    ensures InRangeObject(fs, o[x := v], counter) && !MessageExact(fs, o[x := v], counter, false)
    ensures counter != Some(x) && ListSize(fs, o[x := v]) == ListSize(fs, o)
  {
    var f :| f in fs && !Faithful(f);
    InRangeFieldwise(fs, o, counter, true);
    NamesOfField(fs, f);
    x, v := Unfaithful(f, o, counter);
    ChangedInRange(fs, f, x, v, o, counter);
    InRangeFieldwise(fs, o[x := v], counter, false);
    ListSizeSame(fs, o, x, v);
  }

  lemma UnfaithfulOwn(s: FieldSet, msg: Message) returns (m: Message)
    requires InRangeMessage(s, msg) && CounterInOneSlot(s) && SupportedFields(s.fields, false) && !AllFaithful(s.fields)
    requires s.repeat.Some? ==> SupportedFields(s.repeat.value.fields, false)
    ensures InRangeMessage(s, m) && !SetComesBack(s, m)
  {
    var x, v := ValueOutside(s.fields, msg.attributes, CounterOf(s));
    m := msg.(attributes := msg.attributes[x := v]);
    WithAttributes(s, msg, m.attributes);
    InRangeComesBack(s, m);
  }

  lemma UnfaithfulItem(s: FieldSet, msg: Message) returns (m: Message)
    requires InRangeMessage(s, msg) && OneItem(s, msg) && SupportedFields(s.fields, false)
    requires SupportedFields(s.repeat.value.fields, false) && !AllFaithful(s.repeat.value.fields)
    ensures InRangeMessage(s, m) && !SetComesBack(s, m)
  {
    ItemInRange(s, msg);
    var x, v := ValueOutside(s.repeat.value.fields, msg.items[0], None);
    m := msg.(items := [msg.items[0][x := v]]);
    WithItem(s, msg, m.items[0]);
    InRangeComesBack(s, m);
  }

  /**
   Messages with variable strings and a repeated set, as emitted: every message in range
   comes back, if and only if every field is faithful. There is to be a message in range
   at all, with one item if there is a repeated set.
   */
  lemma WholeSetIffFaithful(s: FieldSet, msg: Message)
    requires InRangeMessage(s, msg) && CounterInOneSlot(s) && (s.repeat.Some? ==> |msg.items| == 1)
    ensures WholeSetComesBack(s) <==> SetFaithful(s)
  {
    if SetFaithful(s) {
      forall m | InRangeMessage(s, m) ensures SetComesBack(s, m) {
        FaithfulComesBack(s, m);
      }
    } else {
      var m := NotFaithfulLoses(s, msg);
    }
  }

  lemma NotFaithfulLoses(s: FieldSet, msg: Message) returns (m: Message)
    requires InRangeMessage(s, msg) && CounterInOneSlot(s) && (s.repeat.Some? ==> |msg.items| == 1) && !SetFaithful(s)
    ensures InRangeMessage(s, m) && !SetComesBack(s, m)
  {
    if !SupportedFields(s.fields, false) {
      m := UnhandledOwn(s, msg);
    } else if s.repeat.Some? && !SupportedFields(s.repeat.value.fields, false) {
      m := UnhandledItem(s, msg);
    } else if !AllFaithful(s.fields) {
      m := UnfaithfulOwn(s, msg);
    } else {
      m := UnfaithfulItem(s, msg);
    }
  }
}

/**
 Why the number of items is kept out of three-byte fields in the theorem about sets: it is
 bounded by the buffer, so that such a field can carry all of it without being faithful.
 */
module PgnCounted {
  import opened Bits
  import opened Wrappers
  import opened Struct
  import opened PgnFields
  import opened PgnIr
  import opened PgnExact
  import opened PgnRoundTrip
  import opened PgnMessage
  import opened PgnRepeated
  import opened PgnTwoRuns
  import opened PgnTransfer
  import opened PgnFaithful
  import opened PgnNumbers
  import opened PgnSetSizes
  import opened PgnSetPassage
  import opened PgnWholeRange
  import opened PgnWholeSets

  const SUBS: seq<Sub> := [Sub(Some("n"), 20, 0), Sub(None, 4, 20)]
  const ITEM: Field := Scalar(Some("x"), 8, false, false)

  /** A count in the low 20 bits of a three-byte bit-field, and items of one byte. */
  const COUNTED := FieldSet([BitField(SUBS)], Some(Repeat("n", [ITEM])))

  lemma CountedSupported(corrected: bool)
    ensures SupportedFields([BitField(SUBS)], corrected) && SupportedFields([ITEM], corrected) && Faithful(ITEM)
    ensures Slots(BitField(SUBS)) == 2 && AllNames([BitField(SUBS)]) == ["n"] && AllNames([ITEM]) == ["x"]
  {
    assert SUBS[..1] == [SUBS[0]] && SUBS[..0] == [] && SUBS[..1][..0] == [];
    assert BitLength(SUBS[..0]) == 0 && BitLength(SUBS[..1]) == 20 && BitLength(SUBS) == 24;
    assert SUBS[1..] == [SUBS[1]] && SUBS[1..][1..] == [];
    assert SubNames(SUBS[1..]) == [];
    assert [BitField(SUBS)][1..] == [] && [ITEM][1..] == [];
  }

  lemma OneByteItem(o: Object)
    requires AllTyped([ITEM], o)
    ensures ListSize([ITEM], o) == 1
  {
    OneGroup([ITEM]);
    assert [[ITEM]][1..] == [] && [ITEM][1..] == [];
    TypedGroups([ITEM], o);
    assert GroupsSize([[ITEM]], o) == GroupSize([ITEM], o);
    assert FormatOf([ITEM], false) == [Code(1, false)] && [Code(1, false)][1..] == [];
  }

  lemma OwnSize(o: Object)
    requires AllTyped([BitField(SUBS)], o)
    ensures ListSize([BitField(SUBS)], o) == 3
  {
    var f := BitField(SUBS);
    CountedSupported(false);
    OneGroup([f]);
    assert [[f]][1..] == [] && [f][1..] == [];
    TypedGroups([f], o);
    assert GroupsSize([[f]], o) == GroupSize([f], o);
    assert FormatOf([f], false) == [Code(2, false), Code(1, false)];
    assert [Code(2, false), Code(1, false)][1..] == [Code(1, false)] && [Code(1, false)][1..] == [];
  }

  lemma {:induction false} OneByteItems(items: seq<Object>)
    requires forall o :: o in items ==> AllTyped([ITEM], o)
    ensures ItemsSize([ITEM], items) == |items|
  {
    if items != [] {
      assert items[0] in items;
      OneByteItem(items[0]);
      OneByteItems(items[1..]);
    }
  }

  /** There is room for fewer than 2^16 items. */
  lemma CountFits(msg: Message)
    requires InRangeMessage(COUNTED, msg)
    ensures MessageOk(COUNTED, msg, false) && SetExact(COUNTED, msg, false)
  {
    CountedSupported(true);
    CountedSupported(false);
    OneByteItems(msg.items);
    FaithfulItems([ITEM], msg.items);
    var f, o := BitField(SUBS), msg.attributes;
    assert f in [f] && SUBS[0] in SUBS;
    forall s | s in SUBS && s.name.Some? ensures SubExact(s, true, o[s.name.value].i, false) {
      assert s == SUBS[0] && Pow2(0) == 1;
    }
    InRangeFieldwise([f], o, Some("n"), true);
    InRangeFieldwise([f], o, Some("n"), false);
  }

  /** Every message in range comes back as emitted, but the field of the count is not faithful. */
  lemma CounterNeedNotBeFaithful()
    ensures WholeSetComesBack(COUNTED) && !SetFaithful(COUNTED) && !CounterInOneSlot(COUNTED)
    ensures InRangeMessage(COUNTED, Message(map["n" := Int(1)], [map["x" := Int(0)]]))
  {
    CountedSupported(true);
    var f := BitField(SUBS);
    assert f in COUNTED.fields && SUBS[0] in SUBS && SUBS[0].offset + SUBS[0].width == 20;
    assert "n" in AllNames([f]);
    forall msg | InRangeMessage(COUNTED, msg) ensures SetComesBack(COUNTED, msg) {
      CountFits(msg);
      InRangeComesBack(COUNTED, msg);
    }
    OneMessage();
  }

  lemma OwnInRange(o: Object)
    requires o == map["n" := Int(1)]
    ensures AllTyped([BitField(SUBS)], o) && SupportedFields([BitField(SUBS)], true)
    ensures MessageExact([BitField(SUBS)], o, Some("n"), true)
  {
    CountedSupported(true);
    Powers();
    Pow2Monotone(1, 20);
    forall s | s in SUBS && s.name.Some? ensures SubExact(s, true, o[s.name.value].i, true) {
      assert s == SUBS[0];
    }
    InRangeFieldwise([BitField(SUBS)], o, Some("n"), true);
  }

  lemma OneItemInRange(item: Object)
    requires item == map["x" := Int(0)]
    ensures SaneList([ITEM]) && InRangeObject([ITEM], item, None)
  {
    CountedSupported(true);
    InRangeFieldwise([ITEM], item, None, true);
  }

  lemma OneMessage()
    ensures InRangeMessage(COUNTED, Message(map["n" := Int(1)], [map["x" := Int(0)]]))
  {
    var o, item := map["n" := Int(1)], map["x" := Int(0)];
    CountedSupported(true);
    OwnInRange(o);
    OneItemInRange(item);
    SingleItem([ITEM], item);
    OneByteItem(item);
    OwnSize(o);
  }
}

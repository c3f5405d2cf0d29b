/** The bytes of a message, which neither the emission nor a change of a number alters. */
module PgnSetSizes {
  import opened Struct
  import opened PgnFields
  import opened PgnIr
  import opened PgnRoundTrip
  import opened PgnProgram
  import opened PgnMessage
  import opened PgnCompiler
  import opened PgnRepeated
  import opened PgnTwoRuns
  import opened PgnTransfer
  import opened PgnWholeRange

  function ListSize(fs: seq<Field>, o: Object): nat {
    if AllTyped(fs, o) then
      TypedGroups(fs, o);
      GroupsSize(Groups(fs), o)
    else 0
  }

  function ItemsSize(fs: seq<Field>, items: seq<Object>): nat {
    if items == [] then 0 else ListSize(fs, items[0]) + ItemsSize(fs, items[1..])
  }

  /** The bytes of the message. */
  function SetSize(s: FieldSet, msg: Message): nat {
    ListSize(s.fields, msg.attributes) + if s.repeat.Some? then ItemsSize(s.repeat.value.fields, msg.items) else 0
  }

  lemma {:induction false} FormatSizes(fs: seq<Field>, corrected: bool)
    requires forall f :: f in fs ==> f.Number()
    ensures CalcSize(FormatOf(fs, corrected)) == CalcSize(FormatOf(fs, false))
    decreases |fs|
  {
    if fs != [] {
      FormatSizes(fs[1..], corrected);
      CalcSizeConcat(Format(fs[0], corrected), FormatOf(fs[1..], corrected));
      CalcSizeConcat(Format(fs[0], false), FormatOf(fs[1..], false));
      if Slots(fs[0]) == 2 {
        assert Format(fs[0], corrected)[1..] == [Format(fs[0], false)[1]] == Format(fs[0], false)[1..];
      }
    }
  }

  lemma GroupPayloadSize(g: seq<Field>, o: Object, corrected: bool)
    requires GroupOk(g, o, corrected) && Distinct(AllNames(g)) && GroupBytes(g, o, corrected).Some?
    ensures |GroupBytes(g, o, corrected).value| == GroupSize(g, o)
  {
    assert g[0] in g;
    if g[0].Number() {
      GroupBytesLength(g, 0, o, corrected);
      FormatSizes(g, corrected);
    } else if g[0].Text? {
      GroupBytesLength(g, 0, o, corrected);
    }
  }

  lemma {:induction false} PayloadSize(gs: seq<seq<Field>>, o: Object, corrected: bool)
    requires GroupsOk(gs, o, corrected) && Distinct(AllNames(Flatten(gs))) && PayloadOf(gs, o, corrected).Some?
    ensures GroupsTyped(gs, o) && (forall g :: g in gs ==> IsGroup(g))
            && |PayloadOf(gs, o, corrected).value| == GroupsSize(gs, o)
    decreases |gs|
  {
    assert forall g :: g in gs ==> GroupOk(g, o, corrected);
    if gs != [] {
      PayloadUnfolds(gs, o, corrected);
      FlattenParts(gs);
      GroupPayloadSize(gs[0], o, corrected);
      PayloadSize(gs[1..], o, corrected);
    }
  }

  lemma FieldsPayloadSize(fs: seq<Field>, o: Object, corrected: bool)
    requires FieldsPayload(fs, o, corrected).Some?
    ensures |FieldsPayload(fs, o, corrected).value| == ListSize(fs, o)
  {
    GroupsAreOk(fs, o, corrected);
    PayloadSize(Groups(fs), o, corrected);
  }

  lemma {:induction false} ItemsPayloadSize(fs: seq<Field>, items: seq<Object>, corrected: bool)
    requires ItemsPayload(fs, items, corrected).Some?
    ensures |ItemsPayload(fs, items, corrected).value| == ItemsSize(fs, items)
    decreases |items|
  {
    if items != [] {
      FieldsPayloadSize(fs, items[0], corrected);
      ItemsPayloadSize(fs, items[1..], corrected);
    }
  }

  lemma SetPayloadSize(s: FieldSet, msg: Message, corrected: bool)
    requires SetPayload(s, msg, corrected).Some?
    ensures |SetPayload(s, msg, corrected).value| == SetSize(s, msg)
  {
    FieldsPayloadSize(s.fields, msg.attributes, corrected);
    if s.repeat.Some? {
      ItemsPayloadSize(s.repeat.value.fields, msg.items, corrected);
    }
  }

  lemma {:induction false} SizeSame(gs: seq<seq<Field>>, o: Object, x: string, v: Value)
    requires (forall g :: g in gs ==> IsGroup(g)) && !v.Str? && GroupsTyped(gs, o) && GroupsTyped(gs, o[x := v])
    ensures GroupsSize(gs, o[x := v]) == GroupsSize(gs, o)
    decreases |gs|
  {
    if gs != [] {
      var g := gs[0];
      assert g in gs && g[0] in g;
      SizeSame(gs[1..], o, x, v);
    }
  }

  lemma ListSizeSame(fs: seq<Field>, o: Object, x: string, v: Value)
    requires !v.Str? && AllTyped(fs, o) && AllTyped(fs, o[x := v])
    ensures ListSize(fs, o[x := v]) == ListSize(fs, o)
  {
    TypedGroups(fs, o);
    TypedGroups(fs, o[x := v]);
    SizeSame(Groups(fs), o, x, v);
  }
}

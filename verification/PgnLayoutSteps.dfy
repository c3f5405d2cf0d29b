/**
 What one more field does to the layout of the fields before it.
 */
module PgnLayoutSteps {
  import opened PgnFields
  import opened PgnEmit
  import opened PgnSegment
  import opened PgnProgram

  lemma {:induction false} LayoutAppend(gs: seq<seq<Field>>, g: seq<Field>, start: nat, corrected: bool)
    requires IsGroup(g) && forall h :: h in gs ==> IsGroup(h)
    ensures forall h :: h in gs + [g] ==> IsGroup(h)
    ensures LayoutOf(gs + [g], start, corrected)
         == LayoutOf(gs, start, corrected) + [SegmentOf(g, start + StaticSize(LayoutOf(gs, start, corrected)),
                                                        corrected)]
    decreases |gs|
  {
    if gs == [] {
      assert gs + [g] == [g] && [g][1..] == [];
    } else {
      assert (gs + [g])[1..] == gs[1..] + [g] && (gs + [g])[0] == gs[0];
      LayoutCons(gs, start, corrected);
      LayoutCons(gs + [g], start, corrected);
      LayoutAppend(gs[1..], g, start + SegmentOf(gs[0], start, corrected).Length(), corrected);
    }
  }

  lemma {:induction false} FormatAppend(g: seq<Field>, f: Field, corrected: bool)
    requires f.Number() && forall h :: h in g ==> h.Number()
    ensures FormatOf(g + [f], corrected) == FormatOf(g, corrected) + Format(f, corrected)
    decreases |g|
  {
    if g == [] {
      assert g + [f] == [f] && [f][1..] == [];
    } else {
      assert (g + [f])[1..] == g[1..] + [f];
      FormatAppend(g[1..], f, corrected);
    }
  }

  lemma SingleGroup(f: Field, index: nat, corrected: bool)
    requires f.Number()
    ensures IsGroup([f]) && SlotCount([f]) == Slots(f)
    ensures AttrsFrom([f], index) == AttrsOf(f, index)
    ensures SegmentOf([f], 0, corrected) == ValueSet(0, Format(f, corrected), AttrsOf(f, 0))
  {
    assert [f][1..] == [];
  }

  lemma AttrsAppend(g: seq<Field>, f: Field, corrected: bool)
    requires f.Number() && forall h :: h in g ==> h.Number()
    ensures (forall h :: h in g + [f] ==> h.Number()) && SlotCount(g + [f]) == SlotCount(g) + Slots(f)
    ensures AttrsFrom(g + [f], 0) == AttrsFrom(g, 0) + AttrsOf(f, SlotCount(g))
  {
    AttrsFromConcat(g, [f], 0);
    SingleGroup(f, SlotCount(g), corrected);
  }

  lemma SegmentAppend(g: seq<Field>, f: Field, start: nat, corrected: bool)
    requires IsGroup(g) && g[0].Number() && f.Number()
    ensures IsGroup(g + [f]) && SlotCount(g + [f]) == SlotCount(g) + Slots(f)
    ensures SegmentOf(g + [f], start, corrected)
         == ValueSet(start, FormatOf(g, corrected) + Format(f, corrected), AttrsFrom(g, 0) + AttrsOf(f, SlotCount(g)))
  {
    FormatAppend(g, f, corrected);
    AttrsAppend(g, f, corrected);
    assert (g + [f])[0] == g[0];
  }

  lemma {:induction false} StaticSizeAppend(a: seq<Segment>, s: Segment)
    ensures StaticSize(a + [s]) == StaticSize(a) + s.Length()
  {
    if a == [] {
      assert a + [s] == [s] && [s][1..] == [];
    } else {
      assert (a + [s])[1..] == a[1..] + [s];
      StaticSizeAppend(a[1..], s);
    }
  }

  lemma SegmentStart(g: seq<Field>, start: nat, corrected: bool)
    requires IsGroup(g)
    ensures var segment := SegmentOf(g, start, corrected);
            segment.start == start && (segment.ValueSet? <==> g[0].Number())
  {
  }

  /** The segment being filled holds numbers. */
  predicate EndsWithNumbers(gs: seq<seq<Field>>) {
    gs != [] && IsGroup(gs[|gs| - 1]) && gs[|gs| - 1][0].Number()
  }

  /** What the pass keeps between two fields: the segments, current_byte and the decode index. */
  ghost predicate Analysed(layout: seq<Segment>, currentByte: nat, decodeIndex: nat, gs: seq<seq<Field>>,
                           corrected: bool)
    requires forall g :: g in gs ==> IsGroup(g)
  {
    && layout == LayoutOf(gs, 0, corrected)
    && |layout| == |gs|
    && (gs == [] ==> currentByte == 0)
    && (gs != [] ==>
         && layout[|gs| - 1].start == currentByte
         && currentByte + layout[|gs| - 1].Length() == StaticSize(layout)
         && (layout[|gs| - 1].ValueSet? <==> EndsWithNumbers(gs)))
    && (EndsWithNumbers(gs) ==> decodeIndex == SlotCount(gs[|gs| - 1]))
  }

  lemma LayoutLength(gs: seq<seq<Field>>, start: nat, corrected: bool)
    requires forall g :: g in gs ==> IsGroup(g)
    ensures |LayoutOf(gs, start, corrected)| == |gs|
  {
    LayoutCovers(gs, start, corrected);
  }

  /** The layout of the groups before the last one, and of the last one. */
  lemma LastSegment(front: seq<seq<Field>>, g: seq<Field>, before: seq<Segment>, last: Segment, corrected: bool)
    requires IsGroup(g) && forall h :: h in front ==> IsGroup(h)
    requires before == LayoutOf(front, 0, corrected) && last == SegmentOf(g, StaticSize(before), corrected)
    ensures forall h :: h in front + [g] ==> IsGroup(h)
    ensures |before| == |front| && LayoutOf(front + [g], 0, corrected) == before + [last]
  {
    LayoutAppend(front, g, 0, corrected);
    LayoutLength(front, 0, corrected);
  }

  lemma AnalysedLast(front: seq<seq<Field>>, g: seq<Field>, before: seq<Segment>, last: Segment, start: nat,
                     slots: nat, corrected: bool)
    requires IsGroup(g) && forall h :: h in front + [g] ==> IsGroup(h)
    requires |before| == |front| && LayoutOf(front + [g], 0, corrected) == before + [last]
    requires start == StaticSize(before) && last == SegmentOf(g, start, corrected)
    requires g[0].Number() ==> slots == SlotCount(g)
    ensures Analysed(before + [last], start, slots, front + [g], corrected)
  {
    StaticSizeAppend(before, last);
    SegmentStart(g, start, corrected);
  }

  /** A field that opens a new segment behind the current ones. */
  lemma Opens(layout: seq<Segment>, currentByte: nat, decodeIndex: nat, gs: seq<seq<Field>>, f: Field,
              start: nat, slots: nat, corrected: bool)
    requires forall g :: g in gs ==> IsGroup(g)
    requires Analysed(layout, currentByte, decodeIndex, gs, corrected)
    requires !(f.Number() && EndsWithNumbers(gs))
    requires start == if layout == [] then 0 else currentByte + layout[|layout| - 1].Length()
    requires f.Number() ==> slots == Slots(f)
    ensures IsGroup([f])
    ensures Analysed(layout + [SegmentOf([f], start, corrected)], start, slots, WithField(gs, f), corrected)
  {
    assert gs != [] ==> gs[|gs| - 1] in gs;
    assert WithField(gs, f) == gs + [[f]];
    if f.Number() {
      SingleGroup(f, 0, corrected);
    }
    var last := SegmentOf([f], start, corrected);
    LastSegment(gs, [f], layout, last, corrected);
    AnalysedLast(gs, [f], layout, last, start, slots, corrected);
  }

  /** A number that joins the last group of numbers grows its segment. */
  lemma Joins(layout: seq<Segment>, currentByte: nat, decodeIndex: nat, gs: seq<seq<Field>>, f: Field, grown: Segment,
              corrected: bool)
    requires forall g :: g in gs ==> IsGroup(g)
    requires Analysed(layout, currentByte, decodeIndex, gs, corrected)
    requires f.Number() && EndsWithNumbers(gs)
    requires grown == ValueSet(currentByte, layout[|gs| - 1].format + Format(f, corrected),
                               layout[|gs| - 1].attrs + AttrsOf(f, decodeIndex))
    ensures Analysed(layout[|gs| - 1 := grown], currentByte, decodeIndex + Slots(f), WithField(gs, f), corrected)
  {
    var front, g := gs[..|gs| - 1], gs[|gs| - 1];
    assert gs == front + [g];
    var before := LayoutOf(front, 0, corrected);
    var last := SegmentOf(g, StaticSize(before), corrected);
    LastSegment(front, g, before, last, corrected);
    SegmentStart(g, StaticSize(before), corrected);
    GrownLast(front, g, f, before, grown, corrected);
    assert layout[|gs| - 1 := grown] == before + [grown];
    WithFieldJoins(front, g, f);
  }

  lemma GrownLast(front: seq<seq<Field>>, g: seq<Field>, f: Field, before: seq<Segment>, grown: Segment,
                  corrected: bool)
    requires IsGroup(g) && forall h :: h in front ==> IsGroup(h)
    requires g[0].Number() && f.Number() && before == LayoutOf(front, 0, corrected)
    requires grown == ValueSet(StaticSize(before), FormatOf(g, corrected) + Format(f, corrected),
                               AttrsFrom(g, 0) + AttrsOf(f, SlotCount(g)))
    ensures forall h :: h in front + [g + [f]] ==> IsGroup(h)
    ensures Analysed(before + [grown], StaticSize(before), SlotCount(g) + Slots(f), front + [g + [f]], corrected)
  {
    var start := StaticSize(before);
    SegmentAppend(g, f, start, corrected);
    LastSegment(front, g + [f], before, grown, corrected);
    AnalysedLast(front, g + [f], before, grown, start, SlotCount(g) + Slots(f), corrected);
  }

  lemma WithFieldJoins(front: seq<seq<Field>>, g: seq<Field>, f: Field)
    requires forall h :: h in front + [g] ==> IsGroup(h)
    requires IsGroup(g) && g[0].Number() && f.Number()
    ensures WithField(front + [g], f) == front + [g + [f]]
  {
    assert (front + [g])[..|front|] == front;
  }

  /** The pass after the first i fields. */
  ghost predicate AnalysedFields(layout: seq<Segment>, currentByte: nat, decodeIndex: nat, fields: seq<Field>, i: nat,
                                 corrected: bool)
    requires i <= |fields|
  {
    Analysed(layout, currentByte, decodeIndex, Groups(fields[..i]), corrected)
  }

  lemma NothingAnalysed(fields: seq<Field>, corrected: bool)
    ensures AnalysedFields([], 0, 0, fields, 0, corrected)
  {
    assert fields[..0] == [];
  }

  lemma OneMoreAnalysed(layout: seq<Segment>, currentByte: nat, decodeIndex: nat, fields: seq<Field>, i: nat,
                        corrected: bool)
    requires i < |fields|
    requires Analysed(layout, currentByte, decodeIndex, WithField(Groups(fields[..i]), fields[i]), corrected)
    ensures AnalysedFields(layout, currentByte, decodeIndex, fields, i + 1, corrected)
  {
    assert fields[..i + 1][..i] == fields[..i];
  }

  lemma AllAnalysed(layout: seq<Segment>, currentByte: nat, decodeIndex: nat, fields: seq<Field>, corrected: bool)
    requires AnalysedFields(layout, currentByte, decodeIndex, fields, |fields|, corrected)
    ensures layout == LayoutOf(Groups(fields), 0, corrected)
  {
    assert fields[..|fields|] == fields;
  }

  lemma OpensField(layout: seq<Segment>, currentByte: nat, decodeIndex: nat, fields: seq<Field>, i: nat,
                   start: nat, slots: nat, corrected: bool)
    requires i < |fields| && AnalysedFields(layout, currentByte, decodeIndex, fields, i, corrected)
    requires !fields[i].Number() || layout == [] || !layout[|layout| - 1].ValueSet?
    requires start == if layout == [] then 0 else currentByte + layout[|layout| - 1].Length()
    requires fields[i].Number() ==> slots == Slots(fields[i])
    ensures IsGroup([fields[i]])
    ensures AnalysedFields(layout + [SegmentOf([fields[i]], start, corrected)], start, slots, fields, i + 1, corrected)
  {
    var layout' := layout + [SegmentOf([fields[i]], start, corrected)];
    Opens(layout, currentByte, decodeIndex, Groups(fields[..i]), fields[i], start, slots, corrected);
    OneMoreAnalysed(layout', start, slots, fields, i, corrected);
  }

  lemma JoinsField(layout: seq<Segment>, currentByte: nat, decodeIndex: nat, fields: seq<Field>, i: nat,
                   grown: Segment, corrected: bool)
    requires i < |fields| && AnalysedFields(layout, currentByte, decodeIndex, fields, i, corrected)
    requires fields[i].Number() && layout != [] && layout[|layout| - 1].ValueSet?
    requires grown == ValueSet(layout[|layout| - 1].start, layout[|layout| - 1].format + Format(fields[i], corrected),
                               layout[|layout| - 1].attrs + AttrsOf(fields[i], decodeIndex))
    ensures AnalysedFields(layout[|layout| - 1 := grown], currentByte, decodeIndex + Slots(fields[i]), fields, i + 1,
                           corrected)
  {
    Joins(layout, currentByte, decodeIndex, Groups(fields[..i]), fields[i], grown, corrected);
    OneMoreAnalysed(layout[|layout| - 1 := grown], currentByte, decodeIndex + Slots(fields[i]), fields, i, corrected);
  }
}

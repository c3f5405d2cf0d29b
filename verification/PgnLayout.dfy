/**
 The layout pass as the meta model runs it, over segment objects.
 */
module PgnLayout {
  import opened PgnFields
  import opened PgnEmit
  import opened PgnProgram
  import opened PgnLayoutSteps
  import opened PgnDecodeSegment

  lemma Regroup<T>(a: seq<T>, x: T, b: seq<T>)
    ensures a + ([x] + b) == a + [x] + b
  {
  }

  /** The attributes of one field added to the current segment. */
  method AddField(segment: DecodeSegment, f: Field, decodeIndex: nat, corrected: bool)
    requires f.Number() && segment.segmentType == VALUE_SET
    modifies segment`decodeString, segment`attributes
    ensures segment.decodeString == old(segment.decodeString) + Format(f, corrected)
    ensures segment.attributes == old(segment.attributes) + AttrsOf(f, decodeIndex)
  {
    segment.AddDecodeField(Format(f, corrected));
    if f.BitField? {
      var subs, slots := f.subs, Slots(f);
      for i := 0 to |subs|
        invariant segment.decodeString == old(segment.decodeString) + Format(f, corrected)
        invariant segment.attributes + SubAttrsFrom(subs, slots, i, decodeIndex)
               == old(segment.attributes) + AttrsOf(f, decodeIndex)
      {
        var attr := SubAttr(subs[i], slots, i, i == |subs| - 1, decodeIndex);
        Regroup(segment.attributes, attr, SubAttrsFrom(subs, slots, i + 1, decodeIndex));
        segment.AddAttribute(attr);
      }
    } else {
      segment.AddAttribute(AttrsOf(f, decodeIndex)[0]);
    }
  }

  /** A new segment object for the field. */
  method NewSegment(f: Field, start: nat, corrected: bool) returns (segment: DecodeSegment)
    requires WellFormed(f)
    ensures fresh(segment) && IsGroup([f]) && segment.View() == SegmentOf([f], start, corrected)
    ensures segment.CacheUpToDate() && (segment.segmentType == VALUE_SET ==> segment.length == 0)
  {
    if f.Number() {
      segment := new DecodeSegment(VALUE_SET, start);
      AddField(segment, f, 0, corrected);
      SingleGroup(f, 0, corrected);
    } else {
      segment := new DecodeSegment(if f.Text? then FIX_LENGTH else VARIABLE_LENGTH, start);
      segment.SetString(f.name, if f.Text? then f.length else 0);
    }
  }

  class FieldSetMeta {
    var segments: seq<DecodeSegment>
    var decodeIndex: nat
    var staticSize: nat
    ghost var repr: set<DecodeSegment>

    /** The segment objects show the layout, one segment each. */
    ghost predicate Holds(layout: seq<Segment>)
      reads this, repr
    {
      (forall s :: s in segments ==> s in repr) && Shows(segments, layout)
    }

    ghost predicate Open()
      reads this, repr
    {
      (forall s :: s in segments ==> s in repr) && LastOpen(segments)
    }

    constructor (fields: seq<Field>, corrected: bool)
      requires forall f :: f in fields ==> WellFormed(f)
      ensures fresh(repr) && Holds(LayoutOf(Groups(fields), 0, corrected))
      ensures staticSize == StaticSize(LayoutOf(Groups(fields), 0, corrected))
    {
      segments, decodeIndex, staticSize, repr := [], 0, 0, {};
      new;
      AnalyzeAttributes(fields, corrected);
    }

    /**
     analyze_attributes: one pass that opens a segment where the kind of field changes.
     The segment being filled has not cached a length, so no length is read before its
     segment is complete; static_size is the sum of the lengths.
     */
    method AnalyzeAttributes(fields: seq<Field>, corrected: bool)
      requires forall f :: f in fields ==> WellFormed(f)
      requires segments == [] && repr == {} && decodeIndex == staticSize == 0
      modifies this
      ensures fresh(repr) && Holds(LayoutOf(Groups(fields), 0, corrected))
      ensures staticSize == StaticSize(LayoutOf(Groups(fields), 0, corrected))
    {
      var currentByte := 0;
      ghost var layout: seq<Segment> := [];
      NothingAnalysed(fields, corrected);
      for i := 0 to |fields|
        invariant fresh(repr) && Holds(layout) && Open() && staticSize == 0
        invariant AnalysedFields(layout, currentByte, decodeIndex, fields, i, corrected)
      {
        currentByte, layout := AnalyzeField(currentByte, fields, i, layout, corrected);
      }
      AllAnalysed(layout, currentByte, decodeIndex, fields, corrected);
      SumLengths(layout);
    }

    /** One turn of the loop over the fields. */
    method AnalyzeField(currentByte: nat, fields: seq<Field>, i: nat, ghost layout: seq<Segment>, corrected: bool)
      returns (currentByte': nat, ghost layout': seq<Segment>)
      requires i < |fields| && WellFormed(fields[i])
      requires Holds(layout) && Open() && AnalysedFields(layout, currentByte, decodeIndex, fields, i, corrected)
      modifies this, repr
      ensures Holds(layout') && Open() && fresh(repr - old(repr)) && staticSize == old(staticSize)
      ensures AnalysedFields(layout', currentByte', decodeIndex, fields, i + 1, corrected)
    {
      var f := fields[i];
      ghost var index := decodeIndex;
      assert segments != [] ==> segments[|segments| - 1].View() == layout[|layout| - 1];
      if f.Number() && segments != [] && segments[|segments| - 1].segmentType == VALUE_SET {
        ghost var grown := ValueSet(layout[|layout| - 1].start, layout[|layout| - 1].format + Format(f, corrected),
                                    layout[|layout| - 1].attrs + AttrsOf(f, decodeIndex));
        GrowSegment(f, layout, grown, corrected);
        currentByte', layout' := currentByte, layout[|layout| - 1 := grown];
        JoinsField(layout, currentByte, index, fields, i, grown, corrected);
      } else {
        currentByte' := OpenSegment(currentByte, f, layout, corrected);
        layout' := layout + [SegmentOf([f], currentByte', corrected)];
        OpensField(layout, currentByte, index, fields, i, currentByte', decodeIndex, corrected);
      }
    }

    /** A field of another kind than the segment being filled, or the first field. */
    method OpenSegment(currentByte: nat, f: Field, ghost layout: seq<Segment>, corrected: bool) returns (start: nat)
      requires Holds(layout) && WellFormed(f)
      modifies this, repr
      ensures start == if layout == [] then 0 else currentByte + layout[|layout| - 1].Length()
      ensures IsGroup([f]) && Holds(layout + [SegmentOf([f], start, corrected)]) && Open()
      ensures fresh(repr - old(repr)) && staticSize == old(staticSize)
      ensures f.Number() ==> decodeIndex == Slots(f)
    {
      start := NextByte(currentByte, layout);
      var segment := NewSegment(f, start, corrected);
      segments, repr := segments + [segment], repr + {segment};
      if f.Number() {
        decodeIndex := 0;
        decodeIndex := decodeIndex + Slots(f);
      }
    }

    /** current_byte moved over the segment that is now complete. */
    method NextByte(currentByte: nat, ghost layout: seq<Segment>) returns (start: nat)
      requires Holds(layout)
      modifies repr
      ensures Holds(layout)
      ensures start == if layout == [] then 0 else currentByte + layout[|layout| - 1].Length()
    {
      start := 0;
      if segments != [] {
        var n := segments[|segments| - 1].Length();
        start := currentByte + n;
      }
    }

    /** A number behind numbers: the segment being filled grows. */
    method GrowSegment(f: Field, ghost layout: seq<Segment>, ghost grown: Segment, corrected: bool)
      requires Holds(layout) && Open() && f.Number()
      requires layout != [] && layout[|layout| - 1].ValueSet?
      requires grown == ValueSet(layout[|layout| - 1].start, layout[|layout| - 1].format + Format(f, corrected),
                                 layout[|layout| - 1].attrs + AttrsOf(f, decodeIndex))
      modifies this`decodeIndex, repr
      ensures Holds(layout[|layout| - 1 := grown]) && Open()
      ensures decodeIndex == old(decodeIndex) + Slots(f)
    {
      AddField(segments[|segments| - 1], f, decodeIndex, corrected);
      decodeIndex := decodeIndex + Slots(f);
    }

    /** static_size, summed over the finished segments. */
    method SumLengths(ghost layout: seq<Segment>)
      requires Holds(layout) && staticSize == 0
      modifies this`staticSize, repr
      ensures Holds(layout) && staticSize == StaticSize(layout)
    {
      for i := 0 to |segments|
        invariant Holds(layout)
        invariant staticSize == StaticSize(layout[..i])
      {
        assert layout[..i + 1] == layout[..i] + [layout[i]];
        StaticSizeAppend(layout[..i], layout[i]);
        var n := segments[i].Length();
        staticSize := staticSize + n;
      }
      assert layout[..|segments|] == layout;
    }
  }
}

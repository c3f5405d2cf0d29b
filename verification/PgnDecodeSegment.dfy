/**
 Segment objects: they grow while fields are analysed and cache their length the first
 time it is read.
 */
module PgnDecodeSegment {
  import opened Wrappers
  import opened Struct
  import opened PgnEmit
  import opened PgnProgram

  datatype SegmentType = VALUE_SET | FIX_LENGTH | VARIABLE_LENGTH

  class DecodeSegment {
    const segmentType: SegmentType
    const startByte: nat
    var decodeString: seq<Code>
    var attributes: seq<Attr>
    var variable: Option<string>
    var length: nat

    /** The segment as the generator reads it. */
    ghost function View(): Segment
      reads this
    {
      match segmentType
      case VALUE_SET => ValueSet(startByte, decodeString, attributes)
      case FIX_LENGTH => FixLength(startByte, length, variable)
      case VARIABLE_LENGTH => VarLength(startByte, variable)
    }

    /** The cached length, when there is one, is the length of the format as it is now. */
    ghost predicate CacheUpToDate()
      reads this
    {
      match segmentType
      case VALUE_SET => length == 0 || length == CalcSize(decodeString)
      case FIX_LENGTH => true
      case VARIABLE_LENGTH => length == 0
    }

    constructor (segmentType: SegmentType, startByte: nat)
      ensures this.segmentType == segmentType && this.startByte == startByte
      ensures decodeString == [] && attributes == [] && variable == None && length == 0
    {
      this.segmentType := segmentType;
      this.startByte := startByte;
      decodeString, attributes, variable, length := [], [], None, 0;
    }

    /** add_decode_field; it does not invalidate a cached length. */
    method AddDecodeField(format: seq<Code>)
      requires segmentType == VALUE_SET
      modifies this`decodeString
      ensures decodeString == old(decodeString) + format
    {
      decodeString := decodeString + format;
    }

    method AddAttribute(attr: Attr)
      requires segmentType == VALUE_SET
      modifies this`attributes
      ensures attributes == old(attributes) + [attr]
    {
      attributes := attributes + [attr];
    }

    /** set_attribute, and set_length for a fixed string. */
    method SetString(name: Option<string>, size: nat)
      requires segmentType != VALUE_SET
      modifies this`variable, this`length
      ensures variable == name
      ensures length == if segmentType == FIX_LENGTH then size else old(length)
    {
      if segmentType == FIX_LENGTH {
        length := size;
      }
      variable := name;
    }

    /** The length property: computed at the first read and kept. */
    method Length() returns (n: nat)
      requires CacheUpToDate()
      modifies this`length
      ensures n == View().Length() && CacheUpToDate() && View() == old(View())
    {
      if length == 0 && segmentType == VALUE_SET {
        length := CalcSize(decodeString);
      }
      n := length;
    }
  }

  /** Each segment object shows one segment of the layout. */
  ghost predicate Shows(segments: seq<DecodeSegment>, layout: seq<Segment>)
    reads segments
  {
    && |segments| == |layout|
    && (forall i, j :: 0 <= i < j < |segments| ==> segments[i] != segments[j])
    && (forall i :: 0 <= i < |segments| ==> segments[i].View() == layout[i] && segments[i].CacheUpToDate())
  }

  /** The segment being filled has no cached length. */
  ghost predicate LastOpen(segments: seq<DecodeSegment>)
    reads segments
  {
    segments != [] && segments[|segments| - 1].segmentType == VALUE_SET ==> segments[|segments| - 1].length == 0
  }
}

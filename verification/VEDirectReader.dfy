/** The VE.Direct reader as an object with its 512-byte buffer. */
module VEDirectReader {
  import opened Wrappers
  import opened Struct
  import opened VEDirect

  class Vedirect {
    var mode: Mode
    var key: seq<byte>
    var value: seq<byte>
    var bytesSum: nat
    var dict: Dict
    const buffer: array<byte>
    var buflen: nat
    /** What went to the output queue and to the receiver of HEX responses. */
    var sent: seq<Output>

    ghost predicate Valid()
      reads this
    {
      buffer.Length == BUFFER_SIZE && buflen <= BUFFER_SIZE
    }

    ghost function Now(): Parser
      requires Valid()
      reads this, buffer
    {
      Parser(mode, key, value, bytesSum, dict, buffer[..buflen])
    }

    constructor ()
      ensures Valid() && fresh(buffer) && Now() == START && sent == []
    {
      mode, key, value, bytesSum, dict, buflen, sent := WAIT_HEADER, [], [], 0, map[], 0, [];
      buffer := new byte[BUFFER_SIZE](_ => 0);
    }

    method Input(b: byte) returns (packet: Option<Dict>)
      requires Valid()
      modifies this, buffer
      ensures Valid()
      ensures var (p, r) := VEDirect.Input(old(Now()), b);
              && Now() == p && (packet.Some? <==> r.Complete?) && (packet.Some? ==> packet.value == dict)
              && sent == old(sent) + (if r.Response? then [HexResponse(r.frame)] else [])
    {
      packet := None;
      if buflen >= BUFFER_SIZE {
        buflen := 0;
        return;
      }
      buffer[buflen] := b;
      buflen := buflen + 1;
      assert buffer[..buflen] == old(buffer[..buflen]) + [b];
      if b == COLON && mode != IN_CHECKSUM {
        mode := HEX;
      }
      match mode {
        case WAIT_HEADER =>
          bytesSum := bytesSum + b;
          mode := if b == LF then IN_KEY else WAIT_HEADER;
        case IN_KEY =>
          bytesSum := bytesSum + b;
          if b == TAB {
            mode := if key == CHECKSUM then IN_CHECKSUM else IN_VALUE;
          } else {
            key := key + [b];
          }
        case IN_VALUE =>
          bytesSum := bytesSum + b;
          if b == CR {
            mode := WAIT_HEADER;
            dict := dict[key := Text(value)];
            key, value := [], [];
          } else {
            value := value + [b];
          }
        case IN_CHECKSUM =>
          bytesSum := bytesSum + b;
          key, value, mode := [], [], WAIT_HEADER;
          if bytesSum % 256 == 0 {
            packet := Some(dict);
          }
          bytesSum := 0;
        case HEX =>
          bytesSum := 0;
          if b == LF {
            sent := sent + [HexResponse(buffer[..buflen])];
            mode, buflen := WAIT_HEADER, 0;
          }
      }
    }

    /** One byte of the reading loop. */
    method OneByte(b: byte, full: bool)
      requires Valid()
      modifies this, buffer
      ensures Valid() && Now() == Step(old(Now()), b, full).0 && sent == old(sent) + Step(old(Now()), b, full).1
    {
      var packet := Input(b);
      if packet.Some? {
        dict := dict[TIMESTAMP := Time];
        if !full {
          sent := sent + [Packet(dict)];
          dict, buflen := map[], 0;
        }
      }
    }

    /** The reading loop, over bytes that arrive while the output queue is full, or is not. */
    method Run(data: seq<byte>, full: bool)
      requires Valid()
      modifies this, buffer
      ensures Valid() && Now() == Feed(old(Now()), data, full).0 && sent == old(sent) + Feed(old(Now()), data, full).1
    {
      for i := 0 to |data|
        invariant Valid()
        invariant Feed(old(Now()), data, full).0 == Feed(Now(), data[i..], full).0
        invariant old(sent) + Feed(old(Now()), data, full).1 == sent + Feed(Now(), data[i..], full).1
      {
        FeedNext(sent, Now(), data, i, full);
        OneByte(data[i], full);
      }
      assert sent + [] == sent;
    }
  }

  lemma FeedNext(sent: seq<Output>, p: Parser, data: seq<byte>, i: nat, full: bool)
    requires i < |data|
    ensures var (p1, out) := Step(p, data[i], full);
            && Feed(p, data[i..], full).0 == Feed(p1, data[i + 1..], full).0
            && sent + Feed(p, data[i..], full).1 == sent + out + Feed(p1, data[i + 1..], full).1
  {
    assert data[i..][1..] == data[i + 1..];
    var (p1, out) := Step(p, data[i], full);
    var more := Feed(p1, data[i + 1..], full).1;
    assert sent + (out + more) == sent + out + more;
  }
}

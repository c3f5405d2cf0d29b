/**
 encode_payload of a fixed message as it runs: one buffer of static_size bytes, allocated
 first and then written in place at the absolute offsets of the layout.
 */
module PgnInPlace {
  import opened Wrappers
  import opened Struct
  import opened PgnFields
  import opened PgnIr
  import opened PgnText
  import opened PgnProgram
  import opened PgnCompiler

  /** Statements that stay inside a buffer of n bytes; pack_into checks that by itself. */
  predicate FixedOps(ops: seq<EncodeOp>, n: nat) {
    forall op :: op in ops ==> op.PackInto? || (op.PutString? && op.at + op.size <= n)
  }

  lemma {:induction false} GeneratedOpsFit(gs: seq<seq<Field>>, start: nat, n: nat, corrected: bool)
    requires (forall g :: g in gs ==> IsGroup(g)) && NoVarText(Flatten(gs))
    requires start + StaticSize(LayoutOf(gs, start, corrected)) <= n
    requires GenEncodeAll(LayoutOf(gs, start, corrected), false, corrected).Ok?
    ensures FixedOps(GenEncodeAll(LayoutOf(gs, start, corrected), false, corrected).value, n)
    decreases |gs|
  {
    if gs != [] {
      assert gs[0] in gs && gs[0][0] in Flatten(gs);
      LayoutCons(gs, start, corrected);
      GeneratedOpsFit(gs[1..], start + SegmentOf(gs[0], start, corrected).Length(), n, corrected);
    }
  }

  lemma SpliceOneMore(buf: seq<byte>, at: nat, data: seq<byte>, x: byte)
    requires at + |data| < |buf|
    ensures Splice(buf, at, data)[at + |data| := x] == Splice(buf, at, data + [x])
  {
  }

  /** The bytes of one pack_into. */
  method PackBytes(buffer: array<byte>, at: nat, data: seq<byte>)
    requires at + |data| <= buffer.Length
    modifies buffer
    ensures buffer[..] == Splice(old(buffer[..]), at, data)
  {
    for i := 0 to |data|
      invariant buffer[..] == Splice(old(buffer[..]), at, data[..i])
    {
      SpliceOneMore(old(buffer[..]), at, data[..i], data[i]);
      assert data[..i] + [data[i]] == data[..i + 1];
      buffer[at + i] := data[i];
    }
    assert data[..|data|] == data;
  }

  method PutPadding(buffer: array<byte>, at: nat, n: nat)
    requires at + n <= buffer.Length
    modifies buffer
    ensures buffer[..] == Splice(old(buffer[..]), at, Padding(n))
  {
    for i := 0 to n
      invariant buffer[..] == Splice(old(buffer[..]), at, Padding(i))
    {
      SpliceOneMore(old(buffer[..]), at, Padding(i), 0xFF);
      assert Padding(i) + [0xFF] == Padding(i + 1);
      buffer[at + i] := 0xFF;
    }
  }

  lemma TextAndPadding(s: seq<byte>, length: nat)
    ensures var text := s[..Min(|s|, length)];
            FixedText(s, length) == text + Padding(length - |text|)
  {
  }

  /** insert_string: the text, then 0xFF up to the length. */
  method PutText(buffer: array<byte>, at: nat, length: nat, s: seq<byte>)
    requires at + length <= buffer.Length
    modifies buffer
    ensures buffer[..] == Splice(old(buffer[..]), at, FixedText(s, length))
  {
    ghost var was := buffer[..];
    var text := s[..Min(|s|, length)];
    PackBytes(buffer, at, text);
    PutPadding(buffer, at + |text|, length - |text|);
    SpliceSplice(was, at, text, Padding(length - |text|));
    TextAndPadding(s, length);
  }

  lemma NextOp(ops: seq<EncodeOp>, i: nat, st: EncodeState)
    requires i < |ops|
    ensures RunEncode(ops[i..], st) == match RunEncodeOp(ops[i], st)
                                        case None => None
                                        case Some(st') => RunEncode(ops[i + 1..], st')
  {
    assert ops[i..][1..] == ops[i + 1..];
  }

  /** The statements, one after the other, on the buffer; false where one of them raises. */
  method RunInPlace(ops: seq<EncodeOp>, buffer: array<byte>, obj: Object) returns (ok: bool)
    requires FixedOps(ops, buffer.Length)
    modifies buffer
    ensures ok <==> RunEncode(ops, EncodeState(old(buffer[..]), 0, Fresh(obj))).Some?
    ensures ok ==> buffer[..] == RunEncode(ops, EncodeState(old(buffer[..]), 0, Fresh(obj))).value.buf
  {
    var m := Fresh(obj);
    for i := 0 to |ops|
      invariant RunEncode(ops, EncodeState(old(buffer[..]), 0, Fresh(obj)))
             == RunEncode(ops[i..], EncodeState(buffer[..], 0, m))
    {
      NextOp(ops, i, EncodeState(buffer[..], 0, m));
      var m' := RunOpInPlace(ops[i], buffer, m);
      if m'.None? {
        return false;
      }
      m := m'.value;
    }
    return true;
  }

  method RunOpInPlace(op: EncodeOp, buffer: array<byte>, m: Machine) returns (m': Option<Machine>)
    requires FixedOps([op], buffer.Length)
    modifies buffer
    ensures RunEncodeOp(op, EncodeState(old(buffer[..]), 0, m))
         == if m'.None? then None else Some(EncodeState(buffer[..], 0, m'.value))
  {
    assert op in [op];
    if op.PackInto? {
      var ran := Run(op.body, m);
      if ran.None? {
        return None;
      }
      var vals := ReadAll(op.args, ran.value);
      if vals.None? {
        return None;
      }
      var data := Pack(op.format, vals.value);
      if data.None? || op.at + |data.value| > buffer.Length {
        return None;
      }
      PackBytes(buffer, op.at, data.value);
      return ran;
    } else {
      var text := StringOf(op.name, m.obj);
      if text.None? {
        return None;
      }
      InsertStringSplices(buffer[..], op.at, op.size, text.value);
      PutText(buffer, op.at, op.size, text.value);
      return Some(m);
    }
  }

  /** encode_payload: a fresh zeroed buffer, filled in place. */
  method EncodePayload(fs: seq<Field>, p: Program, obj: Object, corrected: bool) returns (buffer: array<byte>, ok: bool)
    requires NoVarText(fs) && Compile(fs, None, false, corrected) == Ok(p)
    ensures fresh(buffer) && buffer.Length == p.size
    ensures ok <==> EncodeFixed(p, obj).Some?
    ensures ok ==> buffer[..] == EncodeFixed(p, obj).value
  {
    buffer := new byte[p.size](_ => 0);
    assert buffer[..] == Zeros(p.size);
    GeneratedOpsFit(Groups(fs), 0, p.size, corrected);
    ok := RunInPlace(p.encode, buffer, obj);
  }

  /** decode_payload: the statements along the running start_byte. */
  method DecodePayload(p: Program, payload: seq<byte>, obj0: Object) returns (obj: Option<Object>)
    ensures obj == DecodeFixed(p, payload, obj0)
  {
    var start, m := 0, Fresh(obj0);
    for i := 0 to |p.decode|
      invariant RunDecode(p.decode, payload, DecodeState(0, Fresh(obj0)))
                == RunDecode(p.decode[i..], payload, DecodeState(start, m))
    {
      assert p.decode[i..][1..] == p.decode[i + 1..];
      var next := RunDecodeOp(p.decode[i], payload, DecodeState(start, m));
      if next.None? {
        return None;
      }
      start, m := next.value.cursor, next.value.m;
    }
    return Some(m.obj);
  }
}

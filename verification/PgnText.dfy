/** The string helpers of the generated classes, on printable ASCII text kept as bytes. */
module PgnText {
  import opened Wrappers
  import opened Struct

  function Min(a: nat, b: nat): nat { if a < b then a else b }

  /** What precedes the first `mark`. */
  function UpTo(b: seq<byte>, mark: byte): seq<byte> {
    if b == [] || b[0] == mark then [] else [b[0]] + UpTo(b[1..], mark)
  }

  predicate Printable(b: byte) { 0x20 <= b < 0x7F }

  /** Padding that rstrip removes: '@', blank and NUL. */
  predicate Strippable(b: byte) { b == 0x40 || b == 0x20 || b == 0 }

  function StripRight(b: seq<byte>): seq<byte> {
    if b != [] && Strippable(b[|b| - 1]) then StripRight(b[..|b| - 1]) else b
  }

  /** clean_string */
  function CleanString(b: seq<byte>): seq<byte> {
    var r := StripRight(UpTo(UpTo(b, 0xFF), 0));
    if forall x :: x in r ==> Printable(x) then r else []
  }

  /** The texts clean_string leaves alone. */
  predicate CleanText(s: seq<byte>) {
    (forall x :: x in s ==> Printable(x)) && (s != [] ==> !Strippable(s[|s| - 1]))
  }

  function Padding(n: nat): (p: seq<byte>)
    ensures |p| == n && forall x :: x in p ==> x == 0xFF
  {
    seq(n, _ => 0xFF)
  }

  /** Assignment to a slice of a bytearray: Python clips the bounds and may grow the array. */
  function SliceAssign(buf: seq<byte>, a: nat, b: nat, data: seq<byte>): seq<byte>
    requires a <= b
  {
    buf[..Min(a, |buf|)] + data + buf[Min(b, |buf|)..]
  }

  /** insert_string: cut to the length, padded with 0xFF one index at a time. */
  function InsertString(buf: seq<byte>, start: nat, length: nat, s: seq<byte>): Option<seq<byte>> {
    var text := s[..Min(|s|, length)];
    var last := start + |text|;
    var buf' := SliceAssign(buf, start, last, text);
    if |s| >= length then Some(buf')
    else if start + length > |buf'| then None
    else Some(buf'[..last] + Padding(length - |s|) + buf'[start + length..])
  }

  /** insert_var_str: a total length byte, an encoding byte, the text. */
  function InsertVarStr(buf: seq<byte>, start: nat, s: seq<byte>): Option<seq<byte>> {
    if |s| + 2 > 255 || start + 2 > |buf| then None
    else Some(SliceAssign(buf[start := |s| + 2][start + 1 := 1], start + 2, start + 2 + |s|, s))
  }

  /** extract_var_str: the text and how far to move on. */
  function ExtractVarStr(payload: seq<byte>, start: nat): Option<(seq<byte>, nat)> {
    if start + 2 > |payload| then None
    else
      var total := payload[start];
      if payload[start + 1] != 1 || total <= 2 then Some(([], total))
      else Some((CleanString(Slice(payload, start + 2, start + total)), total))
  }

  function Slice(b: seq<byte>, from: nat, to: nat): seq<byte>
    requires from <= to
  {
    b[Min(from, |b|)..Min(to, |b|)]
  }

  /** Overwriting part of a buffer. */
  function Splice(buf: seq<byte>, at: nat, data: seq<byte>): (r: seq<byte>)
    requires at + |data| <= |buf|
    ensures |r| == |buf|
  {
    buf[..at] + data + buf[at + |data|..]
  }

  function FixedText(s: seq<byte>, length: nat): (b: seq<byte>)
    ensures |b| == length
  {
    if |s| >= length then s[..length] else s + Padding(length - |s|)
  }

  // ---- insertion is overwriting ----

  lemma InsertStringSplices(buf: seq<byte>, start: nat, length: nat, s: seq<byte>)
    requires start + length <= |buf|
    ensures InsertString(buf, start, length, s) == Some(Splice(buf, start, FixedText(s, length)))
  {
    var text := s[..Min(|s|, length)];
    var last := start + |text|;
    var buf' := SliceAssign(buf, start, last, text);
    if |s| >= length {
      assert buf' == Splice(buf, start, FixedText(s, length));
    } else {
      assert text == s;
      assert buf'[..last] + Padding(length - |s|) + buf'[start + length..]
          == Splice(buf, start, FixedText(s, length));
    }
  }

  lemma InsertVarStrSplices(buf: seq<byte>, start: nat, s: seq<byte>)
    requires |s| + 2 <= 255 && start + 2 + |s| <= |buf|
    ensures InsertVarStr(buf, start, s) == Some(Splice(buf, start, [|s| + 2, 1] + s))
  {
    var head: seq<byte> := [|s| + 2, 1];
    var buf1 := buf[start := |s| + 2][start + 1 := 1];
    assert SliceAssign(buf1, start + 2, start + 2 + |s|, s) == Splice(buf, start, head + s);
  }

  /** Byte for byte: the text, 0xFF behind it, and nothing outside the field. */
  lemma InsertStringBytes(buf: seq<byte>, start: nat, length: nat, s: seq<byte>)
    requires start + length <= |buf|
    ensures var r := InsertString(buf, start, length, s);
            && r.Some? && |r.value| == |buf|
            && forall j :: 0 <= j < |buf| ==>
                 r.value[j] == if j < start || j >= start + length then buf[j]
                               else if j - start < |s| then s[j - start] else 0xFF
  {
    InsertStringSplices(buf, start, length, s);
  }

  /** Byte for byte: the length of the whole, encoding 1, the text, and nothing outside them. */
  lemma InsertVarStrBytes(buf: seq<byte>, start: nat, s: seq<byte>)
    requires |s| + 2 <= 255 && start + 2 + |s| <= |buf|
    ensures var r := InsertVarStr(buf, start, s);
            && r.Some? && |r.value| == |buf|
            && forall j :: 0 <= j < |buf| ==>
                 r.value[j] == if j < start || j >= start + 2 + |s| then buf[j]
                               else if j == start then |s| + 2
                               else if j == start + 1 then 1 else s[j - start - 2]
  {
    InsertVarStrSplices(buf, start, s);
  }

  lemma SpliceSplice(buf: seq<byte>, at: nat, x: seq<byte>, y: seq<byte>)
    requires at + |x| + |y| <= |buf|
    ensures Splice(Splice(buf, at, x), at + |x|, y) == Splice(buf, at, x + y)
  {
  }

  // ---- cleaning ----

  lemma {:induction false} UpToStopsAt(s: seq<byte>, rest: seq<byte>, mark: byte)
    requires mark !in s && (rest != [] ==> rest[0] == mark)
    ensures UpTo(s + rest, mark) == s
  {
    if s != [] {
      assert (s + rest)[1..] == s[1..] + rest;
      UpToStopsAt(s[1..], rest, mark);
    }
  }

  lemma {:induction false} UpToSubset(b: seq<byte>, mark: byte)
    ensures mark !in UpTo(b, mark) && forall x :: x in UpTo(b, mark) ==> x in b
    ensures |UpTo(b, mark)| <= |b|
  {
    if b != [] && b[0] != mark {
      UpToSubset(b[1..], mark);
    }
  }

  lemma {:induction false} StripRightShorter(b: seq<byte>)
    ensures |StripRight(b)| <= |b| && (StripRight(b) != [] ==> !Strippable(StripRight(b)[|StripRight(b)| - 1]))
  {
    if b != [] && Strippable(b[|b| - 1]) {
      StripRightShorter(b[..|b| - 1]);
    }
  }

  /** A clean text comes back from any padding that starts with 0xFF. */
  lemma CleanPadded(s: seq<byte>, pad: seq<byte>)
    requires CleanText(s) && (pad != [] ==> pad[0] == 0xFF)
    ensures CleanString(s + pad) == s
  {
    assert 0xFF !in s && 0 !in s;
    UpToStopsAt(s, pad, 0xFF);
    UpToStopsAt(s, [], 0);
    assert s + [] == s;
  }

  /** Whatever comes out of clean_string is clean, no longer than what went in, and left alone by it. */
  lemma CleanStringIsClean(b: seq<byte>)
    ensures CleanText(CleanString(b)) && |CleanString(b)| <= |b|
    ensures CleanString(CleanString(b)) == CleanString(b)
  {
    UpToSubset(b, 0xFF);
    UpToSubset(UpTo(b, 0xFF), 0);
    StripRightShorter(UpTo(UpTo(b, 0xFF), 0));
    var s := CleanString(b);
    assert s + [] == s;
    CleanPadded(s, []);
  }

  lemma {:induction false} UpToIs(b: seq<byte>, mark: byte, n: nat)
    requires n <= |b| && mark !in b[..n] && (n < |b| ==> b[n] == mark)
    ensures UpTo(b, mark) == b[..n]
  {
    if n > 0 {
      assert b[0] == b[..n][0] && b[1..][..n - 1] == b[..n][1..];
      UpToIs(b[1..], mark, n - 1);
    }
  }

  lemma {:induction false} StripRightIs(b: seq<byte>, m: nat)
    requires m <= |b| && (m > 0 ==> !Strippable(b[m - 1])) && forall i :: m <= i < |b| ==> Strippable(b[i])
    ensures StripRight(b) == b[..m]
    decreases |b|
  {
    if m < |b| {
      assert b[..|b| - 1][..m] == b[..m];
      StripRightIs(b[..|b| - 1], m);
    }
  }

  /** What precedes the first 0xFF, then the first NUL, is what precedes the first of either. */
  lemma UpToEither(b: seq<byte>, n: nat)
    requires n <= |b| && 0xFF !in b[..n] && 0 !in b[..n] && (n < |b| ==> b[n] == 0xFF || b[n] == 0)
    ensures UpTo(UpTo(b, 0xFF), 0) == b[..n]
  {
    if n == |b| || b[n] == 0xFF {
      UpToIs(b, 0xFF, n);
      var c := b[..n];
      assert c[..n] == c;
      UpToIs(c, 0, n);
    } else {
      StopsAtNul(b, n, UpTo(b, 0xFF));
    }
  }

  lemma StopsAtNul(b: seq<byte>, n: nat, c: seq<byte>)
    requires n < |b| && 0xFF !in b[..n] && 0 !in b[..n] && b[n] == 0 && c == UpTo(b, 0xFF)
    ensures UpTo(c, 0) == b[..n]
  {
    assert b[..n + 1] == b[..n] + [b[n]];
    UpToPrefix(b, 0xFF, n + 1);
    var d := c[..n + 1];
    assert d == b[..n + 1] && c[n] == d[n] && c[..n] == d[..n] == b[..n];
    UpToIs(c, 0, n);
  }

  lemma {:induction false} UpToPrefix(b: seq<byte>, mark: byte, n: nat)
    requires n <= |b| && mark !in b[..n]
    ensures |UpTo(b, mark)| >= n && UpTo(b, mark)[..n] == b[..n]
  {
    if n > 0 {
      assert b[0] == b[..n][0] && b[1..][..n - 1] == b[..n][1..];
      UpToPrefix(b[1..], mark, n - 1);
      assert UpTo(b, mark)[..n] == [b[0]] + UpTo(b[1..], mark)[..n - 1];
    }
  }

  /**
   What clean_string makes of any bytes: those before the first 0xFF or NUL, n of them,
   without the blanks and '@' at their end, m remaining; nothing if one is not printable.
   */
  lemma CleanStringIs(b: seq<byte>, n: nat, m: nat)
    requires m <= n <= |b| && 0xFF !in b[..n] && 0 !in b[..n] && (n < |b| ==> b[n] == 0xFF || b[n] == 0)
    requires (m > 0 ==> b[m - 1] != 0x20 && b[m - 1] != 0x40) && forall i :: m <= i < n ==> b[i] == 0x20 || b[i] == 0x40
    ensures CleanString(b) == if forall x :: x in b[..m] ==> 0x20 <= x < 0x7F then b[..m] else []
  {
    UpToEither(b, n);
    if m > 0 {
      assert b[m - 1] in b[..n];
    }
    StripRightIs(b[..n], m);
    assert b[..n][..m] == b[..m];
  }

  /** A fixed-length text survives if and only if it is clean and fits. */
  lemma FixedTextRoundTrip(s: seq<byte>, length: nat)
    ensures CleanString(FixedText(s, length)) == s <==> CleanText(s) && |s| <= length
  {
    CleanStringIsClean(FixedText(s, length));
    if CleanText(s) && |s| <= length {
      CleanPadded(s, Padding(length - |s|));
      assert s[..|s|] == s && s + Padding(0) == s;
    }
  }

  lemma VarTextFound(s: seq<byte>, payload: seq<byte>, at: nat)
    requires |s| + 2 <= 255 && at + 2 + |s| <= |payload|
    requires payload[at..at + 2 + |s|] == [|s| + 2, 1] + s
    ensures ExtractVarStr(payload, at) == Some((if |s| == 0 then [] else CleanString(s), |s| + 2))
  {
    var part := payload[at..at + 2 + |s|];
    assert payload[at] == part[0] == |s| + 2 && payload[at + 1] == part[1] == 1;
    assert Slice(payload, at + 2, at + 2 + |s|) == part[2..] == s;
  }

  /**
   Any bytes read as a variable-length text: the first says how far to move on, the text is
   the cleaned rest, and there is none with another encoding than 1 or a length of 2 or less.
   */
  lemma VarTextRead(payload: seq<byte>, at: nat)
    ensures ExtractVarStr(payload, at).None? <==> at + 2 > |payload|
    ensures at + 2 <= |payload| ==> ExtractVarStr(payload, at).value.1 == payload[at]
    ensures at + 2 <= |payload| && (payload[at + 1] != 1 || payload[at] <= 2) ==>
              ExtractVarStr(payload, at).value.0 == []
    ensures at + 2 <= |payload| && payload[at + 1] == 1 && payload[at] >= 2 && at + payload[at] <= |payload| ==>
              ExtractVarStr(payload, at).value.0 == CleanString(payload[at + 2..at + payload[at]])
  {
    assert CleanString([]) == [];
  }

  /** A variable-length text that was inserted survives if and only if it is clean. */
  lemma VarTextRoundTrip(s: seq<byte>, payload: seq<byte>, at: nat)
    requires |s| + 2 <= 255 && at + 2 + |s| <= |payload|
    requires payload[at..at + 2 + |s|] == [|s| + 2, 1] + s
    ensures ExtractVarStr(payload, at).Some? && ExtractVarStr(payload, at).value.1 == |s| + 2
    ensures ExtractVarStr(payload, at).value.0 == s <==> CleanText(s)
  {
    VarTextFound(s, payload, at);
    CleanStringIsClean(s);
    if CleanText(s) {
      CleanPadded(s, []);
      assert s + [] == s;
    }
  }
}

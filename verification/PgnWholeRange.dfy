/**
 For which field lists the emission as written carries every object in range: exactly
 those whose fields are all faithful.
 */
module PgnWholeRange {
  import opened Wrappers
  import opened PgnFields
  import opened PgnIr
  import opened PgnExact
  import opened PgnRoundTrip
  import opened PgnProgram
  import opened PgnMessage
  import opened PgnCompiler
  import opened PgnInterference
  import opened PgnFrames
  import opened PgnTwoRuns
  import opened PgnTransfer
  import opened PgnUnfaithful
  import opened PgnFaithful

  /** A list the corrected emission handles, over distinct names. */
  predicate SaneList(fs: seq<Field>) { SupportedFields(fs, true) && Distinct(AllNames(fs)) }

  /** An object with every value in the range its field is defined to carry. */
  predicate InRangeObject(fs: seq<Field>, o: Object, counter: Option<string>)
    requires SupportedFields(fs, true)
  {
    AllTyped(fs, o) && MessageExact(fs, o, counter, true)
  }

  // ---- segments of a sane list ----

  lemma {:induction false} InSomeGroup(gs: seq<seq<Field>>, f: Field)
    requires f in Flatten(gs)
    ensures exists g :: g in gs && f in g
  {
    if f in gs[0] {
      assert gs[0] in gs;
    } else {
      InSomeGroup(gs[1..], f);
      var g :| g in gs[1..] && f in g;
      assert g in gs;
    }
  }

  lemma SaneGroups(fs: seq<Field>)
    requires SaneList(fs)
    ensures Sane(Groups(fs))
    ensures AllHandled(Groups(fs)) ==> SupportedFields(fs, false)
  {
    var gs := Groups(fs);
    forall g | g in gs ensures SupportedFields(g, true) {
      InFlatten(gs, g);
    }
    if AllHandled(gs) {
      forall f | f in fs ensures SupportedField(f, false) {
        InSomeGroup(gs, f);
      }
    }
  }

  lemma TypedGroups(fs: seq<Field>, o: Object)
    requires AllTyped(fs, o)
    ensures GroupsTyped(Groups(fs), o)
  {
    forall g | g in Groups(fs) ensures AllTyped(g, o) {
      InFlatten(Groups(fs), g);
    }
  }

  // ---- the two objects ----

  function FreshName(names: seq<string>): (x: string)
    ensures |x| > 0 && forall n :: n in names ==> |n| < |x|
  {
    if names == [] then "x" else names[0] + FreshName(names[1..])
  }

  /** Two objects in range of which at most one comes back: they differ as the witness says. */
  lemma TwoObjects(fs: seq<Field>, o: Object, counter: Option<string>) returns (x: string, o0: Object, o1: Object)
    requires SaneList(fs) && Sane(Groups(fs)) && !AllHandled(Groups(fs)) && InRangeObject(fs, o, counter)
    requires forall f :: f in fs && f.Number() && Slots(f) == 2 && counter.Some? ==> counter.value !in Names(f)
    ensures InRangeObject(fs, o0, counter) && InRangeObject(fs, o1, counter) && SameBut(o0, o1, x) && counter != Some(x)
    ensures SameBut(o, o0, x) && SameBut(o, o1, x)
    ensures var w := GroupsWitness(Groups(fs));
            if w.AtMostOne? then x == w.name && x in AllNames(fs) && o0 == o[x := Int(0)] && o1 == o[x := Int(w.other)]
            else x !in AllNames(fs) && o0 == o1 == o
  {
    var gs := Groups(fs);
    var w := GroupsWitness(gs);
    if w.AtMostOne? {
      x := w.name;
      var f := WitnessNamed(gs);
      o0, o1 := o[x := Int(0)], o[x := Int(w.other)];
      InRangeFieldwise(fs, o, counter, true);
      SmallInRange(f, x, 0, o, counter);
      SmallInRange(f, x, w.other, o, counter);
      ChangedInRange(fs, f, x, Int(0), o, counter);
      ChangedInRange(fs, f, x, Int(w.other), o, counter);
    } else {
      x := FreshName(AllNames(fs) + (if counter.Some? then [counter.value] else []));
      o0, o1 := o, o;
    }
  }

  // ---- fixed messages ----

  /** As emitted, encoding o and decoding into obj0 gives every named attribute of o. */
  predicate ComesBack(fs: seq<Field>, o: Object, obj0: Object) {
    var p := Compile(fs, None, false, false);
    && p.Ok?
    && var payload := EncodeFixed(p.value, o);
       && payload.Some? && DecodeFixed(p.value, payload.value, obj0).Some?
       && Recovered(AllNames(fs), o, DecodeFixed(p.value, payload.value, obj0).value)
  }

  /** As emitted, the whole range comes back. */
  ghost predicate WholeRangeComesBack(fs: seq<Field>)
    requires SupportedFields(fs, true)
  {
    forall o, obj0 :: InRangeObject(fs, o, None) ==> ComesBack(fs, o, obj0)
  }

  lemma {:induction false} FixedSize(gs: seq<seq<Field>>, start: nat, o: Object)
    requires (forall g :: g in gs ==> IsGroup(g)) && GroupsTyped(gs, o) && NoVarText(Flatten(gs))
    ensures GroupsSize(gs, o) == StaticSize(LayoutOf(gs, start, false))
    decreases |gs|
  {
    if gs != [] {
      FirstVarText(gs, false);
      LayoutCons(gs, start, false);
      LengthIsSize(gs[0], start, o);
      FixedSize(gs[1..], start + SegmentOf(gs[0], start, false).Length(), o);
    }
  }

  /** The way of an object that comes back. */
  lemma FixedPasses(fs: seq<Field>, o: Object, obj0: Object) returns (t: Transfer)
    requires NoVarText(fs) && ComesBack(fs, o, obj0)
    ensures Passes(Groups(fs), 0, false, None, t) && t.ds == DecodeState(0, Fresh(obj0))
    ensures t.st == EncodeState(Zeros(StaticSize(LayoutOf(Groups(fs), 0, false))), 0, Fresh(o))
    ensures Recovered(AllNames(fs), o, t.r.m.obj)
  {
    var gs := Groups(fs);
    var p := Compile(fs, None, false, false).value;
    var st, ds := EncodeState(Zeros(p.size), 0, Fresh(o)), DecodeState(0, Fresh(obj0));
    var fin := RunEncode(p.encode, st).value;
    t := Transfer(st, fin, fin.buf, ds, RunDecode(p.decode, fin.buf, ds).value);
    forall k | 0 <= k < |fin.buf| ensures SameByte(fin.buf, fin.buf, k) {
    }
  }

  /** A list that is not handled: an object in range that does not come back. */
  lemma UnhandledLoses(fs: seq<Field>, obj0: Object) returns (o: Object)
    requires SaneList(fs) && NoVarText(fs) && !SupportedFields(fs, false)
    ensures InRangeObject(fs, o, None) && !ComesBack(fs, o, obj0)
  {
    var gs := Groups(fs);
    SaneGroups(fs);
    SampleInRange(fs);
    var x, o0, o1 := TwoObjects(fs, Sample(fs), None);
    if ComesBack(fs, o0, obj0) && ComesBack(fs, o1, obj0) {
      var t0 := FixedPasses(fs, o0, obj0);
      var t1 := FixedPasses(fs, o1, obj0);
      TypedGroups(fs, o0);
      TypedGroups(fs, o1);
      FixedSize(gs, 0, o0);
      NeverBoth(gs, 0, false, None, x, t0, t1);
      assert false;
    }
    o := if ComesBack(fs, o0, obj0) then o1 else o0;
  }

  /** A handled list with a field that is not faithful: the same. */
  lemma UnfaithfulLoses(fs: seq<Field>, obj0: Object) returns (o: Object)
    requires SaneList(fs) && NoVarText(fs) && SupportedFields(fs, false) && !AllFaithful(fs)
    ensures InRangeObject(fs, o, None) && !ComesBack(fs, o, obj0)
  {
    var f :| f in fs && !Faithful(f);
    SampleInRange(fs);
    InRangeFieldwise(fs, Sample(fs), None, true);
    NamesOfField(fs, f);
    var x, v := Unfaithful(f, Sample(fs), None);
    o := Sample(fs)[x := v];
    ChangedInRange(fs, f, x, v, Sample(fs), None);
    InRangeFieldwise(fs, o, None, false);
    var p := FixedMessageRoundTrip(fs, o, obj0, false);
  }

  lemma {:induction false} NamesOfField(fs: seq<Field>, f: Field)
    requires Distinct(AllNames(fs)) && f in fs
    ensures Distinct(Names(f))
  {
    DistinctParts(Names(fs[0]), AllNames(fs[1..]));
    if f != fs[0] {
      NamesOfField(fs[1..], f);
    }
  }

  /**
   Fixed messages as emitted: every object in range comes back, whatever it is decoded
   into, if and only if every field is faithful.
   */
  lemma WholeRangeIffFaithful(fs: seq<Field>)
    requires SaneList(fs) && NoVarText(fs)
    ensures WholeRangeComesBack(fs) <==> AllFaithful(fs)
  {
    if AllFaithful(fs) {
      forall o, obj0 | InRangeObject(fs, o, None) ensures ComesBack(fs, o, obj0) {
        FaithfulListCarries(fs, o, None);
        var p := FixedMessageRoundTrip(fs, o, obj0, false);
      }
    } else {
      var o: Object;
      if SupportedFields(fs, false) {
        o := UnfaithfulLoses(fs, map[]);
      } else {
        o := UnhandledLoses(fs, map[]);
      }
    }
  }
}

/**
 Field lists the emission as written does not handle: for every one of them a change of
 one attribute that the generated code does not notice, so that not both objects come back.
 */
module PgnUnsupported {
  import opened Wrappers
  import opened PgnFields
  import opened PgnIr
  import opened PgnDecode
  import opened PgnRoundTrip
  import opened PgnNumbers
  import opened PgnInterference
  import opened PgnMisaligned

  // ---- the attribute to change ----

  /** The attribute that is 0 in one object and `other` in the other; or no object is encoded at all. */
  datatype Witness = NoneComesBack | AtMostOne(name: string, other: int)

  predicate HasInteger(g: seq<Field>) { exists f :: f in g && TwoSlotInteger(f) }

  predicate HasUnready(g: seq<Field>)
    requires AllNumbers(g)
  {
    exists f :: f in g && !DecodeReady(f, false)
  }

  predicate HasNamed(subs: seq<Sub>) { exists s :: s in subs && s.name.Some? }

  function IntegerIndex(g: seq<Field>): (k: nat)
    requires HasInteger(g)
    ensures k < |g| && TwoSlotInteger(g[k]) && forall f :: f in g[..k] ==> !TwoSlotInteger(f)
  {
    if TwoSlotInteger(g[0]) then 0
    else
      var k := IntegerIndex(g[1..]);
      assert g[..k + 1] == [g[0]] + g[1..][..k];
      k + 1
  }

  function UnreadyIndex(g: seq<Field>): (k: nat)
    requires AllNumbers(g) && HasUnready(g)
    ensures k < |g| && !DecodeReady(g[k], false)
    ensures g[k].BitField? && Slots(g[k]) == 2 && HasNamed(g[k].subs)
  {
    if !DecodeReady(g[0], false) then 0 else UnreadyIndex(g[1..]) + 1
  }

  function NamedIndex(subs: seq<Sub>): (i: nat)
    requires HasNamed(subs)
    ensures i < |subs| && subs[i].name.Some?
  {
    if subs[0].name.Some? then 0 else NamedIndex(subs[1..]) + 1
  }

  /** A segment of numbers the emission as written does not handle. */
  predicate Unsupported(g: seq<Field>) {
    AllNumbers(g) && Numbers(g) && !(Aligned(g) && !HasUnready(g))
  }

  function GroupWitness(g: seq<Field>): Witness
    requires Unsupported(g)
  {
    if HasInteger(g) then AtMostOne(g[IntegerIndex(g)].name.value, 65536)
    else if !Aligned(g) then NoneComesBack
    else
      var subs := g[UnreadyIndex(g)].subs;
      AtMostOne(subs[NamedIndex(subs)].name.value, 1)
  }

  /** The witness is an attribute of a two-slot field of the segment. */
  lemma WitnessField(g: seq<Field>) returns (k: nat)
    requires Unsupported(g) && GroupWitness(g).AtMostOne?
    ensures k < |g| && g[k].Number() && Slots(g[k]) == 2 && GroupWitness(g).name in Names(g[k])
    ensures g[k].Scalar? ==> TwoSlotInteger(g[k]) && GroupWitness(g).other == 65536
    ensures g[k].BitField? ==> GroupWitness(g).other == 1
  {
    if HasInteger(g) {
      k := IntegerIndex(g);
      assert g[k] in g && Names(g[k]) == [g[k].name.value];
    } else {
      k := UnreadyIndex(g);
      var subs := g[k].subs;
      SubNameIn(subs, NamedIndex(subs));
    }
  }

  lemma {:induction false} SubNameIn(subs: seq<Sub>, i: nat)
    requires i < |subs| && subs[i].name.Some?
    ensures subs[i].name.value in SubNames(subs)
    decreases i
  {
    if i > 0 {
      SubNameIn(subs[1..], i - 1);
    }
  }

  lemma SplitAt(g: seq<Field>, k: nat) returns (pre: seq<Field>, post: seq<Field>)
    requires k < |g| && AllNumbers(g) && Distinct(AllNames(g))
    ensures pre == g[..k] && post == g[k + 1..] && g == pre + ([g[k]] + post) && g[k].Number()
    ensures AllNumbers(pre) && AllNumbers(post) && Distinct(Names(g[k]))
    ensures forall x :: x in Names(g[k]) ==> x !in AllNames(pre) && x !in AllNames(post)
  {
    pre, post := g[..k], g[k + 1..];
    var f := g[k];
    assert g == pre + ([f] + post);
    assert f in g && (forall h :: h in pre ==> h in g) && forall h :: h in post ==> h in g;
    Around(pre, f, post);
    DistinctAround(AllNames(pre), Names(f), AllNames(post));
  }

  lemma DistinctAround(a: seq<string>, b: seq<string>, c: seq<string>)
    requires Distinct(a + (b + c))
    ensures Distinct(b) && forall x :: x in b ==> x !in a && x !in c
  {
    DistinctParts(a, b + c);
    DistinctParts(b, c);
    assert forall x :: x in b ==> x in b + c;
  }

  // ---- one segment ----

  /**
   Of two objects that differ as the witness says at most one comes back through the
   segment; without a witness none does.
   */
  lemma GroupNeverBoth(g: seq<Field>, counter: Option<string>, em0: Machine, em1: Machine,
                       v0: seq<int>, v1: seq<int>, dm: Machine, r0: Machine, r1: Machine)
    requires Unsupported(g) && Distinct(AllNames(g)) && AllTyped(g, em0.obj) && AllTyped(g, em1.obj)
    requires GroupWitness(g).AtMostOne? ==>
               Agree(em0, em1, GroupWitness(g).name, 0) && counter != Some(GroupWitness(g).name)
    requires Carries(g, counter, em0, v0, dm, r0) && Carries(g, counter, em1, v1, dm, r1)
    ensures GroupWitness(g).AtMostOne?
    ensures var x := GroupWitness(g).name;
            && x in r0.obj && x in r1.obj
            && !(r0.obj[x] == Int(0) && r1.obj[x] == Int(GroupWitness(g).other))
  {
    if HasInteger(g) {
      var k := IntegerIndex(g);
      var pre, post := SplitAt(g, k);
      assert Names(g[k]) == [g[k].name.value];
      IntegerNeverBoth(pre, g[k], post, g[k].name.value, counter, em0, em1, v0, v1, dm, r0, r1);
    } else if !Aligned(g) {
      NoIntegerTooFew(g, counter, em0, v0, dm, r0);
    } else {
      var k := UnreadyIndex(g);
      var i := NamedIndex(g[k].subs);
      var pre, post := SplitAt(g, k);
      SubNameIn(g[k].subs, i);
      UnjoinedNeverBoth(pre, g[k], i, post, g[k].subs[i].name.value, counter, em0, em1, v0, v1, dm, r0, r1);
    }
  }

  lemma NoIntegerTooFew(g: seq<Field>, counter: Option<string>, em: Machine, vals: seq<int>, dm: Machine, r: Machine)
    requires Numbers(g) && AllNumbers(g) && !HasInteger(g) && !Aligned(g)
    ensures !Carries(g, counter, em, vals, dm, r)
  {
    TooFewOperands(g, counter, em, vals, dm, r);
  }
}

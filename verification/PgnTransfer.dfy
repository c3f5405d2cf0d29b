/** A message on its way through the code generated for a list of segments. */
module PgnTransfer {
  import opened Wrappers
  import opened Struct
  import opened PgnFields
  import opened PgnIr
  import opened PgnRoundTrip
  import opened PgnProgram
  import opened PgnMessage
  import opened PgnFrames
  import opened PgnTwoRuns

  /** Encoding went from st to fin, and decoding the payload from ds to r. */
  datatype Transfer = Transfer(st: EncodeState, fin: EncodeState, payload: seq<byte>, ds: DecodeState, r: DecodeState)

  /** Both generated methods get through, and what was written is in the payload. */
  predicate Passes(gs: seq<seq<Field>>, start: nat, variable: bool, counter: Option<string>, t: Transfer)
    requires forall g :: g in gs ==> IsGroup(g)
  {
    var layout := LayoutOf(gs, start, false);
    var e, d := GenEncodeAll(layout, variable, false), GenDecodeAll(layout, counter, false);
    && e.Ok? && RunEncode(e.value, t.st) == Some(t.fin)
    && d.Ok? && RunDecode(d.value, t.payload, t.ds) == Some(t.r)
    && Carried(t.payload, t.fin.buf, Position(t.st, start, variable), Position(t.fin, End(gs, start), variable))
  }

  /** Segments that would be handled by the corrected emission. */
  predicate Sane(gs: seq<seq<Field>>) {
    (forall g :: g in gs ==> IsGroup(g) && SupportedFields(g, true)) && Distinct(AllNames(Flatten(gs)))
  }

  predicate GroupsTyped(gs: seq<seq<Field>>, o: Object) { forall g :: g in gs ==> AllTyped(g, o) }

  /** The bytes the segments take. */
  function GroupsSize(gs: seq<seq<Field>>, o: Object): nat
    requires (forall g :: g in gs ==> IsGroup(g)) && GroupsTyped(gs, o)
  {
    if gs == [] then 0
    else
      assert gs[0] in gs;
      GroupSize(gs[0], o) + GroupsSize(gs[1..], o)
  }

  predicate AllHandled(gs: seq<seq<Field>>) { forall g :: g in gs ==> SupportedFields(g, false) }

  /** Two messages at the same point, that differ in x only; decoding is where encoding was. */
  ghost predicate SideBySide(t0: Transfer, t1: Transfer, x: string, start: nat, variable: bool) {
    Alike(t0.st, t1.st, x) && t0.ds == t1.ds && t0.ds.cursor == Position(t0.st, start, variable)
  }

  /** What was written up to mid stays and is in the payload. */
  predicate Reaches(t: Transfer, mid: EncodeState, start: nat, next: nat, variable: bool, hi: nat) {
    && Grows(mid.buf, t.fin.buf, Position(mid, next, variable)) && Position(mid, next, variable) <= hi
    && Carried(t.payload, t.fin.buf, Position(t.st, start, variable), hi)
  }

  /** Not both messages come back with x as it was, 0 in one and `other` in the other. */
  predicate NotBoth(t0: Transfer, t1: Transfer, x: string, other: int) {
    && x in t0.r.m.obj && x in t1.r.m.obj
    && !(t0.r.m.obj[x] == Int(0) && t1.r.m.obj[x] == Int(other))
  }
}

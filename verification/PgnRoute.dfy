/**
 PGN 129285, Navigation - Route/WP Information: variable strings and a repeated set of
 waypoints, and exactly which routes survive its generated class.
 */
module PgnRoute {
  import opened Bits
  import opened Wrappers
  import opened PgnFields
  import opened PgnIr
  import opened PgnValues
  import opened PgnRoundTrip
  import opened PgnText
  import opened PgnMessage
  import opened PgnCompiler
  import opened PgnRepeated
  import opened PgnRanges

  function Word16(name: string): Field { Unsigned(name, 2) }

  const DIRECTION := BitField([Sub(Some("navigation_direction"), 3, 0), Sub(Some("supplementary_data"), 2, 3),
                               Sub(None, 3, 5)])
  const ROUTE_NAME := VarText(Some("route_name"))
  const OWN: seq<Field> := [Word16("start_waypoint_id"), Word16("nb_items"), Word16("database_id"), Word16("route_id"),
                            DIRECTION, ROUTE_NAME, RESERVED]
  const LATITUDE := SignedFloat("waypoint_latitude")
  const LONGITUDE := SignedFloat("waypoint_longitude")
  const WAYPOINT_NAME := VarText(Some("waypoint_name"))
  const WAYPOINT: seq<Field> := [Word16("waypoint_id"), WAYPOINT_NAME, LATITUDE, LONGITUDE]

  const ROUTE := FieldSet(OWN, Some(Repeat("nb_items", WAYPOINT)))

  // ---- the definition is one the compiler handles ----

  lemma DirectionIsWellFormed()
    ensures WellFormed(DIRECTION) && Slots(DIRECTION) == 1
  {
    ThreeSubs(DIRECTION.subs[0], DIRECTION.subs[1], DIRECTION.subs[2]);
  }

  lemma WaypointIsSupported()
    ensures SupportedFields(WAYPOINT, false)
  {
    assert forall name :: SupportedField(Word16(name), false);
  }

  lemma DirectionIsSupported()
    ensures SupportedField(DIRECTION, false)
  {
    DirectionIsWellFormed();
  }

  lemma DirectionNames()
    ensures Names(DIRECTION) == ["navigation_direction", "supplementary_data"]
  {
    var subs := DIRECTION.subs;
    assert subs[1..] == [subs[1], subs[2]] && [subs[1], subs[2]][1..] == [subs[2]] && [subs[2]][1..] == [];
    assert SubNames([subs[2]]) == [];
    assert SubNames([subs[1], subs[2]]) == ["supplementary_data"];
  }

  const OWN_NAMES: seq<string> := ["start_waypoint_id", "nb_items", "database_id", "route_id",
                                   "navigation_direction", "supplementary_data", "route_name"]

  lemma OwnTailNames() returns (tail: seq<Field>)
    ensures tail == [DIRECTION] + ([ROUTE_NAME] + [RESERVED]) && AllNames(tail) == OWN_NAMES[4..]
  {
    NamesCons(RESERVED, []);
    assert [RESERVED] + [] == [RESERVED] && AllNames([RESERVED]) == [];
    NamesCons(ROUTE_NAME, [RESERVED]);
    DirectionNames();
    NamesCons(DIRECTION, [ROUTE_NAME] + [RESERVED]);
    tail := [DIRECTION] + ([ROUTE_NAME] + [RESERVED]);
  }

  lemma OwnNames()
    ensures AllNames(OWN) == OWN_NAMES
  {
    var tail := OwnTailNames();
    WordNames(tail);
    assert OWN == [Word16("start_waypoint_id")]
                  + ([Word16("nb_items")] + ([Word16("database_id")] + ([Word16("route_id")] + tail)));
    assert OWN_NAMES[..4] + OWN_NAMES[4..] == OWN_NAMES;
  }

  lemma WordNames(rest: seq<Field>)
    ensures AllNames([Word16("start_waypoint_id")]
                     + ([Word16("nb_items")] + ([Word16("database_id")] + ([Word16("route_id")] + rest))))
         == OWN_NAMES[..4] + AllNames(rest)
  {
    NamesCons(Word16("route_id"), rest);
    var r3 := [Word16("route_id")] + rest;
    NamesCons(Word16("database_id"), r3);
    var r4 := [Word16("database_id")] + r3;
    NamesCons(Word16("nb_items"), r4);
    NamesCons(Word16("start_waypoint_id"), [Word16("nb_items")] + r4);
  }

  lemma OwnNamesDistinct()
    ensures Distinct(OWN_NAMES)
  {
    assert "nb_items"[0] == 'n' && "route_id"[0] == 'r';
    assert |"start_waypoint_id"| == 17 && |"nb_items"| == 8 && |"database_id"| == 11 && |"route_id"| == 8;
    assert |"navigation_direction"| == 20 && |"supplementary_data"| == 18 && |"route_name"| == 10;
  }

  lemma WaypointNames()
    ensures AllNames(WAYPOINT) == ["waypoint_id", "waypoint_name", "waypoint_latitude", "waypoint_longitude"]
    ensures Distinct(AllNames(WAYPOINT))
  {
    NamesCons(LONGITUDE, []);
    var r1 := [LONGITUDE] + [];
    NamesCons(LATITUDE, r1);
    var r2 := [LATITUDE] + r1;
    NamesCons(WAYPOINT_NAME, r2);
    var r3 := [WAYPOINT_NAME] + r2;
    NamesCons(Word16("waypoint_id"), r3);
    assert WAYPOINT == [Word16("waypoint_id")] + r3;
    assert |"waypoint_id"| == 11 && |"waypoint_name"| == 13 && |"waypoint_latitude"| == 17
        && |"waypoint_longitude"| == 18;
  }

  // ---- which values survive ----

  predicate Name(v: Value) { v.Str? && CleanText(v.s) && |v.s| <= 253 }

  predicate OwnTyped(o: Object) {
    && HasInt("start_waypoint_id", o) && HasInt("nb_items", o) && HasInt("database_id", o) && HasInt("route_id", o)
    && HasInt("navigation_direction", o) && HasInt("supplementary_data", o) && HasStr("route_name", o)
  }

  predicate WaypointTyped(o: Object) {
    && HasInt("waypoint_id", o) && HasStr("waypoint_name", o)
    && HasFloat("waypoint_latitude", o) && HasFloat("waypoint_longitude", o)
  }

  predicate OwnValues(o: Object)
    requires OwnTyped(o)
  {
    && U16(o["start_waypoint_id"].i) && 0 <= o["nb_items"].i < 0xFFFF && U16(o["database_id"].i) && U16(o["route_id"].i)
    && 0 <= o["navigation_direction"].i < 8 && 0 <= o["supplementary_data"].i < 4 && Name(o["route_name"])
  }

  predicate WaypointValues(o: Object)
    requires WaypointTyped(o)
  {
    U16(o["waypoint_id"].i) && Name(o["waypoint_name"]) && Raw32(o["waypoint_latitude"])
        && Raw32(o["waypoint_longitude"])
  }

  lemma NameExact(name: string, o: Object, counter: Option<string>)
    requires HasStr(name, o)
    ensures FieldExact(VarText(Some(name)), o, counter, false) <==> Name(o[name])
  {
  }

  lemma DirectionExact(o: Object, counter: Option<string>)
    requires HasInt("navigation_direction", o) && HasInt("supplementary_data", o)
    ensures SupportedField(DIRECTION, false) && Typed(DIRECTION, o)
    ensures FieldExact(DIRECTION, o, counter, false)
       <==> 0 <= o["navigation_direction"].i < 8 && 0 <= o["supplementary_data"].i < 4
  {
    DirectionIsSupported();
    var subs := DIRECTION.subs;
    assert Pow2(3) == 8 && Pow2(2) == 4;
    assert forall s :: s in subs <==> s == subs[0] || s == subs[1] || s == subs[2];
  }

  lemma WaypointExact(o: Object)
    requires WaypointTyped(o)
    ensures SupportedFields(WAYPOINT, false) && AllTyped(WAYPOINT, o)
    ensures MessageExact(WAYPOINT, o, None, false) <==> WaypointValues(o)
  {
    UnsignedExact("waypoint_id", 2, o, None, false);
    NameExact("waypoint_name", o, None);
    SignedFloatExact("waypoint_latitude", o, None, false);
    SignedFloatExact("waypoint_longitude", o, None, false);
    ExactCons(LONGITUDE, [], o, None, false);
    ExactCons(LATITUDE, [LONGITUDE] + [], o, None, false);
    ExactCons(WAYPOINT_NAME, [LATITUDE] + ([LONGITUDE] + []), o, None, false);
    var rest := [WAYPOINT_NAME] + ([LATITUDE] + ([LONGITUDE] + []));
    ExactCons(Word16("waypoint_id"), rest, o, None, false);
    assert WAYPOINT == [Word16("waypoint_id")] + rest;
  }

  lemma OwnTailExact(o: Object, counter: Option<string>) returns (tail: seq<Field>)
    requires OwnTyped(o)
    ensures tail == [DIRECTION] + ([ROUTE_NAME] + ([RESERVED] + []))
    ensures SupportedFields(tail, false) && AllTyped(tail, o)
    ensures MessageExact(tail, o, counter, false)
       <==> 0 <= o["navigation_direction"].i < 8 && 0 <= o["supplementary_data"].i < 4 && Name(o["route_name"])
  {
    var reserved := RESERVED;
    assert SupportedField(reserved, false) && FieldExact(reserved, o, counter, false);
    ExactCons(reserved, [], o, counter, false);
    NameExact("route_name", o, counter);
    ExactCons(ROUTE_NAME, [reserved] + [], o, counter, false);
    DirectionExact(o, counter);
    ExactCons(DIRECTION, [ROUTE_NAME] + ([reserved] + []), o, counter, false);
    tail := [DIRECTION] + ([ROUTE_NAME] + ([reserved] + []));
  }

  lemma OwnExact(o: Object)
    requires OwnTyped(o)
    ensures SupportedFields(OWN, false) && AllTyped(OWN, o)
    ensures MessageExact(OWN, o, Some("nb_items"), false) <==> OwnValues(o)
  {
    var counter := Some("nb_items");
    var tail := OwnTailExact(o, counter);
    OtherNames();
    UnsignedExact("route_id", 2, o, counter, false);
    ExactCons(Word16("route_id"), tail, o, counter, false);
    var r1 := [Word16("route_id")] + tail;
    UnsignedExact("database_id", 2, o, counter, false);
    ExactCons(Word16("database_id"), r1, o, counter, false);
    var r2 := [Word16("database_id")] + r1;
    UnsignedExact("nb_items", 2, o, counter, false);
    ExactCons(Word16("nb_items"), r2, o, counter, false);
    var r3 := [Word16("nb_items")] + r2;
    UnsignedExact("start_waypoint_id", 2, o, counter, false);
    ExactCons(Word16("start_waypoint_id"), r3, o, counter, false);
    assert OWN == [Word16("start_waypoint_id")] + r3;
  }

  lemma OtherNames()
    ensures "nb_items" != "route_id" && "nb_items" != "database_id" && "nb_items" != "start_waypoint_id"
  {
    assert "nb_items"[0] == 'n' && "route_id"[0] == 'r';
    assert |"nb_items"| == 8 && |"database_id"| == 11 && |"start_waypoint_id"| == 17;
  }

  lemma {:induction false} WaypointsExact(items: seq<Object>)
    requires forall o :: o in items ==> WaypointTyped(o)
    ensures ItemsOk(WAYPOINT, items, false)
    ensures ItemsExact(WAYPOINT, items, false) <==> forall o :: o in items ==> WaypointTyped(o) && WaypointValues(o)
    decreases |items|
  {
    WaypointNames();
    forall o | o in items ensures Compilable(WAYPOINT, o, false) {
      WaypointExact(o);
    }
    if items != [] {
      assert items[0] in items;
      WaypointExact(items[0]);
      WaypointsExact(items[1..]);
      assert forall o :: o in items <==> o == items[0] || o in items[1..];
    }
  }

  /**
   A route whose counter counts its waypoints and that fits the buffer comes back with all
   attributes and all waypoints in order, if and only if every word is unsigned 16 bits,
   the count is not the invalid one, both bit-fields fit, texts are clean and short, and
   positions are 32-bit numbers other than those that mean not available.
   */
  lemma RouteRoundTrip(msg: Message) returns (p: SetProgram)
    requires OwnTyped(msg.attributes) && forall o :: o in msg.items ==> WaypointTyped(o)
    requires msg.attributes["nb_items"].i == |msg.items|
    requires SetPayload(ROUTE, msg, false).Some? ==> |SetPayload(ROUTE, msg, false).value| <= BUFFER_SIZE
    ensures CompileSet(ROUTE, false) == Ok(p)
    ensures var payload := EncodeMessage(p, msg);
            && (payload.Some? && DecodeMessage(p, payload.value).Some?
                && SetRecovered(ROUTE, msg, DecodeMessage(p, payload.value).value.0)
                <==> OwnValues(msg.attributes) && forall o :: o in msg.items ==> WaypointTyped(o) && WaypointValues(o))
            && (OwnValues(msg.attributes) && (forall o :: o in msg.items ==> WaypointTyped(o) && WaypointValues(o)) ==>
                 payload.Some? && DecodeMessage(p, payload.value).Some?
                 && DecodeMessage(p, payload.value).value.1 == |payload.value|)
  {
    OwnNames();
    OwnNamesDistinct();
    WaypointNames();
    WaypointIsSupported();
    OwnExact(msg.attributes);
    WaypointsExact(msg.items);
    assert OWN_NAMES[1] == "nb_items";
    assert MessageOk(ROUTE, msg, false);
    p := RepeatedMessageRoundTrip(ROUTE, msg, false);
  }
}

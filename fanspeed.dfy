/** Fan speed levels and their names (src/fanspeed.c, include/fanspeed.h).
    The C enum is an int: NONE (-1) means "no override configured" and sits
    below the five levels, which is what lets the sensor aggregation take a
    plain integer maximum. Values outside -1..4 can still reach
    `ToString`, so levels are modelled as `int`. */
module FanSpeed {
  import opened Tables

  const NONE: int := -1
  const SLOW: int := 0
  const NORMAL: int := 1
  const MEDIUM: int := 2
  const FAST: int := 3
  const MAX: int := 4

  /** The names, in enum order. */
  const Names: seq<string> := ["slow", "normal", "medium", "fast", "max"]

  /** One of the five concrete levels. */
  predicate IsLevel(e: int)
  {
    SLOW <= e <= MAX
  }

  lemma NamesDistinct()
    ensures |Names| == 5 && Distinct(Names)
  {
  }

  /** fan_speed_string_to_enum: NULL and unknown names give NONE. */
  function FromString(name: Option<string>): (e: int)
    ensures e == NONE || IsLevel(e)
    ensures IsLevel(e) ==> name == Some(Names[e])
    ensures e == NONE <==> name.None? || name.value !in Names
  {
    match name
    case None => NONE
    case Some(s) =>
      match IndexOf(Names, s)
      case Some(i) => i
      case None => NONE
  }

  /** fan_speed_enum_to_string: NONE and out-of-range values print as
      "normal", so the result is always one of the five names. */
  function ToString(e: int): (s: string)
    ensures s in Names
    ensures IsLevel(e) ==> s == Names[e]
    ensures !IsLevel(e) ==> s == Names[NORMAL]
  {
    if 0 <= e < |Names| then Names[e] else Names[NORMAL]
  }

  /** Printing a level and parsing it back gives the level. */
  lemma RoundTrip(e: int)
    requires IsLevel(e)
    ensures FromString(Some(ToString(e))) == e
  {
    NamesDistinct();
    IndexOfEntry(Names, e);
  }

  /** Parsing a recognised name and printing the level gives the name back. */
  lemma PrintParsed(s: string)
    requires FromString(Some(s)) != NONE
    ensures ToString(FromString(Some(s))) == s
  {
  }
}

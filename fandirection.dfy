/** Airflow direction values and their names (fandirection.c,
    include/fandirection.h). */
module FanDirection {
  import opened Tables

  const F2B: int := 0
  const B2F: int := 1

  /** The names, in enum order. */
  const Names: seq<string> := ["f2b", "b2f"]

  predicate IsDirection(d: int)
  {
    d == F2B || d == B2F
  }

  lemma NamesDistinct()
    ensures |Names| == 2 && Distinct(Names)
  {
  }

  /** fan_direction_string_to_enum: NULL and unknown names give F2B. */
  function FromString(name: Option<string>): (d: int)
    ensures IsDirection(d)
    ensures name.Some? && name.value in Names ==> Names[d] == name.value
    ensures name.None? || name.value !in Names ==> d == F2B
  {
    match name
    case None => F2B
    case Some(s) =>
      match IndexOf(Names, s)
      case Some(i) => i
      case None => F2B
  }

  /** fan_direction_enum_to_string: out-of-range values print as "f2b". */
  function ToString(d: int): (s: string)
    ensures s in Names
    ensures IsDirection(d) ==> s == Names[d]
    ensures !IsDirection(d) ==> s == Names[F2B]
  {
    if 0 <= d < |Names| then Names[d] else Names[F2B]
  }

  /** Printing a direction and parsing it back gives the direction. */
  lemma RoundTrip(d: int)
    requires IsDirection(d)
    ensures FromString(Some(ToString(d))) == d
  {
    NamesDistinct();
    IndexOfEntry(Names, d);
  }
}

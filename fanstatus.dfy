/** Fan status values and their names (src/fanstatus.c, include/fanstatus.h). */
module FanStatus {
  import opened Tables

  const UNINITIALIZED: int := 0
  const OK: int := 1
  const FAULT: int := 2

  /** The names, in enum order. */
  const Names: seq<string> := ["uninitialized", "ok", "fault"]

  predicate IsStatus(s: int)
  {
    UNINITIALIZED <= s <= FAULT
  }

  lemma NamesDistinct()
    ensures |Names| == 3 && Distinct(Names)
  {
  }

  /** fan_status_string_to_enum: NULL and unknown names give UNINITIALIZED. */
  function FromString(name: Option<string>): (e: int)
    ensures IsStatus(e)
    ensures name.Some? && name.value in Names ==> Names[e] == name.value
    ensures name.None? || name.value !in Names ==> e == UNINITIALIZED
  {
    match name
    case None => UNINITIALIZED
    case Some(s) =>
      match IndexOf(Names, s)
      case Some(i) => i
      case None => UNINITIALIZED
  }

  /** fan_status_enum_to_string. The source compares `(unsigned int)status`
      with the table size, so a negative value, which becomes a huge unsigned
      number, falls to "uninitialized" like any other out-of-range value. */
  function ToString(e: int): (s: string)
    ensures s in Names
    ensures IsStatus(e) ==> s == Names[e]
    ensures !IsStatus(e) ==> s == Names[UNINITIALIZED]
  {
    if 0 <= e < |Names| then Names[e] else Names[UNINITIALIZED]
  }

  /** Printing a status and parsing it back gives the status. */
  lemma RoundTrip(e: int)
    requires IsStatus(e)
    ensures FromString(Some(ToString(e))) == e
  {
    NamesDistinct();
    IndexOfEntry(Names, e);
  }
}

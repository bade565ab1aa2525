/** Shared helpers for the daemon's constant string tables: an Option type
    standing for a possibly-NULL C pointer, and the linear table search
    that every string-to-enum conversion performs. */
module Tables {

  /** A C pointer that may be NULL. */
  datatype Option<+T> = None | Some(value: T)

  /** The entries of a table are pairwise different. */
  ghost predicate Distinct(table: seq<string>)
  {
    forall i, j :: 0 <= i < j < |table| ==> table[i] != table[j]
  }

  /** Linear search from position `i`, returning the first matching index,
      as the `for` loop with early `return(i)` does. */
  function Search(table: seq<string>, name: string, i: nat): (r: Option<nat>)
    requires i <= |table|
    ensures r.Some? ==> i <= r.value < |table| && table[r.value] == name
    ensures r.Some? ==> forall j :: i <= j < r.value ==> table[j] != name
    ensures r.None? <==> forall j :: i <= j < |table| ==> table[j] != name
    decreases |table| - i
  {
    if i == |table| then None
    else if table[i] == name then Some(i)
    else Search(table, name, i + 1)
  }

  /** Search of a whole table. */
  function IndexOf(table: seq<string>, name: string): (r: Option<nat>)
    ensures r.Some? ==> r.value < |table| && table[r.value] == name
    ensures r.Some? ==> forall j :: 0 <= j < r.value ==> table[j] != name
    ensures r.None? <==> name !in table
  {
    Search(table, name, 0)
  }

  /** In a table without repetitions, looking up entry `k` finds `k`. */
  lemma IndexOfEntry(table: seq<string>, k: nat)
    requires Distinct(table) && k < |table|
    ensures IndexOf(table, table[k]) == Some(k)
  {
  }

  /** Updating the right operand of a map union updates the union. */
  lemma UnionUpdate<K, V>(a: map<K, V>, b: map<K, V>, k: K, v: V)
    ensures (a + b)[k := v] == a + b[k := v]
  {
  }
}

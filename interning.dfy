/**
 * Find-or-append interning of strings in an ordered table: the rule shared by
 * the process-wide BrushingTarget table and by the category table of a
 * categorical column (a string already present keeps its slot; a new one is
 * appended at the end).
 */
module Interning {
  import opened Wrappers

  /** No string occurs twice in the table. */
  predicate NoDuplicates(table: seq<string>) {
    forall i, j :: 0 <= i < j < |table| ==> table[i] != table[j]
  }

  /** The slot of the first entry equal to `s`, if any. */
  function Find(table: seq<string>, s: string): (r: Option<nat>)
    ensures r.None? <==> s !in table
    ensures r.Some? ==> r.value < |table| && table[r.value] == s
    ensures r.Some? ==> forall j :: 0 <= j < r.value ==> table[j] != s
  {
    if table == [] then None
    else if table[0] == s then Some(0)
    else match Find(table[1..], s)
      case None => None
      case Some(i) => Some(i + 1)
  }

  /**
   * The table after interning `s`, and the slot that now holds `s`.
   */
  function Intern(table: seq<string>, s: string): (r: (seq<string>, nat))
    ensures r.1 < |r.0| && r.0[r.1] == s
    ensures s in table ==> r.0 == table
    ensures s !in table ==> r.0 == table + [s] && r.1 == |table|
    ensures forall j :: 0 <= j < r.1 ==> r.0[j] != s
  {
    match Find(table, s)
    case Some(i) => (table, i)
    case None => (table + [s], |table|)
  }

  /** Interning never introduces a duplicate entry. */
  lemma InternKeepsNoDuplicates(table: seq<string>, s: string)
    requires NoDuplicates(table)
    ensures NoDuplicates(Intern(table, s).0)
  {
  }

  /** Interning the same string a second time changes nothing and returns the same slot. */
  lemma InternIdempotent(table: seq<string>, s: string)
    ensures Intern(Intern(table, s).0, s) == Intern(table, s)
  {
  }

  /**
   * Entries already in the table keep their contents and their slots: after
   * interning `s`, every earlier string is still found where it was.
   */
  lemma InternPreservesSlots(table: seq<string>, s: string, other: string)
    requires other in table
    ensures Intern(Intern(table, s).0, other).1 == Intern(table, other).1
    ensures Intern(table, s).0[..|table|] == table
  {
  }
}

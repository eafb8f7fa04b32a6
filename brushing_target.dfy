/**
 * BrushingTarget: a routing key for brushing state ("row", "column", ...)
 * whose string is interned in one process-wide table, so that equal strings
 * share one stored entry.
 */
module BrushingTargets {
  import opened Interning

  const RowName: string := "row"
  const ColumnName: string := "column"

  /**
   * A target: its string, read from the table, and the slot of the table
   * entry it refers to (the identity of the stored string).
   */
  datatype BrushingTarget = BrushingTarget(name: string, slot: nat)

  /** The process-wide table of interned target strings. */
  class TargetTable {
    var targets: seq<string>

    ghost predicate Valid()
      reads this
    {
      NoDuplicates(targets)
    }

    constructor ()
      ensures Valid() && targets == []
    {
      targets := [];
    }

    /**
     * Returns the stored copy of `target`, appending it first when no entry
     * equals it. Existing entries are never altered.
     */
    method FindOrAdd(target: string) returns (stored: string, slot: nat)
      requires Valid()
      modifies this
      ensures Valid()
      ensures (targets, slot) == Intern(old(targets), target)
      ensures slot < |targets| && stored == targets[slot] && stored == target
      ensures |targets| <= |old(targets)| + 1 && targets[..|old(targets)|] == old(targets)
    {
      var i := 0;
      while i < |targets|
        invariant 0 <= i <= |targets|
        invariant forall j :: 0 <= j < i ==> targets[j] != target
      {
        if targets[i] == target {
          return targets[i], i;
        }
        i := i + 1;
      }
      targets := targets + [target];
      stored, slot := targets[|targets| - 1], |targets| - 1;
    }

    /** The BrushingTarget constructor: interns its string. */
    method MakeTarget(name: string) returns (t: BrushingTarget)
      requires Valid()
      modifies this
      ensures Valid()
      ensures t.name == name && t.slot < |targets| && targets[t.slot] == name
      ensures targets == Intern(old(targets), name).0
    {
      var stored, slot := FindOrAdd(name);
      t := BrushingTarget(stored, slot);
    }

    /**
     * The two predefined targets, `Row` and `Column`, built in this order;
     * they refer to different entries.
     */
    method Predefined() returns (row: BrushingTarget, column: BrushingTarget)
      requires Valid()
      modifies this
      ensures Valid()
      ensures row.name == "row" && column.name == "column"
      ensures row.slot != column.slot
      ensures targets == Intern(Intern(old(targets), RowName).0, ColumnName).0
      ensures row.slot < |targets| && targets[row.slot] == "row"
      ensures column.slot < |targets| && targets[column.slot] == "column"
      ensures |old(targets)| <= |targets| <= |old(targets)| + 2 && targets[..|old(targets)|] == old(targets)
    {
      row := MakeTarget(RowName);
      column := MakeTarget(ColumnName);
    }
  }

  /**
   * Interning twice in a row: the second call returns the same entry and
   * leaves the table as the first call left it.
   */
  method FindOrAddTwice(table: TargetTable, target: string) returns (first: nat, second: nat)
    requires table.Valid()
    modifies table
    ensures table.Valid()
    ensures first == second
    ensures table.targets == Intern(old(table.targets), target).0
  {
    var s1, s2;
    s1, first := table.FindOrAdd(target);
    s2, second := table.FindOrAdd(target);
    InternIdempotent(old(table.targets), target);
  }
}

/**
 * How the scatter plot translates between physical rows of its table and the
 * stable row identities exchanged with other views through brushing and
 * linking. Identities are read from the table's index column; the sets the
 * plot exchanges hold 32-bit values, so a 64-bit index value is truncated to
 * its low 32 bits when it becomes an identity.
 */
module ScatterPlotBrushing {

  /** Identities, and the row numbers stored beside them, are 32-bit values. */
  const IdLimit: nat := 0x1_0000_0000

  /** The identity of an index-column value: its low 32 bits. */
  function ToId(v: nat): (id: nat)
    ensures id < IdLimit && (v < IdLimit ==> id == v)
  {
    v % IdLimit
  }

  /** The identities of a set of rows, read from the index column. */
  function RowsToIds(indexCol: seq<nat>, rows: set<nat>): set<nat>
    requires forall r :: r in rows ==> r < |indexCol|
  {
    set r | r in rows :: ToId(indexCol[r])
  }

  /** The rows whose flag is set. */
  function FlaggedRows(flags: seq<bool>): set<nat> {
    set i: nat | i < |flags| && flags[i]
  }

  /** No two rows of the index column share an identity. */
  predicate DistinctIds(indexCol: seq<nat>) {
    forall i, j :: 0 <= i < j < |indexCol| ==> ToId(indexCol[i]) != ToId(indexCol[j])
  }

  /** No earlier row has the same identity as row `r`. */
  predicate IsFirstOccurrence(indexCol: seq<nat>, r: nat)
    requires r < |indexCol|
  {
    forall j :: 0 <= j < r ==> ToId(indexCol[j]) != ToId(indexCol[r])
  }

  /**
   * `m` maps every identity in the index column, and nothing else, to the
   * first row where it occurs.
   */
  ghost predicate IsFirstRowMap(indexCol: seq<nat>, m: map<nat, nat>) {
    && (forall id :: id in m ==> m[id] < |indexCol| && ToId(indexCol[m[id]]) == id && IsFirstOccurrence(indexCol, m[id]))
    && (forall r :: 0 <= r < |indexCol| ==> ToId(indexCol[r]) in m)
  }

  /** The rows that the identities in `ids` map to; identities missing from `m` contribute nothing. */
  function IdsToRows(m: map<nat, nat>, ids: set<nat>): set<nat> {
    set id | id in ids && id in m :: m[id]
  }

  /** `b` with membership of every value in [lo, hi) inverted. */
  function Flipped(b: set<nat>, lo: nat, hi: nat): (r: set<nat>)
    ensures forall x: nat :: lo <= x < hi ==> (x in r <==> x !in b)
    ensures forall x: nat :: !(lo <= x < hi) ==> (x in r <==> x in b)
  {
    (set x | x in b && !(lo <= x < hi)) + (set x: nat | lo <= x < hi && x !in b)
  }

  /** The identities of the highlighted rows (the highlight callback). */
  method HighlightedIds(indexCol: seq<nat>, highlighted: set<nat>) returns (ids: set<nat>)
    requires forall r :: r in highlighted ==> r < |indexCol|
    ensures ids == RowsToIds(indexCol, highlighted)
  {
    ids := {};
    var rest := highlighted;
    while rest != {}
      invariant rest <= highlighted
      invariant ids == RowsToIds(indexCol, highlighted - rest)
      decreases |rest|
    {
      var r :| r in rest;
      assert highlighted - (rest - {r}) == (highlighted - rest) + {r};
      ids := ids + {ToId(indexCol[r])};
      rest := rest - {r};
    }
    assert highlighted - rest == highlighted;
  }

  /**
   * The identities of the rows whose flag is set: the selection callback and
   * the filter callback both publish this set.
   */
  method FlaggedIds(indexCol: seq<nat>, flags: seq<bool>) returns (ids: set<nat>)
    requires |flags| <= |indexCol|
    ensures ids == RowsToIds(indexCol, FlaggedRows(flags))
  {
    ids := {};
    for i := 0 to |flags|
      invariant ids == RowsToIds(indexCol, FlaggedRows(flags[..i]))
    {
      assert FlaggedRows(flags[..i + 1]) == FlaggedRows(flags[..i]) + (if flags[i] then {i} else {});
      if flags[i] {
        ids := ids + {ToId(indexCol[i])};
      }
    }
    assert flags[..|flags|] == flags;
  }

  /**
   * The map from identity to first row, built by inserting (identity, row)
   * for each row in order and keeping the entry already present.
   */
  method IndexToRow(indexCol: seq<nat>) returns (m: map<nat, nat>)
    requires |indexCol| <= IdLimit
    ensures IsFirstRowMap(indexCol, m)
  {
    m := map[];
    for row := 0 to |indexCol|
      invariant IsFirstRowMap(indexCol[..row], m)
    {
      FirstRowMapStep(indexCol, m, row);
      var id := ToId(indexCol[row]);
      if id !in m {
        m := m[id := row];
      }
    }
    assert indexCol[..|indexCol|] == indexCol;
  }

  /**
   * Inserting row `row` under its identity, unless the identity is already
   * mapped, extends the first-row map of the rows before it to one more row.
   */
  lemma FirstRowMapStep(indexCol: seq<nat>, m: map<nat, nat>, row: nat)
    requires row < |indexCol| && IsFirstRowMap(indexCol[..row], m)
    ensures var id := ToId(indexCol[row]);
            IsFirstRowMap(indexCol[..row + 1], if id in m then m else m[id := row])
  {
    var prefix, before := indexCol[..row + 1], indexCol[..row];
    var id := ToId(indexCol[row]);
    var next := if id in m then m else m[id := row];
    forall k | 0 <= k < row ensures prefix[k] == before[k] == indexCol[k] { }
    if id !in m {
      forall j | 0 <= j < row ensures ToId(prefix[j]) != id {
        assert ToId(before[j]) in m;
      }
    }
  }

  /** The rows of the identities in `ids`, skipping identities not in the map. */
  method TransformIdsToRows(m: map<nat, nat>, ids: set<nat>) returns (rows: set<nat>)
    ensures rows == IdsToRows(m, ids)
  {
    rows := {};
    var rest := ids;
    while rest != {}
      invariant rest <= ids
      invariant rows == IdsToRows(m, ids - rest)
      decreases |rest|
    {
      var id :| id in rest;
      assert ids - (rest - {id}) == (ids - rest) + {id};
      if id in m {
        rows := rows + {m[id]};
      }
      rest := rest - {id};
    }
    assert ids - rest == ids;
  }

  /**
   * The bit set after BitSet::flipRange: membership of every value in [lo, hi)
   * inverted one value at a time, values outside untouched. The source flips
   * its own set; here the flipped set is returned.
   */
  method FlipRange(b: set<nat>, lo: nat, hi: nat) returns (r: set<nat>)
    requires lo <= hi
    ensures r == Flipped(b, lo, hi)
  {
    r := b;
    for x := lo to hi
      invariant r == Flipped(b, lo, x)
    {
      if x in r {
        r := r - {x};
      } else {
        r := r + {x};
      }
    }
  }

  /**
   * `rows` are the rows left to draw: each is the first row of its identity,
   * and that identity either lies below `limit` and was not filtered, or lies
   * at or above `limit` and was filtered (the complement covers [0, limit) only).
   */
  ghost predicate IsRemainingRows(indexCol: seq<nat>, filtered: set<nat>, limit: nat, rows: set<nat>) {
    forall r: nat :: r in rows <==>
      r < |indexCol| && IsFirstOccurrence(indexCol, r)
      && ((ToId(indexCol[r]) in filtered) != (ToId(indexCol[r]) < limit))
  }

  /**
   * The rows left to draw: the filtered identities are complemented over
   * [0, numRows), with numRows cast to 32 bits, and translated back to rows.
   */
  method RemainingRows(indexCol: seq<nat>, filtered: set<nat>, numRows: nat) returns (rows: set<nat>)
    requires |indexCol| <= IdLimit
    ensures IsRemainingRows(indexCol, filtered, numRows % IdLimit, rows)
  {
    var m := IndexToRow(indexCol);
    var remaining := FlipRange(filtered, 0, numRows % IdLimit);
    rows := TransformIdsToRows(m, remaining);
    TranslateBack(indexCol, m, remaining);
  }

  /**
   * When every identity lies below the row count and no two rows share one
   * (as for an index column holding 0, 1, ..., n - 1), the rows drawn are
   * exactly those whose identity was not filtered.
   */
  lemma RemainingRowsAreUnfiltered(indexCol: seq<nat>, filtered: set<nat>, limit: nat, rows: set<nat>)
    requires IsRemainingRows(indexCol, filtered, limit, rows)
    requires DistinctIds(indexCol)
    requires forall r :: 0 <= r < |indexCol| ==> ToId(indexCol[r]) < limit
    ensures forall r: nat :: r in rows <==> r < |indexCol| && ToId(indexCol[r]) !in filtered
  {
  }

  /**
   * The complement over [0, numRows) misses identities at or above the row
   * count: with identities 0, 2, 5 in a three-row table and nothing filtered,
   * the row with identity 5 is not drawn.
   */
  lemma RemainingRowsMissesHighIds(rows: set<nat>)
    requires IsRemainingRows([0, 2, 5], {}, 3, rows)
    ensures rows == {0, 1}
  {
    var col: seq<nat> := [0, 2, 5];
    assert ToId(col[0]) == 0 && ToId(col[1]) == 2 && ToId(col[2]) == 5;
    assert 0 in rows && 1 in rows && 2 !in rows;
    forall r: nat | r in rows ensures r < 2 {
      assert r < 3;
    }
  }

  /**
   * The rows left to draw with the complement taken over the whole identity
   * range [0, 2^32): a row is drawn exactly when it is the first row of its
   * identity and that identity was not filtered.
   */
  method RemainingRowsOverIdRange(indexCol: seq<nat>, filtered: set<nat>) returns (rows: set<nat>)
    requires |indexCol| <= IdLimit
    ensures forall r: nat :: r in rows <==>
              r < |indexCol| && IsFirstOccurrence(indexCol, r) && ToId(indexCol[r]) !in filtered
  {
    var m := IndexToRow(indexCol);
    var remaining := FlipRange(filtered, 0, IdLimit);
    rows := TransformIdsToRows(m, remaining);
    TranslateBack(indexCol, m, remaining);
  }

  /**
   * Translating identities back through the first-row map yields exactly the
   * rows that are the first occurrence of an identity in the set.
   */
  lemma TranslateBack(indexCol: seq<nat>, m: map<nat, nat>, ids: set<nat>)
    requires IsFirstRowMap(indexCol, m)
    ensures forall r: nat :: r in IdsToRows(m, ids) <==>
              r < |indexCol| && ToId(indexCol[r]) in ids && IsFirstOccurrence(indexCol, r)
  {
    forall r: nat | r < |indexCol| && ToId(indexCol[r]) in ids && IsFirstOccurrence(indexCol, r)
      ensures r in IdsToRows(m, ids)
    {
      var id := ToId(indexCol[r]);
      assert id in m;
    }
  }

  /** The first-row map is determined by the index column. */
  lemma FirstRowMapUnique(indexCol: seq<nat>, m1: map<nat, nat>, m2: map<nat, nat>)
    requires IsFirstRowMap(indexCol, m1) && IsFirstRowMap(indexCol, m2)
    ensures m1 == m2
  {
    forall id | id in m1 ensures id in m2 && m2[id] == m1[id] {
      var r1 := m1[id];
      assert ToId(indexCol[r1]) in m2;
      var r2 := m2[id];
      if r1 < r2 {
        assert ToId(indexCol[r1]) == id;
      } else if r2 < r1 {
        assert ToId(indexCol[r2]) == id;
      }
    }
    forall id | id in m2 ensures id in m1 {
      assert ToId(indexCol[m2[id]]) in m1;
    }
  }

  /**
   * With distinct identities, publishing a set of rows and translating the
   * identities back through the same index column gives the original rows.
   */
  lemma RoundTrip(indexCol: seq<nat>, m: map<nat, nat>, rows: set<nat>)
    requires IsFirstRowMap(indexCol, m) && DistinctIds(indexCol)
    requires forall r :: r in rows ==> r < |indexCol|
    ensures IdsToRows(m, RowsToIds(indexCol, rows)) == rows
  {
    var ids := RowsToIds(indexCol, rows);
    TranslateBack(indexCol, m, ids);
    forall r: nat | r in IdsToRows(m, ids) ensures r in rows {
      var r0 :| r0 in rows && ToId(indexCol[r0]) == ToId(indexCol[r]);
      if r0 != r {
        assert false;
      }
    }
  }

  /**
   * With distinct identities, a row is translated from an identity set
   * exactly when its identity is in the set.
   */
  lemma TranslateDistinct(indexCol: seq<nat>, m: map<nat, nat>, ids: set<nat>)
    requires IsFirstRowMap(indexCol, m) && DistinctIds(indexCol)
    ensures forall r: nat :: r in IdsToRows(m, ids) <==> r < |indexCol| && ToId(indexCol[r]) in ids
  {
    TranslateBack(indexCol, m, ids);
  }

  /** Complementing twice over the same range gives back the original set. */
  lemma FlippedTwice(b: set<nat>, lo: nat, hi: nat)
    ensures Flipped(Flipped(b, lo, hi), lo, hi) == b
  {
  }

  /**
   * Two views of one table with differently ordered index columns: a view
   * whose rows carry identities 10, 20, 30 selects its second row; the other
   * view, whose rows carry 30, 20, 10, receives identity 20 and selects its
   * own second row.
   */
  lemma SelectionAcrossViews(mB: map<nat, nat>)
    requires IsFirstRowMap([30, 20, 10], mB)
    ensures RowsToIds([10, 20, 30], FlaggedRows([false, true, false])) == {20}
    ensures IdsToRows(mB, {20}) == {1}
  {
    var flags := [false, true, false];
    assert FlaggedRows(flags) == {1} by {
      forall i: nat | i in FlaggedRows(flags) ensures i == 1 {
        assert i < 3 && flags[i];
      }
      assert flags[1];
    }
    var colB: seq<nat> := [30, 20, 10];
    assert DistinctIds(colB);
    TranslateDistinct(colB, mB, {20});
    assert ToId(colB[1]) == 20;
  }
}

/**
 * The summary a DataFrame shows of itself: column and row counts, one line per
 * listed column (a preview of the categories of a categorical column, the
 * minimum and maximum of any other), a note when the column list is
 * abbreviated, and a warning when the columns disagree on the row count.
 * The document layout is not modelled; the summary keeps the values shown.
 */
module DataFrameInfo {
  import opened Wrappers
  import opened Text
  import opened DataFrames

  /** With more columns than this, the list of columns is abbreviated ... */
  const AbbreviateAbove: nat := 20
  /** ... to this many columns. */
  const AbbreviatedCount: nat := 10
  /**
   * The category preview is cut after the first category that takes it past
   * this many bytes of its UTF-8 encoding.
   */
  const PreviewLength: nat := 50

  datatype ColumnInfo =
    | CategoricalInfo(position: nat, rows: nat, header: string, preview: string)
    | ScalarInfo(position: nat, kind: ColumnKind, rows: nat, header: string, min: Option<int>, max: Option<int>)

  datatype Summary = Summary(
    numColumns: nat,
    numRows: nat,
    listed: seq<ColumnInfo>,
    additionalColumns: Option<nat>,
    inconsistentRowCount: bool)

  /** Adds one category to the preview text: a separator goes in only when the text is not empty. */
  function AppendCategory(text: string, category: string): string {
    if text == [] then category else text + ", " + category
  }

  /** The preview text after adding all of `cats` in order, without elision. */
  function Joined(cats: seq<string>): string {
    if cats == [] then [] else AppendCategory(Joined(cats[..|cats| - 1]), cats[|cats| - 1])
  }

  /** The byte length of the preview text after the first `k` categories. */
  function PrefixBytes(cats: seq<string>, k: nat): nat
    requires k <= |cats|
  {
    ByteLength(Joined(cats[..k]))
  }

  /** Adding the next category to the text of the first `i`. */
  lemma JoinedStep(cats: seq<string>, i: nat)
    requires i < |cats|
    ensures Joined(cats[..i + 1]) == AppendCategory(Joined(cats[..i]), cats[i])
  {
    assert cats[..i + 1][..i] == cats[..i];
  }

  /** The closing " [n]" that gives the number of categories. */
  function CountSuffix(n: nat): string {
    " [" + NatToString(n) + "]"
  }

  /**
   * `p` is the preview of `cats`: all categories joined when no prefix of them
   * takes more bytes than the limit; otherwise the categories up to and including the
   * first one that takes the text past the limit, followed by ", ...". Either
   * way the number of categories closes it.
   */
  ghost predicate IsPreview(p: string, cats: seq<string>) {
    && ((forall k :: 1 <= k <= |cats| ==> PrefixBytes(cats, k) <= PreviewLength)
        ==> p == Joined(cats) + CountSuffix(|cats|))
    && (forall k ::
          (1 <= k <= |cats| && PrefixBytes(cats, k) > PreviewLength
           && forall j :: 1 <= j < k ==> PrefixBytes(cats, j) <= PreviewLength)
          ==> p == Joined(cats[..k]) + ", ..." + CountSuffix(|cats|))
  }

  /** `m` is the least of `values`, or None ("-") when there are none. */
  ghost predicate IsMinimum(m: Option<int>, values: seq<int>) {
    && (m.None? <==> values == [])
    && (m.Some? ==> m.value in values && forall v :: v in values ==> m.value <= v)
  }

  /** `m` is the greatest of `values`, or None ("-") when there are none. */
  ghost predicate IsMaximum(m: Option<int>, values: seq<int>) {
    && (m.None? <==> values == [])
    && (m.Some? ==> m.value in values && forall v :: v in values ==> v <= m.value)
  }

  /** `info` is the line for column `col` at position `k`. */
  ghost predicate Describes(info: ColumnInfo, col: Column, k: nat) {
    && info.position == k + 1 && info.rows == |col.values| && info.header == col.header
    && (col.kind == Categorical ==> info.CategoricalInfo? && IsPreview(info.preview, col.categories))
    && (col.kind != Categorical ==>
          info.ScalarInfo? && info.kind == col.kind && IsMinimum(info.min, col.values) && IsMaximum(info.max, col.values))
  }

  /** Each listed line describes the column at the same position. */
  ghost predicate AllDescribed(listed: seq<ColumnInfo>, cols: seq<Column>) {
    |listed| <= |cols| && forall k :: 0 <= k < |listed| ==> Describes(listed[k], cols[k], k)
  }

  lemma AllDescribedExtend(listed: seq<ColumnInfo>, cols: seq<Column>, info: ColumnInfo)
    requires AllDescribed(listed, cols) && |listed| < |cols| && Describes(info, cols[|listed|], |listed|)
    ensures AllDescribed(listed + [info], cols)
  {
    var next := listed + [info];
    forall k | 0 <= k < |next| ensures Describes(next[k], cols[k], k) {
      if k < |listed| {
        assert next[k] == listed[k];
      }
    }
  }

  /** The preview cut after the first category that takes the text past the limit. */
  lemma ElidedIsPreview(cats: seq<string>, i: nat)
    requires 1 <= i <= |cats| && PrefixBytes(cats, i) > PreviewLength
    requires forall j :: 1 <= j < i ==> PrefixBytes(cats, j) <= PreviewLength
    ensures IsPreview(Joined(cats[..i]) + ", ..." + CountSuffix(|cats|), cats)
  {
    forall k | 1 <= k <= |cats| && PrefixBytes(cats, k) > PreviewLength
               && (forall j :: 1 <= j < k ==> PrefixBytes(cats, j) <= PreviewLength)
      ensures k == i
    {
    }
  }

  /** The preview of categories no prefix of which is longer than the limit. */
  lemma CompleteIsPreview(cats: seq<string>)
    requires forall k :: 1 <= k <= |cats| ==> PrefixBytes(cats, k) <= PreviewLength
    ensures IsPreview(Joined(cats) + CountSuffix(|cats|), cats)
  {
  }

  /**
   * The limit counts bytes, not characters: a single category of 30 'é'
   * (two bytes each) is already past it and is elided.
   */
  lemma AccentedCategoryIsElided(p: string)
    requires IsPreview(p, [seq(30, _ => '\U{00E9}')])
    ensures p == seq(30, _ => '\U{00E9}') + ", ..." + CountSuffix(1)
  {
    var cats := [seq(30, _ => '\U{00E9}')];
    ByteLengthRepeat('\U{00E9}', 30);
    assert cats[..1] == cats;
    assert Joined(cats[..1]) == cats[0];
  }

  /** Builds the category preview, stopping after the category that takes it past the limit. */
  method CategoryPreview(cats: seq<string>) returns (p: string)
    ensures IsPreview(p, cats)
  {
    var text: string := [];
    var i := 0;
    var elided := false;
    while i < |cats|
      invariant 0 <= i <= |cats|
      invariant text == Joined(cats[..i])
      invariant forall k :: 1 <= k <= i ==> PrefixBytes(cats, k) <= PreviewLength
    {
      ghost var before := text;
      if text != [] {
        text := text + ", ";
      }
      text := text + cats[i];
      assert text == AppendCategory(before, cats[i]);
      JoinedStep(cats, i);
      i := i + 1;
      assert ByteLength(text) == PrefixBytes(cats, i);
      if ByteLength(text) > PreviewLength {
        ElidedIsPreview(cats, i);
        text := text + ", ...";
        elided := true;
        break;
      }
    }
    if !elided {
      assert cats[..i] == cats;
      CompleteIsPreview(cats);
    }
    p := text + CountSuffix(|cats|);
  }

  /** The least and greatest value, or None for both when there are no values. */
  method MinMax(values: seq<int>) returns (lo: Option<int>, hi: Option<int>)
    ensures IsMinimum(lo, values) && IsMaximum(hi, values)
  {
    if values == [] {
      return None, None;
    }
    var a, b := values[0], values[0];
    for i := 1 to |values|
      invariant a in values[..i] && b in values[..i]
      invariant forall k :: 0 <= k < i ==> a <= values[k] <= b
    {
      if values[i] < a {
        a := values[i];
      }
      if values[i] > b {
        b := values[i];
      }
    }
    assert values[..|values|] == values;
    lo, hi := Some(a), Some(b);
  }

  /** The line for the column at position `k`. */
  method DescribeColumn(col: Column, k: nat) returns (info: ColumnInfo)
    ensures Describes(info, col, k)
  {
    if col.kind == Categorical {
      var preview := CategoryPreview(col.categories);
      info := CategoricalInfo(k + 1, |col.values|, col.header, preview);
    } else {
      var lo, hi := MinMax(col.values);
      info := ScalarInfo(k + 1, col.kind, |col.values|, col.header, lo, hi);
    }
  }

  /** The summary of a frame. */
  method Info(df: DataFrame) returns (s: Summary)
    ensures s.numColumns == |df.columns| && s.numRows == RowCount(df.columns)
    ensures |df.columns| <= AbbreviateAbove ==> |s.listed| == |df.columns| && s.additionalColumns == None
    ensures |df.columns| > AbbreviateAbove ==>
              |s.listed| == AbbreviatedCount && s.additionalColumns == Some(|df.columns| - AbbreviatedCount)
    ensures s.inconsistentRowCount <==>
              exists k :: 0 <= k < |s.listed| && |df.columns[k].values| != RowCount(df.columns)
    ensures AllDescribed(s.listed, df.columns)
  {
    var cols := df.columns;
    var rowCount := RowCount(cols);
    var ncols := if |cols| > AbbreviateAbove then AbbreviatedCount else |cols|;
    var inconsistent := false;
    var listed: seq<ColumnInfo> := [];
    for i := 0 to ncols
      invariant |listed| == i
      invariant inconsistent <==> exists k :: 0 <= k < i && |cols[k].values| != rowCount
      invariant AllDescribed(listed, cols)
    {
      inconsistent := inconsistent || |cols[i].values| != rowCount;
      var info := DescribeColumn(cols[i], i);
      AllDescribedExtend(listed, cols, info);
      listed := listed + [info];
    }
    var additional := if ncols != |cols| then Some(|cols| - ncols) else None;
    s := Summary(|cols|, rowCount, listed, additional, inconsistent);
  }

  /**
   * A frame whose columns all hold the same number of values reports no
   * inconsistency: its row count is that number.
   */
  lemma UniformFrameRowCount(cols: seq<Column>, n: nat)
    requires cols != [] && AllOfLength(cols, n)
    ensures RowCount(cols) == n
    ensures forall k :: 0 <= k < |cols| ==> |cols[k].values| == RowCount(cols)
  {
  }
}

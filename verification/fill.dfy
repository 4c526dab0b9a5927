/** The two-pass gap fill of `drop_all_except`: pandas `ffill()` followed by
    `bfill()` on one column, where a missing cell is `None`. */
module Fill {
  import opened Wrappers

  type Column<V> = seq<Option<V>>

  /** Reference meaning of a forward fill at row `i`: the value of the last
      present cell at or before `i`, or `None` when rows `0..i` are all missing. */
  function LastSeen<V>(col: Column<V>, i: nat): (r: Option<V>)
    requires i < |col|
  {
    if col[i].Some? then col[i] else if i == 0 then None else LastSeen(col, i - 1)
  }

  /** Reference meaning of a backward fill at row `i`: the value of the first
      present cell at or after `i`, or `None` when rows `i..` are all missing. */
  function NextSeen<V>(col: Column<V>, i: nat): (r: Option<V>)
    requires i < |col|
    decreases |col| - i
  {
    if col[i].Some? then col[i] else if i + 1 == |col| then None else NextSeen(col, i + 1)
  }

  /** Forward fill: a left-to-right pass that carries the last value seen. */
  function FFill<V>(col: Column<V>): (r: Column<V>)
    ensures |r| == |col|
    ensures forall i :: 0 <= i < |col| ==> r[i] == LastSeen(col, i)
  {
    if |col| == 0 then []
    else
      var front := FFill(col[..|col| - 1]);
      LastSeenOfPrefix(col, |col| - 1);
      front + [col[|col| - 1].OrElse(if |front| == 0 then None else front[|front| - 1])]
  }

  /** Backward fill: a right-to-left pass that carries the next value seen. */
  function BFill<V>(col: Column<V>): (r: Column<V>)
    ensures |r| == |col|
    ensures forall i :: 0 <= i < |col| ==> r[i] == NextSeen(col, i)
  {
    if |col| == 0 then []
    else
      var back := BFill(col[1..]);
      NextSeenOfSuffix(col);
      [col[0].OrElse(if |back| == 0 then None else back[0])] + back
  }

  /** `col.ffill().bfill()`, in the order the code runs them: each row takes
      the nearest earlier value, else the nearest later one, else stays missing. */
  function FillGaps<V>(col: Column<V>): (r: Column<V>)
    ensures |r| == |col|
    ensures forall i :: 0 <= i < |col| ==> r[i] == LastSeen(col, i).OrElse(NextSeen(col, i))
  {
    var r := BFill(FFill(col));
    BothPasses(col);
    r
  }

  lemma {:induction false} LastSeenOfPrefix<V>(col: Column<V>, k: nat)
    requires k <= |col|
    ensures forall i :: 0 <= i < k ==> LastSeen(col[..k], i) == LastSeen(col, i)
  {
    forall i | 0 <= i < k
      ensures LastSeen(col[..k], i) == LastSeen(col, i)
    {
      LastSeenOfPrefixAt(col, k, i);
    }
  }

  lemma {:induction false} LastSeenOfPrefixAt<V>(col: Column<V>, k: nat, i: nat)
    requires i < k <= |col|
    ensures LastSeen(col[..k], i) == LastSeen(col, i)
    decreases i
  {
    if col[i].None? && i > 0 {
      LastSeenOfPrefixAt(col, k, i - 1);
    }
  }

  lemma {:induction false} NextSeenOfSuffix<V>(col: Column<V>)
    requires |col| > 0
    ensures forall i :: 1 <= i < |col| ==> NextSeen(col[1..], i - 1) == NextSeen(col, i)
  {
    forall i | 1 <= i < |col|
      ensures NextSeen(col[1..], i - 1) == NextSeen(col, i)
    {
      NextSeenOfSuffixAt(col, i);
    }
  }

  lemma {:induction false} NextSeenOfSuffixAt<V>(col: Column<V>, i: nat)
    requires 1 <= i < |col|
    ensures NextSeen(col[1..], i - 1) == NextSeen(col, i)
    decreases |col| - i
  {
    if col[i].None? && i + 1 < |col| {
      NextSeenOfSuffixAt(col, i + 1);
    }
  }

  /** `LastSeen` finds a value exactly when some cell at or before `i` holds one. */
  lemma {:induction false} LastSeenPresent<V>(col: Column<V>, i: nat)
    requires i < |col|
    ensures LastSeen(col, i).Some? <==> exists j :: 0 <= j <= i && col[j].Some?
    decreases i
  {
    if col[i].None? && i > 0 {
      LastSeenPresent(col, i - 1);
      if LastSeen(col, i).Some? {
        var j :| 0 <= j <= i - 1 && col[j].Some?;
        assert 0 <= j <= i && col[j].Some?;
      }
    }
  }

  /** `NextSeen` finds a value exactly when some cell at or after `i` holds one. */
  lemma {:induction false} NextSeenPresent<V>(col: Column<V>, i: nat)
    requires i < |col|
    ensures NextSeen(col, i).Some? <==> exists j :: i <= j < |col| && col[j].Some?
    decreases |col| - i
  {
    if col[i].None? && i + 1 < |col| {
      NextSeenPresent(col, i + 1);
      if NextSeen(col, i).Some? {
        var j :| i + 1 <= j < |col| && col[j].Some?;
        assert i <= j < |col| && col[j].Some?;
      }
    }
  }

  /** `LastSeen` takes the nearest earlier value: the present cell `j <= i`
      with only missing cells after it up to `i`. */
  lemma {:induction false} LastSeenIsNearest<V>(col: Column<V>, i: nat, j: nat)
    requires j <= i < |col| && col[j].Some?
    requires forall k :: j < k <= i ==> col[k].None?
    ensures LastSeen(col, i) == col[j]
    decreases i
  {
    if i > j {
      LastSeenIsNearest(col, i - 1, j);
    }
  }

  /** `NextSeen` takes the nearest later value. */
  lemma {:induction false} NextSeenIsNearest<V>(col: Column<V>, i: nat, j: nat)
    requires i <= j < |col| && col[j].Some?
    requires forall k :: i <= k < j ==> col[k].None?
    ensures NextSeen(col, i) == col[j]
    decreases j - i
  {
    if i < j {
      NextSeenIsNearest(col, i + 1, j);
    }
  }

  /** Where nothing earlier is present, the forward-filled column still has
      the same next value as the original one. */
  lemma {:induction false} NextSeenAfterFFill<V>(col: Column<V>, i: nat)
    requires i < |col| && LastSeen(col, i).None?
    ensures NextSeen(FFill(col), i) == NextSeen(col, i)
    decreases |col| - i
  {
    var f := FFill(col);
    assert f[i] == None;
    if i + 1 < |col| {
      if col[i + 1].None? {
        NextSeenAfterFFill(col, i + 1);
      }
    }
  }

  /** The backward pass sees the forward-filled column: where the forward
      pass found nothing, the next value is still the original one. */
  lemma {:induction false} BothPassesAt<V>(col: Column<V>, i: nat)
    requires i < |col|
    ensures |BFill(FFill(col))| == |col|
    ensures BFill(FFill(col))[i] == LastSeen(col, i).OrElse(NextSeen(col, i))
  {
    if LastSeen(col, i).None? {
      NextSeenAfterFFill(col, i);
    }
  }

  lemma {:induction false} BothPasses<V>(col: Column<V>)
    ensures |BFill(FFill(col))| == |col|
    ensures forall i :: 0 <= i < |col| ==> BFill(FFill(col))[i] == LastSeen(col, i).OrElse(NextSeen(col, i))
  {
    forall i | 0 <= i < |col|
      ensures BFill(FFill(col))[i] == LastSeen(col, i).OrElse(NextSeen(col, i))
    {
      BothPassesAt(col, i);
    }
  }

  /** A present cell is never changed by the fill. */
  lemma {:induction false} FillKeepsValues<V>(col: Column<V>)
    ensures |FillGaps(col)| == |col|
    ensures forall i :: 0 <= i < |col| && col[i].Some? ==> FillGaps(col)[i] == col[i]
  {
  }

  /** A gap with a present cell before it takes the nearest earlier value,
      also in the interior of the column (forward fill runs first). */
  lemma {:induction false} FillTakesEarlier<V>(col: Column<V>, i: nat, j: nat)
    requires j < i < |col| && col[j].Some?
    requires forall k :: j < k <= i ==> col[k].None?
    ensures FillGaps(col)[i] == col[j]
  {
    LastSeenIsNearest(col, i, j);
  }

  /** A leading gap takes the first present value of the column. */
  lemma {:induction false} FillTakesFirstLater<V>(col: Column<V>, i: nat, j: nat)
    requires i < j < |col| && col[j].Some?
    requires forall k :: 0 <= k < j ==> col[k].None?
    ensures FillGaps(col)[i] == col[j]
  {
    LastSeenPresent(col, i);
    NextSeenIsNearest(col, i, j);
  }

  /** One present cell anywhere is enough to leave no gap at all. */
  lemma {:induction false} FillLeavesNoGap<V>(col: Column<V>)
    requires exists j :: 0 <= j < |col| && col[j].Some?
    ensures |FillGaps(col)| == |col|
    ensures forall i :: 0 <= i < |col| ==> FillGaps(col)[i].Some?
  {
    var j :| 0 <= j < |col| && col[j].Some?;
    forall i | 0 <= i < |col|
      ensures FillGaps(col)[i].Some?
    {
      if j <= i {
        LastSeenPresent(col, i);
      } else {
        NextSeenPresent(col, i);
      }
    }
  }

  /** An all-missing column, the empty one included, comes back unchanged. */
  lemma {:induction false} FillKeepsAllMissing<V>(col: Column<V>)
    requires forall j :: 0 <= j < |col| ==> col[j].None?
    ensures FillGaps(col) == col
  {
    forall i | 0 <= i < |col|
      ensures FillGaps(col)[i] == col[i]
    {
      LastSeenPresent(col, i);
      NextSeenPresent(col, i);
    }
  }

  /** What a fill promises about `g` as the fill of `col`: the same length,
      every present cell unchanged, no gap left when there was a value to fill
      with, and an all-missing column left exactly as it was. */
  ghost predicate FilledFrom<V>(col: Column<V>, g: Column<V>)
  {
    && |g| == |col|
    && (forall i :: 0 <= i < |col| && col[i].Some? ==> g[i] == col[i])
    && ((exists i :: 0 <= i < |col| && col[i].Some?) ==> forall i :: 0 <= i < |g| ==> g[i].Some?)
    && ((forall i :: 0 <= i < |col| ==> col[i].None?) ==> g == col)
  }

  lemma {:induction false} FillGapsFills<V>(col: Column<V>)
    ensures FilledFrom(col, FillGaps(col))
  {
    FillKeepsValues(col);
    if exists i :: 0 <= i < |col| && col[i].Some? {
      FillLeavesNoGap(col);
    } else {
      FillKeepsAllMissing(col);
    }
  }

  /** Filling an already filled column changes nothing. */
  lemma {:induction false} FillIdempotent<V>(col: Column<V>)
    ensures FillGaps(FillGaps(col)) == FillGaps(col)
  {
    var g := FillGaps(col);
    if exists j :: 0 <= j < |col| && col[j].Some? {
      FillLeavesNoGap(col);
      FillKeepsValues(g);
    } else {
      FillKeepsAllMissing(col);
    }
  }

  /** The order matters: on `[1, _, 3]` the code's forward-first fill gives
      `[1, 1, 3]`, whereas backward first would give `[1, 3, 3]`. */
  lemma FillOrderMatters()
    ensures FillGaps([Some(1.0), None, Some(3.0)]) == [Some(1.0), Some(1.0), Some(3.0)]
    ensures FFill(BFill([Some(1.0), None, Some(3.0)])) == [Some(1.0), Some(3.0), Some(3.0)]
  {
  }
}

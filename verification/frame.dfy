/** A pandas DataFrame reduced to what `drop_all_except` touches: an index
    (not a column), column names, and one cell sequence per column. */
module Frames {
  import opened Fill
  import opened Collections

  datatype Frame<I, V> = Frame(index: seq<I>, names: seq<string>, columns: seq<Column<V>>) {

    /** One cell sequence per name, each as long as the index. */
    predicate Valid() {
      && |names| == |columns|
      && forall j :: 0 <= j < |columns| ==> |columns[j]| == |index|
    }
  }

  /** What `drop_all_except` leaves behind: the caller's frame after the
      in-place drop, and the filled frame it returns. */
  datatype Reduced<I, V> = Reduced(inPlace: Frame<I, V>, returned: Frame<I, V>)

  /** The positions of the columns named `keep`, in column order. */
  function Positions(names: seq<string>, keep: string): (ps: seq<nat>)
    ensures forall j :: 0 <= j < |ps| ==> ps[j] < |names| && names[ps[j]] == keep
    ensures forall i :: 0 <= i < |names| && names[i] == keep ==> i in ps
    ensures forall j, k :: 0 <= j < k < |ps| ==> ps[j] < ps[k]
  {
    if |names| == 0 then []
    else
      var ps := Positions(names[..|names| - 1], keep);
      if names[|names| - 1] == keep then ps + [|names| - 1] else ps
  }

  /** No name is absent exactly when there is no position. */
  lemma PositionsEmpty(names: seq<string>, keep: string)
    ensures |Positions(names, keep)| == 0 <==> keep !in names
  {
  }

  /** With unique names, a present `keep` has exactly one position. */
  lemma {:induction false} PositionsUnique(names: seq<string>, keep: string, i: nat)
    requires Distinct(names)
    requires i < |names| && names[i] == keep
    ensures Positions(names, keep) == [i]
  {
    var n := |names| - 1;
    var front := names[..n];
    if i == n {
      assert keep !in front;
      PositionsEmpty(front, keep);
    } else {
      assert names[n] != names[i];
      PositionsUnique(front, keep, i);
    }
  }

  /** The in-place part of `drop_all_except`: drop every column whose name
      differs from `keep`. */
  function DropOthers<I, V>(f: Frame<I, V>, keep: string): (g: Frame<I, V>)
    requires f.Valid()
    decreases |f.names|
    ensures g.Valid() && g.index == f.index
    ensures |g.names| == |Positions(f.names, keep)|
    ensures forall j :: 0 <= j < |g.names| ==> g.names[j] == keep
    ensures forall j :: 0 <= j < |g.columns| ==> g.columns[j] == f.columns[Positions(f.names, keep)[j]]
  {
    if |f.names| == 0 then f
    else
      var n := |f.names| - 1;
      var front := DropOthers(Frame(f.index, f.names[..n], f.columns[..n]), keep);
      if f.names[n] == keep
      then Frame(f.index, front.names + [keep], front.columns + [f.columns[n]])
      else front
  }

  /** `df.ffill().bfill()` on every column. */
  function FillAll<I, V>(f: Frame<I, V>): (g: Frame<I, V>)
    requires f.Valid()
    ensures g.Valid() && g.index == f.index && g.names == f.names
    ensures forall j :: 0 <= j < |g.columns| ==> g.columns[j] == FillGaps(f.columns[j])
  {
    Frame(f.index, f.names, seq(|f.columns|, j requires 0 <= j < |f.columns| => FillGaps(f.columns[j])))
  }

  /** `drop_all_except(df, keep_column)`: the drop is done in place on the
      caller's frame; the fill only reaches the returned frame. */
  function DropAllExcept<I, V>(f: Frame<I, V>, keep: string): (r: Reduced<I, V>)
    requires f.Valid()
    ensures r.inPlace.Valid() && r.returned.Valid()
    ensures r.inPlace.index == f.index && r.returned.index == f.index
    ensures forall j :: 0 <= j < |r.inPlace.names| ==> r.inPlace.names[j] == keep
    ensures |r.inPlace.names| == 0 <==> keep !in f.names
    ensures |r.inPlace.names| == |Positions(f.names, keep)|
    ensures forall j :: 0 <= j < |r.inPlace.columns| ==> r.inPlace.columns[j] == f.columns[Positions(f.names, keep)[j]]
    ensures r.returned.names == r.inPlace.names
    ensures forall j :: 0 <= j < |r.returned.columns| ==> r.returned.columns[j] == FillGaps(r.inPlace.columns[j])
    ensures forall j :: 0 <= j < |r.inPlace.columns| ==> FilledFrom(r.inPlace.columns[j], r.returned.columns[j])
  {
    var kept := DropOthers(f, keep);
    PositionsEmpty(f.names, keep);
    var filled := FillAll(kept);
    forall j | 0 <= j < |kept.columns|
      ensures FilledFrom(kept.columns[j], filled.columns[j])
    {
      FillGapsFills(kept.columns[j]);
    }
    Reduced(kept, filled)
  }

  /** With unique column names, keeping a present column leaves exactly that
      column, unchanged in place and filled in the returned frame. */
  lemma DropAllExceptUnique<I, V>(f: Frame<I, V>, keep: string, i: nat)
    requires f.Valid()
    requires Distinct(f.names)
    requires i < |f.names| && f.names[i] == keep
    ensures DropAllExcept(f, keep).inPlace == Frame(f.index, [keep], [f.columns[i]])
    ensures DropAllExcept(f, keep).returned == Frame(f.index, [keep], [FillGaps(f.columns[i])])
  {
    PositionsUnique(f.names, keep, i);
  }

  /** Keeping a column that is not there drops every column. */
  lemma DropAllExceptAbsent<I, V>(f: Frame<I, V>, keep: string)
    requires f.Valid() && keep !in f.names
    ensures DropAllExcept(f, keep).inPlace == Frame(f.index, [], [])
    ensures DropAllExcept(f, keep).returned == Frame(f.index, [], [])
  {
  }

  /** Reducing an already reduced frame changes nothing. */
  lemma DropAllExceptIdempotent<I, V>(f: Frame<I, V>, keep: string)
    requires f.Valid()
    ensures DropAllExcept(DropAllExcept(f, keep).returned, keep).returned == DropAllExcept(f, keep).returned
  {
    var kept := DropOthers(f, keep);
    var g := FillAll(kept);
    assert DropAllExcept(f, keep).returned == g;
    PositionsAll(g.names, keep);
    var kept' := DropOthers(g, keep);
    assert kept'.names == g.names;
    assert kept'.columns == g.columns;
    var h := FillAll(kept');
    assert DropAllExcept(g, keep).returned == h;
    forall j | 0 <= j < |g.columns|
      ensures h.columns[j] == g.columns[j]
    {
      FillIdempotent(kept.columns[j]);
    }
  }

  /** When every name is `keep`, every column is kept, in place. */
  lemma {:induction false} PositionsAll(names: seq<string>, keep: string)
    requires forall j :: 0 <= j < |names| ==> names[j] == keep
    ensures |Positions(names, keep)| == |names|
    ensures forall j :: 0 <= j < |names| ==> Positions(names, keep)[j] == j
  {
    if |names| > 0 {
      PositionsAll(names[..|names| - 1], keep);
    }
  }

  /** Renaming to a fresh name and back restores the frame. */
  lemma RenameBack<I, V>(f: Frame<I, V>, from: string, to: string)
    requires f.Valid() && to !in f.names
    ensures Rename(Rename(f, from, to), to, from) == f
  {
    assert Rename(Rename(f, from, to), to, from).names == f.names;
  }

  /** `df.rename(columns={from: to})`: relabel without touching any cell. */
  function Rename<I, V>(f: Frame<I, V>, from: string, to: string): (g: Frame<I, V>)
    requires f.Valid()
    ensures g.Valid() && g.index == f.index && g.columns == f.columns
    ensures |g.names| == |f.names|
    ensures forall j :: 0 <= j < |f.names| ==> g.names[j] == if f.names[j] == from then to else f.names[j]
  {
    Frame(f.index, seq(|f.names|, j requires 0 <= j < |f.names| => if f.names[j] == from then to else f.names[j]), f.columns)
  }
}

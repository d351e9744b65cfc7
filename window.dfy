/** The state of a selection list as a value, and the effect of each operation on
    it. The class in module Lists is proved to follow these functions. */
module SelectionWindow {
  import opened Wrappers
  import opened Sequences

  /** `above` is listed top to bottom, so its last element is nearest the cursor;
      `below` is listed top to bottom too, so its first element is nearest the cursor. */
  datatype Window<T> = Window(above: seq<T>, selected: Option<T>, below: seq<T>)

  /** The state a new list starts in: nothing shown, no cursor item. */
  function Empty<T>(): (r: Window<T>)
    ensures Items(r) == [] && Coherent(r)
  {
    Window([], None, [])
  }

  /** The visible items in display order, top to bottom. */
  function Items<T>(w: Window<T>): (r: seq<T>)
    ensures |r| == |w.above| + |ToSeq(w.selected)| + |w.below|
    ensures w.selected.Some? ==> r[|w.above|] == w.selected.value
  {
    w.above + ToSeq(w.selected) + w.below
  }

  /** The class invariant: the cursor is empty only when nothing is shown. */
  predicate Coherent<T>(w: Window<T>): (r: bool)
    ensures r <==> (w.selected.None? ==> |Items(w)| == 0)
  {
    w.selected.None? ==> |w.above| == 0 && |w.below| == 0
  }

  /** The invariant together with the capacity bound. */
  predicate Valid<T>(w: Window<T>, capacity: nat): (r: bool)
    ensures r ==> |Items(w)| <= capacity
    ensures r && w.selected.None? ==> Items(w) == []
  {
    Coherent(w) && Len(w) <= capacity
  }

  function Len<T>(w: Window<T>): (r: nat)
    ensures r == |Items(w)|
  {
    |w.above| + (if w.selected.Some? then 1 else 0) + |w.below|
  }

  /** The number of rows above the cursor: the index of the selected item. */
  function LenAbove<T>(w: Window<T>): (r: nat)
    ensures w.selected.Some? ==> r < Len(w) && Items(w)[r] == w.selected.value
  {
    |w.above|
  }

  function IsEmpty<T>(w: Window<T>): (r: bool)
    ensures Coherent(w) ==> (r <==> Len(w) == 0)
  {
    w.selected.None?
  }

  function Selected<T>(w: Window<T>): (r: T)
    requires !IsEmpty(w)
    ensures Items(w)[LenAbove(w)] == r
  {
    w.selected.value
  }

  /** Pairs each element of `s` with whether its position, counted from `from`,
      is `mark` (an `enumerate` followed by a `map`). */
  function MarkIndex<T>(s: seq<T>, mark: nat, from: nat): (r: seq<(bool, T)>)
    ensures |r| == |s|
    ensures forall i :: 0 <= i < |s| ==> r[i] == (from + i == mark, s[i])
    decreases |s|
  {
    if |s| == 0 then [] else [(from == mark, s[0])] + MarkIndex(s[1..], mark, from + 1)
  }

  /** The visible items, each tagged with whether it is the selected row. */
  function Tagged<T>(w: Window<T>): (r: seq<(bool, T)>)
    ensures |r| == Len(w)
    ensures forall i :: 0 <= i < |r| ==> r[i].1 == Items(w)[i] && (r[i].0 <==> i == LenAbove(w))
    ensures Coherent(w) && IsEmpty(w) ==> r == []
    ensures !IsEmpty(w) ==> r[LenAbove(w)] == (true, Selected(w))
  {
    MarkIndex(Items(w), LenAbove(w), 0)
  }

  /** Moves the cursor one row up; at the top it changes nothing. */
  function Up<T>(w: Window<T>): (r: Window<T>)
    requires Coherent(w)
    ensures Coherent(r)
    ensures Items(r) == Items(w)
    ensures |w.above| > 0 ==> LenAbove(r) == LenAbove(w) - 1
    ensures |w.above| == 0 ==> r == w
  {
    if |w.above| == 0 then w
    else
      var n := |w.above|;
      assert w.above == w.above[..n - 1] + [w.above[n - 1]];
      Window(w.above[..n - 1], Some(w.above[n - 1]), [w.selected.value] + w.below)
  }

  /** Moves the cursor one row down; at the bottom it changes nothing. */
  function Down<T>(w: Window<T>): (r: Window<T>)
    requires Coherent(w)
    ensures Coherent(r)
    ensures Items(r) == Items(w)
    ensures |w.below| > 0 ==> LenAbove(r) == LenAbove(w) + 1
    ensures |w.below| == 0 ==> r == w
  {
    if |w.below| == 0 then w
    else
      assert w.below == [w.below[0]] + w.below[1..];
      Window(w.above + [w.selected.value], Some(w.below[0]), w.below[1..])
  }

  /** The window rebuilt from `matches`, best first: the first `capacity` matches
      are shown bottom to top. The cursor goes to the best match after an empty
      window; otherwise it keeps its distance from the bottom when enough matches
      arrive and sits on the last one taken when not. */
  function Update<T>(w: Window<T>, capacity: nat, matches: seq<T>): (r: Window<T>)
    ensures Valid(r, capacity)
    ensures Len(r) == Min(capacity, |matches|)
  {
    var taken := Take(matches, capacity);
    if |taken| == 0 then Empty()
    else
      var k := if IsEmpty(w) then 0 else Min(|w.below|, |taken| - 1);
      Window(Reverse(taken[k + 1..]), Some(taken[k]), Reverse(taken[..k]))
  }

  /** Up applied `k` times. */
  function UpTimes<T>(w: Window<T>, k: nat): (r: Window<T>)
    requires Coherent(w)
    decreases k
  {
    if k == 0 then w else UpTimes(Up(w), k - 1)
  }

  /** Down applied `k` times. */
  function DownTimes<T>(w: Window<T>, k: nat): (r: Window<T>)
    requires Coherent(w)
    decreases k
  {
    if k == 0 then w else DownTimes(Down(w), k - 1)
  }

  /** The rows above the cursor come first and the rows below it last. */
  lemma ItemsLayout<T>(w: Window<T>)
    ensures Items(w)[..|w.above|] == w.above
    ensures Items(w)[|Items(w)| - |w.below|..] == w.below
  {
  }

  // ----- Cursor movement -----

  lemma UpPreservesValid<T>(w: Window<T>, capacity: nat)
    requires Valid(w, capacity)
    ensures Valid(Up(w), capacity) && Len(Up(w)) == Len(w)
  {
  }

  lemma DownPreservesValid<T>(w: Window<T>, capacity: nat)
    requires Valid(w, capacity)
    ensures Valid(Down(w), capacity) && Len(Down(w)) == Len(w)
  {
  }

  lemma DownUndoesUp<T>(w: Window<T>)
    requires Coherent(w) && |w.above| > 0
    ensures Down(Up(w)) == w
  {
  }

  lemma UpUndoesDown<T>(w: Window<T>)
    requires Coherent(w) && |w.below| > 0
    ensures Up(Down(w)) == w
  {
  }

  /** Moving up `k` times stops at the top row and never changes what is shown. */
  lemma {:induction false} UpTimesStopsAtTop<T>(w: Window<T>, k: nat)
    requires Coherent(w)
    ensures Coherent(UpTimes(w, k))
    ensures Items(UpTimes(w, k)) == Items(w)
    ensures LenAbove(UpTimes(w, k)) == if k <= LenAbove(w) then LenAbove(w) - k else 0
    decreases k
  {
    if k > 0 {
      UpTimesStopsAtTop(Up(w), k - 1);
    }
  }

  /** Moving down `k` times stops at the bottom row and never changes what is shown. */
  lemma {:induction false} DownTimesStopsAtBottom<T>(w: Window<T>, k: nat)
    requires Coherent(w) && !IsEmpty(w)
    ensures Coherent(DownTimes(w, k)) && !IsEmpty(DownTimes(w, k))
    ensures Items(DownTimes(w, k)) == Items(w)
    ensures LenAbove(DownTimes(w, k)) == Min(LenAbove(w) + k, Len(w) - 1)
    decreases k
  {
    if k > 0 {
      DownTimesStopsAtBottom(Down(w), k - 1);
    }
  }

  // ----- Re-population -----

  /** After an update the window shows the taken matches best-last. */
  lemma UpdateItems<T>(w: Window<T>, capacity: nat, matches: seq<T>)
    ensures Items(Update(w, capacity, matches)) == Reverse(Take(matches, capacity))
  {
    var taken := Take(matches, capacity);
    if |taken| > 0 {
      var k := if IsEmpty(w) then 0 else Min(|w.below|, |taken| - 1);
      ReverseSplit(taken, k);
    }
  }

  /** Every visible row, counted from the top, holds the match of the mirrored rank. */
  lemma UpdateRow<T>(w: Window<T>, capacity: nat, matches: seq<T>, i: nat)
    requires i < Len(Update(w, capacity, matches))
    ensures Items(Update(w, capacity, matches))[i] == matches[Len(Update(w, capacity, matches)) - 1 - i]
  {
    UpdateItems(w, capacity, matches);
    ReverseAt(Take(matches, capacity), i);
  }

  /** On an empty window the best match is selected at the bottom row. */
  lemma UpdateFirstPopulation<T>(w: Window<T>, capacity: nat, matches: seq<T>)
    requires IsEmpty(w) && Min(capacity, |matches|) > 0
    ensures Update(w, capacity, matches).selected == Some(matches[0])
    ensures Update(w, capacity, matches).below == []
    ensures LenAbove(Update(w, capacity, matches)) == Len(Update(w, capacity, matches)) - 1
  {
  }

  /** On a non-empty window the number of rows below the cursor is kept when enough
      matches arrive; otherwise the cursor sits on the last match taken, at the top. */
  lemma UpdateLaterPopulation<T>(w: Window<T>, capacity: nat, matches: seq<T>)
    requires !IsEmpty(w)
    ensures var r, n, b := Update(w, capacity, matches), Min(capacity, |matches|), |w.below|;
      (n > b ==> |r.below| == b && r.selected == Some(matches[b])) &&
      (0 < n <= b ==> r.above == [] && r.selected == Some(matches[n - 1]) && |r.below| == n - 1)
  {
  }

  /** Repeating an update with the same matches leaves the window as it was. */
  lemma UpdateIdempotent<T>(w: Window<T>, capacity: nat, matches: seq<T>)
    ensures Update(Update(w, capacity, matches), capacity, matches) == Update(w, capacity, matches)
  {
  }
}

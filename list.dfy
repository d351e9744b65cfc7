/** The selection list as an object whose three parts are updated in place. */
module Lists {
  import opened Wrappers
  import opened Sequences
  import W = SelectionWindow

  /** A window of at most `capacity` rows over a ranked result set, with a cursor.
      `above` runs top to bottom with its last element nearest the cursor; `below`
      runs top to bottom with its first element nearest the cursor. */
  class List<T> {
    const capacity: nat
    var above: seq<T>
    var selected: Option<T>
    var below: seq<T>

    function State(): W.Window<T>
      reads this
    {
      W.Window(above, selected, below)
    }

    /** The cursor is empty only when the list is, and the list fits its capacity. */
    ghost predicate Valid()
      reads this
    {
      W.Valid(State(), capacity)
    }

    constructor (capacity: nat)
      ensures Valid() && this.capacity == capacity
      ensures above == [] && selected == None && below == []
    {
      this.capacity := capacity;
      above := [];
      selected := None;
      below := [];
    }

    /** Items in display order, top to bottom. */
    function Items(): (r: seq<T>)
      reads this
      ensures Valid() ==> |r| <= capacity
    {
      W.Items(State())
    }

    /** The items tagged with whether each is the selected row. */
    function TaggedIter(): (r: seq<(bool, T)>)
      reads this
      ensures |r| == |Items()|
      ensures forall i :: 0 <= i < |r| ==> r[i].1 == Items()[i] && (r[i].0 <==> i == |above|)
      ensures Valid() && IsEmpty() ==> r == []
    {
      W.Tagged(State())
    }

    function Capacity(): (r: nat)
      reads this
      ensures Valid() ==> Len() <= r
    {
      capacity
    }

    function Len(): (r: nat)
      reads this
      ensures r == |Items()|
    {
      W.Len(State())
    }

    function LenAbove(): (r: nat)
      reads this
      ensures selected.Some? ==> r < |Items()| && Items()[r] == selected.value
    {
      W.LenAbove(State())
    }

    function IsEmpty(): (r: bool)
      reads this
      ensures Valid() ==> (r <==> Len() == 0)
    {
      W.IsEmpty(State())
    }

    /** The selected item; calling it on an empty list is a caller error. */
    function GetSelected(): (r: T)
      reads this
      requires !IsEmpty()
      ensures r == Items()[LenAbove()]
    {
      W.Selected(State())
    }

    /** Moves the cursor one row up: the last item above becomes selected and the
        old selection becomes the first item below. At the top nothing changes. */
    method Up()
      requires Valid()
      modifies this
      ensures Valid()
      ensures State() == W.Up(old(State()))
      ensures Items() == old(Items())
      ensures old(|above|) > 0 ==> LenAbove() == old(LenAbove()) - 1
      ensures old(|above|) == 0 ==> State() == old(State())
    {
      if |above| > 0 {
        var itemAbove := above[|above| - 1];
        above := above[..|above| - 1];
        var taken := selected;
        selected := None;
        if taken.Some? {
          below := [taken.value] + below;
          selected := Some(itemAbove);
        } else {
          assert false;
        }
      }
      W.UpPreservesValid(old(State()), capacity);
    }

    /** Moves the cursor one row down: the first item below becomes selected and the
        old selection becomes the last item above. At the bottom nothing changes. */
    method Down()
      requires Valid()
      modifies this
      ensures Valid()
      ensures State() == W.Down(old(State()))
      ensures Items() == old(Items())
      ensures old(|below|) > 0 ==> LenAbove() == old(LenAbove()) + 1
      ensures old(|below|) == 0 ==> State() == old(State())
    {
      if |below| > 0 {
        var itemBelow := below[0];
        below := below[1..];
        var taken := selected;
        selected := None;
        if taken.Some? {
          above := above + [taken.value];
          selected := Some(itemBelow);
        } else {
          assert false;
        }
      }
      W.DownPreservesValid(old(State()), capacity);
    }

    /** Rebuilds the list from `matches`, sorted best first: the first `capacity` of
        them are shown bottom to top, and the cursor is placed as W.Update says. */
    method Update(matches: seq<T>)
      requires Valid()
      modifies this
      ensures Valid()
      ensures State() == W.Update(old(State()), capacity, matches)
      ensures Items() == Reverse(Take(matches, capacity))
      ensures Len() == Min(capacity, |matches|)
    {
      ghost var before := State();
      var isEmpty := IsEmpty();
      var selectedLen := if selected.Some? then 1 else 0;
      var belowLen := |below|;
      // The rows the cursor had above it if the list was full; never negative.
      var aboveLen: nat := capacity - selectedLen - belowLen;
      assert aboveLen + selectedLen + belowLen == capacity;

      above := [];
      below := [];
      selected := None;

      var taken := Take(matches, capacity);
      var n := |taken|;
      if isEmpty {
        above := Reverse(taken);
      } else {
        below := Reverse(taken[..Min(belowLen, n)]);
        selected := Nth(taken, belowLen);
        above := Reverse(taken[Min(belowLen + 1, n)..]);
      }

      if selected.None? {
        if |below| > 0 {
          assert !isEmpty && n <= belowLen;
          ReverseSplit(taken, n - 1);
          assert taken[n..] == [] && taken[..Min(belowLen, n)] == taken;
          selected := Some(below[0]);
          below := below[1..];
        } else if |above| > 0 {
          assert isEmpty;
          ReverseSplit(taken, 0);
          assert taken[..0] == [];
          selected := Some(above[|above| - 1]);
          above := above[..|above| - 1];
        }
      }
      assert State() == W.Update(before, capacity, matches);
      W.UpdateItems(old(State()), capacity, matches);
    }
  }
}

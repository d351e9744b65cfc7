/** The unit tests of the selection list, as client methods that drive a `List`
    through its contracts and return what the tests observe. */
module ListScenarios {
  import opened Wrappers
  import opened Sequences
  import W = SelectionWindow
  import opened Lists

  function Letters(): seq<string>
  {
    ["A", "B", "C", "D", "E", "F", "G", "H", "I", "J", "K", "L", "M"]
  }

  function FewLetters(): seq<string>
  {
    ["A", "B", "C"]
  }

  /** A fresh eight-row list populated with the thirteen letters. */
  method Populated() returns (list: List<string>)
    ensures fresh(list) && list.Valid() && list.capacity == 8
    ensures list.Len() == 8 && list.LenAbove() == 7 && list.below == []
    ensures list.selected == Some("A")
  {
    list := new List<string>(8);
    ghost var s0 := list.State();
    list.Update(Letters());
    W.UpdateFirstPopulation(s0, 8, Letters());
  }

  method UpdateOnFreshList() returns (len: nat, lenAbove: nat, selected: string)
    ensures len == 8 && lenAbove == 7 && selected == "A"
  {
    var list := Populated();
    len, lenAbove, selected := list.Len(), list.LenAbove(), list.GetSelected();
  }

  method UpThreeTimes() returns (len: nat, lenAbove: nat)
    ensures len == 8 && lenAbove == 4
  {
    var list := Populated();
    list.Up();
    list.Up();
    list.Up();
    len, lenAbove := list.Len(), list.LenAbove();
  }

  method UpPastTheTop() returns (len: nat, lenAbove: nat)
    ensures len == 8 && lenAbove == 0
  {
    var list := Populated();
    list.Up(); list.Up(); list.Up(); list.Up(); list.Up(); list.Up(); list.Up();
    list.Up(); list.Up(); list.Up(); list.Up(); list.Up(); list.Up();
    len, lenAbove := list.Len(), list.LenAbove();
  }

  method DownAtBottom() returns (len: nat, lenAbove: nat)
    ensures len == 8 && lenAbove == 7
  {
    var list := Populated();
    list.Down();
    len, lenAbove := list.Len(), list.LenAbove();
  }

  method UpThenDown() returns (len: nat, lenAbove: nat)
    ensures len == 8 && lenAbove == 5
  {
    var list := Populated();
    list.Up();
    list.Up();
    list.Up();
    list.Down();
    len, lenAbove := list.Len(), list.LenAbove();
  }

  method FewMatches() returns (len: nat, lenAbove: nat)
    ensures len == 3 && lenAbove == 0
  {
    var list := new List<string>(8);
    list.Update(FewLetters());
    list.Up();
    list.Up();
    list.Up();
    list.Up();
    len, lenAbove := list.Len(), list.LenAbove();
  }

  /** A re-ranking after the cursor moved keeps three rows below it, and updating
      again with the same matches changes nothing. */
  method RerankKeepsPosition() returns (belowLen: nat, selected: string, items: seq<string>, stable: bool)
    ensures belowLen == 3 && selected == "I" && items == Reverse(Letters()[5..])
    ensures stable
  {
    var list := Populated();
    list.Up();
    list.Up();
    list.Up();
    var reranked := Letters()[5..];
    ghost var s0 := list.State();
    list.Update(reranked);
    W.UpdateLaterPopulation(s0, 8, reranked);
    var s1 := list.State();
    belowLen, selected, items := |list.below|, list.GetSelected(), list.Items();
    list.Update(reranked);
    W.UpdateIdempotent(s0, 8, reranked);
    stable := list.State() == s1;
  }
}

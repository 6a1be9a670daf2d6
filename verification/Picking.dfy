/** The elements of a list that pass a test, told by their positions. */
module Picking {
  predicate Ascending(at: seq<int>, count: int) {
    && (forall j :: 0 <= j < |at| ==> 0 <= at[j] < count)
    && forall j, k :: 0 <= j < k < |at| ==> at[j] < at[k]
  }

  // `at` lists the positions of exactly the elements that pass, in order.
  predicate PicksOut<T>(list: seq<T>, keep: T -> bool, at: seq<int>) {
    && Ascending(at, |list|)
    && (forall i :: 0 <= i < |list| && keep(list[i]) ==> i in at)
    && forall j :: 0 <= j < |at| ==> keep(list[at[j]])
  }

  lemma PickLast<T>(list: seq<T>, keep: T -> bool, at: seq<int>)
    requires list != [] && PicksOut(list[..|list| - 1], keep, at)
    ensures PicksOut(list, keep, if keep(list[|list| - 1]) then at + [|list| - 1] else at)
    ensures forall j :: 0 <= j < |at| ==> list[at[j]] == list[..|list| - 1][at[j]]
  {
    var last := |list| - 1;
    var front := list[..last];
    SameElements(list, at);
    if keep(list[last]) {
      PickOneMore(list, keep, at);
    } else {
      forall i | 0 <= i < |list| && keep(list[i])
        ensures i in at
      {
        assert front[i] == list[i];
      }
    }
  }

  lemma SameElements<T>(list: seq<T>, at: seq<int>)
    requires list != [] && Ascending(at, |list| - 1)
    ensures forall j :: 0 <= j < |at| ==> list[at[j]] == list[..|list| - 1][at[j]]
  {
  }

  lemma PickOneMore<T>(list: seq<T>, keep: T -> bool, at: seq<int>)
    requires list != [] && PicksOut(list[..|list| - 1], keep, at) && keep(list[|list| - 1])
    ensures PicksOut(list, keep, at + [|list| - 1])
  {
    var last := |list| - 1;
    var front, all := list[..last], at + [last];
    assert all[|at|] == last;
    forall i | 0 <= i < |list| && keep(list[i])
      ensures i in all
    {
      if i < last {
        assert front[i] == list[i];
      }
    }
    forall j | 0 <= j < |all|
      ensures keep(list[all[j]])
    {
      if j < |at| {
        assert all[j] == at[j] && front[at[j]] == list[at[j]];
      }
    }
  }
}

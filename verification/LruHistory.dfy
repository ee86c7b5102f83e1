/** What the list order of src/memory/lru.c means: the history of accesses. */
module LruHistory {
  import opened Recency
  import opened LruLists

  function Numerical(size: nat): seq<int> {
    seq(size, i => i)
  }

  ghost predicate FramesOnly(history: seq<int>, size: nat) {
    forall i :: 0 <= i < |history| ==> 0 <= history[i] < size
  }

  lemma NumericalOrder(size: nat)
    ensures forall f :: f in Numerical(size) <==> 0 <= f < size
  {
    forall f ensures f in Numerical(size) <==> 0 <= f < size {
      if 0 <= f < size { assert Numerical(size)[f] == f; }
    }
  }

  /** The order after a history of accesses, oldest first. */
  ghost function AfterAccesses(size: nat, history: seq<int>): (r: seq<int>)
    requires FramesOnly(history, size)
    ensures |r| == size
    ensures NoDup(r)
    ensures forall f :: f in r <==> 0 <= f < size
    decreases history
  {
    if history == [] then
      NumericalOrder(size);
      Numerical(size)
    else
      var r := AfterAccesses(size, history[..|history| - 1]);
      var f := history[|history| - 1];
      PromoteKeeps(r, IndexOf(r, f));
      MoveToFront(r, f)
  }

  /** The time of the last access of a frame, -1 when it was never accessed. */
  function LastAccess(history: seq<int>, frame: int): int
    decreases history
  {
    if history == [] then -1
    else if history[|history| - 1] == frame then |history| - 1
    else LastAccess(history[..|history| - 1], frame)
  }

  lemma {:induction false} LastAccessRange(history: seq<int>, frame: int)
    ensures -1 <= LastAccess(history, frame) < |history|
    decreases history
  {
    if history != [] && history[|history| - 1] != frame {
      LastAccessRange(history[..|history| - 1], frame);
    }
  }

  /** `a` comes before `b`: it was accessed later, or neither was and it has the lower number. */
  ghost predicate Before(history: seq<int>, a: int, b: int) {
    || LastAccess(history, a) > LastAccess(history, b)
    || (LastAccess(history, a) == LastAccess(history, b) == -1 && a < b)
  }

  /** The list holds the accessed frames by falling time of last access, and behind
      them the frames that were never accessed, in numerical order. */
  lemma {:induction false} OrderIsByLastAccess(size: nat, history: seq<int>, i: nat, j: nat)
    requires FramesOnly(history, size)
    requires i < j < size
    ensures var r := AfterAccesses(size, history); Before(history, r[i], r[j])
    decreases history
  {
    if history != [] {
      var earlier := history[..|history| - 1];
      var f := history[|history| - 1];
      var r := AfterAccesses(size, earlier);
      var x := IndexOf(r, f);
      PromoteAt(r, x, i);
      PromoteAt(r, x, j);
      var i0 := if i == 0 then x else if i <= x then i - 1 else i;
      var j0 := if j <= x then j - 1 else j;
      LastAccessRange(earlier, r[j0]);
      assert r[j0] != f;
      if i > 0 {
        assert r[i0] != f;
        OrderIsByLastAccess(size, earlier, i0, j0);
      }
    }
  }

  /** The victim, the last frame of the list, is the one whose last access is oldest. */
  lemma VictimIsOldest(size: nat, history: seq<int>, frame: int)
    requires FramesOnly(history, size)
    requires 0 <= frame < size
    ensures LastAccess(history, AfterAccesses(size, history)[size - 1]) <= LastAccess(history, frame)
  {
    hide AfterAccesses, LastAccess;
    var r := AfterAccesses(size, history);
    var i := IndexOf(r, frame);
    assert r[i] == frame;
    if i < size - 1 {
      OrderIsByLastAccess(size, history, i, size - 1);
      assert Before(history, frame, r[size - 1]);
    }
  }

  lemma OneMoreAccess(size: nat, history: seq<int>, i: nat)
    requires FramesOnly(history, size) && i < |history|
    ensures FramesOnly(history[..i], size) && FramesOnly(history[..i + 1], size) && 0 <= history[i] < size
    ensures AfterAccesses(size, history[..i + 1]) == MoveToFront(AfterAccesses(size, history[..i]), history[i])
  {
    assert history[..i + 1][..i] == history[..i];
  }

  /** A list that starts in numerical order and serves a history of accesses, one call of
      access_frame each, ends up in the order of that history. */
  method AccessAll(list: LruList, history: seq<int>)
    requires list.Valid() && list.Order() == Numerical(list.size) && FramesOnly(history, list.size)
    modifies list`nodes, list.repr
    ensures list.Valid() && list.Order() == AfterAccesses(list.size, history)
  {
    hide AfterAccesses, MoveToFront, LruList.Order;
    NoAccesses(list.size, history);
    for i := 0 to |history|
      invariant list.Valid() && FramesOnly(history[..i], list.size)
      invariant list.Order() == AfterAccesses(list.size, history[..i])
    {
      OneMoreAccess(list.size, history, i);
      list.AccessFrame(history[i]);
    }
  }

  lemma NoAccesses(size: nat, history: seq<int>)
    requires FramesOnly(history, size)
    ensures AfterAccesses(size, history[..0]) == Numerical(size) && history[..|history|] == history
  {
  }
}

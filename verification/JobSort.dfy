/** The sort of src/scheduling/ready_queue.c on values: an exchange sort of the first
    MAX_NUM_PROGRAMS jobs, put back behind the others. */
module JobSort {
  import opened Recency
  import opened Jobs

  const MAX_NUM_PROGRAMS: nat := 3

  function Swap(q: seq<Job>, i: nat, j: nat): (r: seq<Job>)
    requires i < |q| && j < |q|
    ensures |r| == |q|
  {
    q[i := q[j]][j := q[i]]
  }

  /** The inner loop from `j` on, for slot `i`. */
  function Pass(q: seq<Job>, i: nat, j: nat): (r: seq<Job>)
    requires i < |q|
    ensures |r| == |q|
    decreases |q| - j
  {
    if j >= |q| then q
    else Pass(if q[i].score > q[j].score then Swap(q, i, j) else q, i, j + 1)
  }

  /** The outer loop from slot `i` on. */
  function Passes(q: seq<Job>, i: nat): (r: seq<Job>)
    ensures |r| == |q|
    decreases |q| - i
  {
    if i >= |q| then q else Passes(Pass(q, i, i), i + 1)
  }

  function Prefix(n: nat): nat {
    if n < MAX_NUM_PROGRAMS then n else MAX_NUM_PROGRAMS
  }

  /** What sort_ready_queue leaves. */
  function SortQueue(q: seq<Job>): (r: seq<Job>)
    ensures |r| == |q|
  {
    q[Prefix(|q|)..] + Passes(q[..Prefix(|q|)], 0)
  }

  ghost predicate Sorted(q: seq<Job>) {
    forall i, j :: 0 <= i < j < |q| ==> q[i].score <= q[j].score
  }

  /** Slot `i` is no greater than the slots of [lo, hi). */
  ghost predicate LeastOver(q: seq<Job>, i: nat, lo: nat, hi: nat) {
    i < |q| && forall k :: lo <= k < hi && k < |q| ==> q[i].score <= q[k].score
  }

  lemma {:induction false} PassPrefix(q: seq<Job>, i: nat, j: nat)
    requires i < |q| && i <= j
    ensures Pass(q, i, j)[..i] == q[..i]
    decreases |q| - j
  {
    if j < |q| {
      PassPrefix(if q[i].score > q[j].score then Swap(q, i, j) else q, i, j + 1);
    }
  }

  lemma SwapMultiset(q: seq<Job>, i: nat, j: nat)
    requires i < |q| && j < |q|
    ensures multiset(Swap(q, i, j)) == multiset(q)
  {
  }

  lemma {:induction false} PassMultiset(q: seq<Job>, i: nat, j: nat)
    requires i < |q|
    ensures multiset(Pass(q, i, j)) == multiset(q)
    decreases |q| - j
  {
    hide Swap;
    if j < |q| {
      SwapMultiset(q, i, j);
      var next := if q[i].score > q[j].score then Swap(q, i, j) else q;
      PassMultiset(next, i, j + 1);
      assert Pass(q, i, j) == Pass(next, i, j + 1);
    }
  }

  lemma SplitMultiset(q: seq<Job>, i: nat)
    requires i <= |q|
    ensures multiset(q[i..]) == multiset(q) - multiset(q[..i])
  {
    assert q == q[..i] + q[i..];
  }

  /** A pass reorders only the slots from its own on. */
  lemma PassPermutes(q: seq<Job>, i: nat, j: nat)
    requires i < |q| && i <= j
    ensures Pass(q, i, j)[..i] == q[..i]
    ensures multiset(Pass(q, i, j)) == multiset(q)
    ensures multiset(Pass(q, i, j)[i..]) == multiset(q[i..])
  {
    PassPrefix(q, i, j);
    PassMultiset(q, i, j);
    SplitMultiset(q, i);
    SplitMultiset(Pass(q, i, j), i);
  }

  /** A pass leaves the least of its slots in front. */
  lemma {:induction false} PassLeast(q: seq<Job>, i: nat, j: nat)
    requires i < |q| && i <= j
    requires LeastOver(q, i, i, j)
    ensures LeastOver(Pass(q, i, j), i, i, |q|)
    decreases |q| - j
  {
    if j < |q| {
      if q[i].score > q[j].score {
        assert LeastOver(Swap(q, i, j), i, i, j + 1);
        PassLeast(Swap(q, i, j), i, j + 1);
      } else {
        PassLeast(q, i, j + 1);
      }
    }
  }

  /** The first `i` slots are in order and no greater than what follows. */
  ghost predicate SortedUpTo(q: seq<Job>, i: nat) {
    forall a, b :: 0 <= a < i && a < b < |q| ==> q[a].score <= q[b].score
  }

  lemma SuffixBound(q: seq<Job>, r: seq<Job>, i: nat)
    requires i <= |q| == |r| && q[..i] == r[..i] && multiset(q[i..]) == multiset(r[i..])
    requires SortedUpTo(q, i)
    ensures SortedUpTo(r, i)
  {
    forall a, b | 0 <= a < i && a < b < |r| ensures r[a].score <= r[b].score {
      assert r[a] == r[..i][a] == q[..i][a] == q[a];
      if b < i {
        assert r[b] == r[..i][b] == q[..i][b] == q[b];
      } else {
        assert r[b] == r[i..][b - i];
        assert r[b] in multiset(r[i..]);
        assert r[b] in q[i..];
        var k :| 0 <= k < |q| - i && q[i..][k] == r[b];
        assert q[i + k] == r[b];
      }
    }
  }

  lemma {:induction false} PassesSort(q: seq<Job>, i: nat)
    requires i <= |q| && SortedUpTo(q, i)
    ensures Sorted(Passes(q, i))
    ensures multiset(Passes(q, i)) == multiset(q)
    decreases |q| - i
  {
    if i < |q| {
      PassLeast(q, i, i);
      PassPermutes(q, i, i);
      SuffixBound(q, Pass(q, i, i), i);
      assert SortedUpTo(Pass(q, i, i), i + 1);
      PassesSort(Pass(q, i, i), i + 1);
    }
  }

  /** A pass leaves every slot before its own alone, so later passes keep the head. */
  lemma {:induction false} PassesKeepPrefix(q: seq<Job>, i: nat)
    requires i <= |q| && SortedUpTo(q, i)
    ensures Passes(q, i)[..i] == q[..i]
    decreases |q| - i
  {
    if i < |q| {
      var p := Pass(q, i, i);
      PassLeast(q, i, i);
      PassPermutes(q, i, i);
      SuffixBound(q, p, i);
      PassesKeepPrefix(p, i + 1);
      assert Passes(q, i)[..i] == Passes(q, i)[..i+1][..i];
      assert p[..i+1][..i] == p[..i];
    }
  }

  /** Sorting keeps the jobs, whatever the length of the queue. */
  lemma SortQueuePermutes(q: seq<Job>)
    ensures multiset(SortQueue(q)) == multiset(q)
    ensures forall j :: j in SortQueue(q) <==> j in q
  {
    var n := Prefix(|q|);
    PassesSort(q[..n], 0);
    assert q == q[..n] + q[n..];
    forall j ensures j in SortQueue(q) <==> j in q {
      assert j in SortQueue(q) <==> j in multiset(SortQueue(q));
      assert j in q <==> j in multiset(q);
    }
  }

  /** A queue of at most MAX_NUM_PROGRAMS jobs comes out in order of score. */
  lemma SortQueueSorts(q: seq<Job>)
    requires |q| <= MAX_NUM_PROGRAMS
    ensures Sorted(SortQueue(q))
  {
    PassesSort(q, 0);
    assert q[..|q|] == q && SortQueue(q) == Passes(q, 0);
  }

  /** Of a longer queue only the first MAX_NUM_PROGRAMS jobs are sorted, and put behind the
      others, which keep their order. */
  lemma SortQueueLong(q: seq<Job>)
    requires |q| > MAX_NUM_PROGRAMS
    ensures var rest := |q| - MAX_NUM_PROGRAMS; var r := SortQueue(q);
      && r[..rest] == q[MAX_NUM_PROGRAMS..] && Sorted(r[rest..])
      && multiset(r[rest..]) == multiset(q[..MAX_NUM_PROGRAMS])
  {
    var first := q[..MAX_NUM_PROGRAMS];
    PassesSort(first, 0);
    assert SortQueue(q)[|q| - MAX_NUM_PROGRAMS..] == Passes(first, 0);
  }

  lemma SortOfTwo(a: Job, b: Job)
    ensures SortQueue([a, b]) == if a.score <= b.score then [a, b] else [b, a]
  {
    var q := [a, b];
    assert q[..2] == q && q[2..] == [];
    var p := if a.score > b.score then [b, a] else q;
    assert Swap(q, 0, 1) == [b, a] && Swap(q, 0, 0) == q && Swap(p, 1, 1) == p;
    assert Pass(q, 0, 1) == Pass(p, 0, 2) == p;
    assert Passes(p, 1) == Passes(Pass(p, 1, 1), 2) == p;
  }

  /** The order of three jobs, ties included: of jobs of equal score the earlier one comes
      first, except that two jobs in front of one of lower score change places. */
  lemma SortOfThree(a: Job, b: Job, c: Job)
    ensures var r := SortQueue([a, b, c]); var x, y, z := a.score, b.score, c.score;
      && (x <= y <= z ==> r == [a, b, c]) && (x <= z < y ==> r == [a, c, b]) && (z < x < y ==> r == [c, a, b])
      && (y < x <= z ==> r == [b, a, c]) && (y <= z < x ==> r == [b, c, a]) && (z < y <= x ==> r == [c, b, a])
  {
    var q := [a, b, c];
    assert q[..3] == q && q[3..] == [] && SortQueue(q) == Passes(q, 0);
    PassOfThree(q);
    var p := Pass(q, 0, 0);
    LastOfThree(p);
  }

  lemma PassOfThree(q: seq<Job>)
    requires |q| == 3
    ensures var m := if q[0].score > q[1].score then [q[1], q[0], q[2]] else q;
      Pass(q, 0, 0) == if m[0].score > m[2].score then [m[2], m[1], m[0]] else m
  {
    hide Pass;
    var m := if q[0].score > q[1].score then [q[1], q[0], q[2]] else q;
    var r := if m[0].score > m[2].score then [m[2], m[1], m[0]] else m;
    assert Swap(q, 0, 1) == [q[1], q[0], q[2]] && Swap(m, 0, 2) == [m[2], m[1], m[0]];
    PassStep(q, 0, 0);
    PassStep(q, 0, 1);
    PassStep(m, 0, 2);
    PassStep(r, 0, 3);
  }

  lemma LastOfThree(q: seq<Job>)
    requires |q| == 3
    ensures Passes(q, 1) == if q[1].score > q[2].score then [q[0], q[2], q[1]] else q
  {
    hide Pass, Swap, Passes;
    var r := if q[1].score > q[2].score then Swap(q, 1, 2) else q;
    SwapLast(q);
    PassOfTwo(q, 1);
    PassOfOne(r, 2);
    PassesStep(q, 1);
    PassesStep(r, 2);
    PassesStep(r, 3);
  }

  lemma PassOfTwo(q: seq<Job>, i: nat)
    requires i + 2 == |q|
    ensures Pass(q, i, i) == if q[i].score > q[i + 1].score then Swap(q, i, i + 1) else q
  {
    hide Pass, Swap;
    var r := if q[i].score > q[i + 1].score then Swap(q, i, i + 1) else q;
    PassStep(q, i, i);
    PassStep(q, i, i + 1);
    PassStep(r, i, i + 2);
  }

  lemma PassOfOne(q: seq<Job>, i: nat)
    requires i + 1 == |q|
    ensures Pass(q, i, i) == q
  {
    hide Pass, Swap;
    PassStep(q, i, i);
    PassStep(q, i, i + 1);
  }

  lemma PassesStep(q: seq<Job>, i: nat)
    ensures Passes(q, i) == if i >= |q| then q else Passes(Pass(q, i, i), i + 1)
  {
  }

  lemma SwapLast(q: seq<Job>)
    requires |q| == 3
    ensures Swap(q, 1, 2) == [q[0], q[2], q[1]]
  {
  }

  lemma PassStep(q: seq<Job>, i: nat, j: nat)
    requires i < |q|
    ensures Pass(q, i, j)
         == if j >= |q| then q else Pass(if q[i].score > q[j].score then Swap(q, i, j) else q, i, j + 1)
  {
  }

  lemma {:induction false} PassStays(q: seq<Job>, j: nat)
    requires |q| > 0 && LeastOver(q, 0, 0, |q|)
    ensures Pass(q, 0, j) == q
    decreases |q| - j
  {
    if j < |q| {
      PassStays(q, j + 1);
    }
  }

  lemma TailPermutes(q: seq<Job>, r: seq<Job>)
    requires 0 < |q| && 0 < |r| && q[0] == r[0] && multiset(q) == multiset(r)
    ensures multiset(r[1..]) == multiset(q[1..])
  {
    assert q == [q[0]] + q[1..];
    assert r == [r[0]] + r[1..];
    assert multiset(q[1..]) == multiset(q) - multiset{q[0]};
  }

  /** A head whose score nobody beats stays the head: ties go to it. */
  lemma SortQueueKeepsHead(q: seq<Job>)
    requires 0 < |q| <= MAX_NUM_PROGRAMS && LeastOver(q, 0, 0, |q|)
    ensures SortQueue(q)[0] == q[0]
    ensures multiset(SortQueue(q)[1..]) == multiset(q[1..])
  {
    assert q[..|q|] == q && SortQueue(q) == Passes(q, 0);
    PassStays(q, 0);
    assert Passes(q, 0) == Passes(q, 1);
    PassesKeepPrefix(q, 1);
    assert Passes(q, 1)[..1][0] == q[..1][0];
    SortQueuePermutes(q);
    TailPermutes(q, SortQueue(q));
  }

  /** Distinct pids stay distinct under any reordering. */
  lemma DistinctPermuted(q: seq<Job>, r: seq<Job>)
    requires DistinctPids(q) && multiset(q) == multiset(r)
    ensures DistinctPids(r)
  {
    PermutedNoDup(q, r);
    forall i, k | 0 <= i < k < |r| ensures r[i].pid != r[k].pid {
      assert r[i] in multiset(q) && r[k] in multiset(q);
      assert r[i] in q && r[k] in q;
    }
  }
}

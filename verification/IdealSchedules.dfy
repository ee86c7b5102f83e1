/** What FCFS, SJF and AGING run when every file is held whole in memory: schedules
    that know nothing of pages, frames or faults. */
module IdealSchedules {
  import opened Division
  import opened Recency
  import opened Jobs
  import opened JobSort

  // ----- FCFS and SJF

  function FcfsTrace(q: seq<Job>): seq<Event>
    requires WithinFile(q)
    decreases q
  {
    if q == [] then [] else RestOf(q[0]) + FcfsTrace(q[1..])
  }

  function SjfTrace(q: seq<Job>): seq<Event>
    requires WithinFile(q)
  {
    SortQueuePermutes(q);
    FcfsTrace(SortQueue(q))
  }

  lemma {:induction false} FcfsPids(q: seq<Job>)
    requires WithinFile(q)
    ensures forall e :: e in FcfsTrace(q) ==> exists j :: j in q && j.pid == e.pid
    decreases q
  {
    if q != [] {
      FcfsPids(q[1..]);
      forall e | e in FcfsTrace(q) ensures exists j :: j in q && j.pid == e.pid {
        if e in RestOf(q[0]) {
          assert q[0] in q;
        } else {
          assert e in FcfsTrace(q[1..]);
          var j :| j in q[1..] && j.pid == e.pid;
          assert j in q;
        }
      }
    }
  }

  /** FCFS and SJF run the rest of every file once, in file order. */
  lemma {:induction false} FcfsRunsEveryLineOnce(q: seq<Job>, j: Job)
    requires WithinFile(q) && DistinctPids(q) && j in q
    ensures Project(FcfsTrace(q), j.pid) == RestOf(j)
    decreases q
  {
    ProjectConcat(RestOf(q[0]), FcfsTrace(q[1..]), j.pid);
    if j == q[0] {
      ProjectOwn(RestOf(j), j.pid);
      FcfsPids(q[1..]);
      ProjectOther(FcfsTrace(q[1..]), j.pid);
    } else {
      assert j in q[1..];
      ProjectOther(RestOf(q[0]), j.pid);
      FcfsRunsEveryLineOnce(q[1..], j);
    }
  }

  // ----- AGING

  function AgedScore(score: int): int {
    if score > 0 then score - 1 else score
  }

  /** What age_ready_queue does to the scores. */
  function AgeQueue(q: seq<Job>): (r: seq<Job>)
    ensures |r| == |q|
  {
    seq(|q|, i requires 0 <= i < |q| => q[i].(score := AgedScore(q[i].score)))
  }

  lemma AgeQueueKeepsOrder(q: seq<Job>)
    requires Sorted(q)
    ensures Sorted(AgeQueue(q))
  {
  }

  /** The queue after one dispatch of its head. */
  function AgingNext(q: seq<Job>): seq<Job>
    requires q != []
  {
    if Unfinished(Advance(q[0])) then SortQueue([Advance(q[0])] + AgeQueue(q[1..])) else q[1..]
  }

  lemma DeleteMultiset(r: seq<Job>, k: nat)
    requires k < |r|
    ensures multiset(Delete(r, k)) == multiset(r) - multiset{r[k]}
  {
    assert r == r[..k] + [r[k]] + r[k+1..];
  }

  lemma {:induction false} RemainingDelete(r: seq<Job>, k: nat)
    requires k < |r|
    ensures Remaining(r) == Remaining([r[k]]) + Remaining(Delete(r, k))
  {
    assert r == r[..k] + ([r[k]] + r[k+1..]);
    RemainingConcat(r[..k], r[k+1..]);
    RemainingConcat(r[..k], [r[k]] + r[k+1..]);
    RemainingConcat([r[k]], r[k+1..]);
  }

  lemma {:induction false} RemainingPermuted(q: seq<Job>, r: seq<Job>)
    requires multiset(q) == multiset(r)
    ensures Remaining(q) == Remaining(r)
    decreases q
  {
    if q == [] {
      assert forall x :: x in r ==> x in multiset(r);
    } else {
      assert q[0] in multiset(r);
      var k :| 0 <= k < |r| && r[k] == q[0];
      DeleteMultiset(q, 0);
      DeleteMultiset(r, k);
      RemainingPermuted(Delete(q, 0), Delete(r, k));
      RemainingDelete(q, 0);
      RemainingDelete(r, k);
    }
  }

  lemma {:induction false} RemainingAged(q: seq<Job>)
    ensures Remaining(AgeQueue(q)) == Remaining(q)
    decreases q
  {
    if q != [] {
      assert AgeQueue(q)[1..] == AgeQueue(q[1..]);
      RemainingAged(q[1..]);
    }
  }

  lemma AgingNextRuns(q: seq<Job>)
    requires q != [] && AllUnfinished(q)
    ensures AllUnfinished(AgingNext(q))
    ensures Remaining(AgingNext(q)) == Remaining(q) - 1
  {
    assert q[0] in q;
    forall j | j in q[1..] ensures Unfinished(j) { assert j in q; }
    if Unfinished(Advance(q[0])) {
      var aged := [Advance(q[0])] + AgeQueue(q[1..]);
      SortQueuePermutes(aged);
      RemainingPermuted(SortQueue(aged), aged);
      assert aged[1..] == AgeQueue(q[1..]);
      RemainingAged(q[1..]);
      forall j | j in aged ensures Unfinished(j) {
        if j != aged[0] {
          var k :| 0 <= k < |q| - 1 && AgeQueue(q[1..])[k] == j;
          assert q[1..][k] in q;
        }
      }
    }
  }

  /** The lines AGING runs from a queue that is already in order. */
  function AgingTrace(q: seq<Job>): seq<Event>
    requires AllUnfinished(q)
    decreases Remaining(q)
  {
    if q == [] then []
    else
      AgingNextRuns(q);
      [Current(q[0])] + AgingTrace(AgingNext(q))
  }

  /** The whole of scheduler_aging: one sort, then dispatches until the queue is empty. */
  function AgingSchedule(q: seq<Job>): seq<Event>
    requires AllUnfinished(q)
  {
    SortQueuePermutes(q);
    AgingTrace(SortQueue(q))
  }

  /** Two jobs of one file at one point, whatever their scores. */
  predicate SameProgress(a: Job, b: Job) {
    a.pid == b.pid && a.lines == b.lines && a.pc == b.pc
  }

  /** Where the other jobs are after a dispatch. */
  lemma AgingNextOthers(q: seq<Job>, j: Job)
    requires q != [] && DistinctPids(q) && j in q[1..]
    ensures exists k :: k in AgingNext(q) && SameProgress(j, k)
  {
    if Unfinished(Advance(q[0])) {
      var i :| 0 <= i < |q| - 1 && q[1..][i] == j;
      var aged := [Advance(q[0])] + AgeQueue(q[1..]);
      SortQueuePermutes(aged);
      assert aged[i + 1] == j.(score := AgedScore(j.score));
      assert aged[i + 1] in AgingNext(q) && SameProgress(j, aged[i + 1]);
    } else {
      assert SameProgress(j, j);
    }
  }

  lemma AgingNextDistinct(q: seq<Job>)
    requires q != [] && DistinctPids(q)
    ensures DistinctPids(AgingNext(q))
  {
    if Unfinished(Advance(q[0])) {
      var aged := [Advance(q[0])] + AgeQueue(q[1..]);
      assert forall i :: 0 <= i < |q| ==> aged[i].pid == q[i].pid;
      SortQueuePermutes(aged);
      DistinctPermuted(aged, SortQueue(aged));
    }
  }

  lemma AgingNextAbsent(q: seq<Job>, pid: nat)
    requires q != [] && DistinctPids(q)
    requires (forall j :: j in q ==> j.pid != pid) || (q[0].pid == pid && !Unfinished(Advance(q[0])))
    ensures forall k :: k in AgingNext(q) ==> k.pid != pid
  {
    if Unfinished(Advance(q[0])) {
      var aged := [Advance(q[0])] + AgeQueue(q[1..]);
      SortQueuePermutes(aged);
      forall k | k in AgingNext(q) ensures k.pid != pid {
        var i :| 0 <= i < |aged| && aged[i] == k;
        assert q[i] in q && q[i].pid == k.pid;
      }
    } else {
      assert forall k :: k in q[1..] ==> k in q;
    }
  }

  lemma AgingProjectStep(q: seq<Job>, pid: nat)
    requires q != [] && AllUnfinished(q) && AllUnfinished(AgingNext(q))
    ensures Project(AgingTrace(q), pid)
         == (if q[0].pid == pid then [Current(q[0])] else []) + Project(AgingTrace(AgingNext(q)), pid)
  {
    AgingNextRuns(q);
    ProjectConcat([Current(q[0])], AgingTrace(AgingNext(q)), pid);
    assert Project([Current(q[0])], pid) == if q[0].pid == pid then [Current(q[0])] else [];
  }

  lemma {:induction false} AgingPids(q: seq<Job>, pid: nat)
    requires AllUnfinished(q) && DistinctPids(q) && forall j :: j in q ==> j.pid != pid
    ensures Project(AgingTrace(q), pid) == []
    decreases Remaining(q)
  {
    if q != [] {
      AgingNextRuns(q);
      AgingNextDistinct(q);
      AgingNextAbsent(q, pid);
      AgingPids(AgingNext(q), pid);
      assert q[0] in q;
      AgingProjectStep(q, pid);
    }
  }

  lemma AgingNextHead(q: seq<Job>)
    requires q != [] && Unfinished(Advance(q[0]))
    ensures Advance(q[0]) in AgingNext(q) && |AgingNext(q)| == |q|
  {
    var aged := [Advance(q[0])] + AgeQueue(q[1..]);
    SortQueuePermutes(aged);
    assert aged[0] in SortQueue(aged);
  }

  /** Where the process of `j` is after a dispatch, unless that was its last line. */
  lemma AgingFollow(q: seq<Job>, j: Job) returns (k: Job)
    requires q != [] && DistinctPids(q) && j in q && (j == q[0] ==> Unfinished(Advance(j)))
    ensures k in AgingNext(q) && SameProgress(if j == q[0] then Advance(j) else j, k)
  {
    if j == q[0] {
      AgingNextHead(q);
      k := Advance(j);
    } else {
      assert j in q[1..];
      AgingNextOthers(q, j);
      k :| k in AgingNext(q) && SameProgress(j, k);
    }
  }

  /** AGING runs the rest of every file once, in file order, however it interleaves. */
  lemma {:induction false} AgingRunsEveryLineOnce(q: seq<Job>, j: Job)
    requires AllUnfinished(q) && DistinctPids(q) && j in q
    ensures Project(AgingTrace(q), j.pid) == RestOf(j)
    decreases Remaining(q)
  {
    AgingNextRuns(q);
    AgingNextDistinct(q);
    AgingProjectStep(q, j.pid);
    RestOfStep(j);
    if j == q[0] && !Unfinished(Advance(j)) {
      AgingNextAbsent(q, j.pid);
      AgingPids(AgingNext(q), j.pid);
    } else {
      var k := AgingFollow(q, j);
      AgingRunsEveryLineOnce(AgingNext(q), k);
    }
  }

  // ----- AGING: order at every dispatch, and when a running job is preempted

  lemma TailSorted(q: seq<Job>)
    requires Sorted(q) && q != []
    ensures Sorted(q[1..])
  {
  }

  /** The queue stays in order, so every dispatch runs a job of least score. */
  lemma AgingStaysSorted(q: seq<Job>)
    requires q != [] && Sorted(q) && |q| <= MAX_NUM_PROGRAMS
    ensures Sorted(AgingNext(q)) && |AgingNext(q)| <= MAX_NUM_PROGRAMS
  {
    if Unfinished(Advance(q[0])) {
      SortQueueSorts([Advance(q[0])] + AgeQueue(q[1..]));
    }
  }

  function AgingIter(q: seq<Job>, n: nat): seq<Job>
    requires AllUnfinished(q)
    decreases n
  {
    if n == 0 || q == [] then q
    else
      AgingNextRuns(q);
      AgingIter(AgingNext(q), n - 1)
  }

  /** The queue is sorted at every dispatch of a run of scheduler_aging, which sorts once
      before its loop. */
  lemma {:induction false} AgingAlwaysSorted(q: seq<Job>, n: nat)
    requires |q| <= MAX_NUM_PROGRAMS && Sorted(q) && AllUnfinished(q)
    ensures Sorted(AgingIter(q, n)) && |AgingIter(q, n)| <= MAX_NUM_PROGRAMS
    decreases n
  {
    if n > 0 && q != [] {
      AgingNextRuns(q);
      AgingStaysSorted(q);
      AgingAlwaysSorted(AgingNext(q), n - 1);
    }
  }

  lemma AgingDispatchesSorted(q: seq<Job>, n: nat)
    requires |q| <= MAX_NUM_PROGRAMS && AllUnfinished(q)
    ensures AllUnfinished(SortQueue(q)) && Sorted(AgingIter(SortQueue(q), n))
  {
    SortQueuePermutes(q);
    SortQueueSorts(q);
    forall j | j in SortQueue(q) ensures Unfinished(j) {
      assert j in multiset(SortQueue(q));
      assert j in q;
    }
    AgingAlwaysSorted(SortQueue(q), n);
  }

  lemma LeastOfTail(q: seq<Job>, r: seq<Job>)
    requires 0 < |q| && 0 < |r| && Sorted(q) && Sorted(r) && multiset(q) == multiset(r)
    ensures q[0].score == r[0].score
  {
    assert q[0] in multiset(r) && r[0] in multiset(q);
    assert q[0] in r && r[0] in q;
  }

  /** While no waiting job drops below the head, the head runs again; it keeps its score,
      and the least waiting score is one lower, but not below zero. */
  lemma AgingKeepsHead(q: seq<Job>)
    requires 2 <= |q| <= MAX_NUM_PROGRAMS && Sorted(q) && Unfinished(Advance(q[0]))
    requires AgedScore(q[1].score) >= q[0].score
    ensures AgingNext(q)[0] == Advance(q[0]) && AgingNext(q)[1].score == AgedScore(q[1].score)
  {
    var waiting := AgeQueue(q[1..]);
    var aged := [Advance(q[0])] + waiting;
    var next := SortQueue(aged);
    SortQueueSorts(aged);
    TailSorted(q);
    AgeQueueKeepsOrder(q[1..]);
    assert LeastOver(aged, 0, 0, |aged|);
    SortQueueKeepsHead(aged);
    assert aged[1..] == waiting;
    TailSorted(next);
    LeastOfTail(next[1..], waiting);
  }

  /** Once a waiting job has dropped below the head, the head loses the processor. */
  lemma AgingDropsHead(q: seq<Job>)
    requires 2 <= |q| <= MAX_NUM_PROGRAMS && Sorted(q) && Unfinished(Advance(q[0]))
    requires AgedScore(q[1].score) < q[0].score
    ensures AgingNext(q)[0].score < q[0].score
  {
    var aged := [Advance(q[0])] + AgeQueue(q[1..]);
    SortQueuePermutes(aged);
    SortQueueSorts(aged);
    assert aged[1] in SortQueue(aged);
  }

  /** A running job of positive score s keeps the processor while it has been
      dispatched at most a - s times, where a is the least waiting score. */
  lemma {:induction false} AgingRunsOn(q: seq<Job>, n: nat)
    requires 2 <= |q| <= MAX_NUM_PROGRAMS && Sorted(q) && AllUnfinished(q)
    requires q[0].score > 0 && q[0].pc + n < |q[0].lines| && n <= q[1].score - q[0].score
    ensures var r := AgingIter(q, n);
      |r| == |q| && Sorted(r) && AllUnfinished(r)
      && r[0] == q[0].(pc := q[0].pc + n) && r[1].score == q[1].score - n
    decreases n
  {
    hide AgingNext, AgingIter, Sorted, AllUnfinished;
    if 0 < n {
      HeadUnfinished(q, 1);
      AgingNextRuns(q);
      AgingStaysSorted(q);
      AgingKeepsHead(q);
      AgingNextHead(q);
      AgingIterMore(q, n);
      AgingRunsOn(AgingNext(q), n - 1);
    } else {
      AgingIterNone(q);
    }
  }

  lemma HeadUnfinished(q: seq<Job>, n: nat)
    requires q != [] && AllUnfinished(q) && q[0].pc + n < |q[0].lines|
    ensures Unfinished(q[0]) && Unfinished(q[0].(pc := q[0].pc + n))
  {
  }

  lemma AgingIterNone(q: seq<Job>)
    requires AllUnfinished(q)
    ensures AgingIter(q, 0) == q
  {
  }

  lemma AgingIterMore(q: seq<Job>, n: nat)
    requires q != [] && n > 0 && AllUnfinished(q)
    ensures AllUnfinished(AgingNext(q)) && AgingIter(q, n) == AgingIter(AgingNext(q), n - 1)
  {
    AgingNextRuns(q);
  }

  lemma {:induction false} AgingIterAdd(q: seq<Job>, a: nat, b: nat)
    requires AllUnfinished(q) && AllUnfinished(AgingIter(q, a))
    ensures AgingIter(q, a + b) == AgingIter(AgingIter(q, a), b)
    decreases a
  {
    if q == [] {
    } else if a > 0 {
      AgingNextRuns(q);
      var next := AgingNext(q);
      AgingIterAdd(next, a - 1, b);
      assert AgingIter(q, a + b) == AgingIter(next, a + b - 1);
    }
  }

  lemma AgingIterOne(q: seq<Job>)
    requires q != [] && AllUnfinished(q)
    ensures AgingIter(q, 1) == AgingNext(q)
  {
    AgingNextRuns(q);
    assert AgingIter(AgingNext(q), 0) == AgingNext(q);
  }

  /** After the next dispatch, the a - s + 1st, it has lost the processor to a job of
      lower score. */
  lemma AgingPreempts(q: seq<Job>)
    requires 2 <= |q| <= MAX_NUM_PROGRAMS && Sorted(q) && AllUnfinished(q) && DistinctPids(q)
    requires q[0].score > 0 && q[0].pc + (q[1].score - q[0].score) + 1 < |q[0].lines|
    ensures var r := AgingIter(q, q[1].score - q[0].score + 1);
      |r| == |q| && r[0].score < q[0].score && r[0].pid != q[0].pid
  {
    hide AgingIter, AgingNext;
    var n := q[1].score - q[0].score;
    var r := AgingIter(q, n);
    AgingRunsOn(q, n);
    AgingIterAdd(q, n, 1);
    AgingIterOne(r);
    AgingDropsHead(r);
    AgingNextHead(r);
    AgingIterPids(q, n);
    AgingNextDistinct(r);
    AgingNextRuns(r);
    assert Advance(r[0]) in AgingNext(r) && AgingNext(r)[0] != Advance(r[0]);
  }

  lemma {:induction false} AgingIterPids(q: seq<Job>, n: nat)
    requires AllUnfinished(q) && DistinctPids(q)
    ensures DistinctPids(AgingIter(q, n))
    decreases n
  {
    if n > 0 && q != [] {
      AgingNextRuns(q);
      AgingNextDistinct(q);
      AgingIterPids(AgingNext(q), n - 1);
    }
  }

  /** A running job of score zero is never preempted. */
  lemma {:induction false} AgingZeroRunsOn(q: seq<Job>, n: nat)
    requires 0 < |q| <= MAX_NUM_PROGRAMS && Sorted(q) && AllUnfinished(q)
    requires q[0].score == 0 && q[0].pc + n < |q[0].lines|
    ensures AgingIter(q, n) != [] && AgingIter(q, n)[0] == q[0].(pc := q[0].pc + n)
    decreases n
  {
    if 0 < n {
      var aged := [Advance(q[0])] + AgeQueue(q[1..]);
      AgingNextRuns(q);
      AgingStaysSorted(q);
      assert LeastOver(aged, 0, 0, |aged|);
      SortQueueKeepsHead(aged);
      AgingZeroRunsOn(AgingNext(q), n - 1);
    }
  }

  // ----- FCFS: a page faults at most once

  /** Pages not yet behind the program counter. */
  function PagesLeft(j: Job, size: nat): nat
    requires 1 <= size && j.pc <= |j.lines|
  {
    if Unfinished(j) then
      Monotonic(j.pc, |j.lines| - 1, size);
      (|j.lines| - 1) / size - j.pc / size + 1
    else 0
  }

  /** A file not yet begun has as many pages as its length calls for. */
  lemma PagesOfFile(j: Job, size: nat)
    requires 1 <= size && j.pc == 0
    ensures PagesLeft(j, size) == (|j.lines| + size - 1) / size
  {
    var n := |j.lines|;
    if n == 0 {
      Unique(size - 1, size, 0);
    } else {
      var q := (n - 1) / size;
      Unique(0, size, 0);
      assert (q + 1) * size == q * size + size;
      Unique(n - 1 + size, size, q + 1);
    }
  }

  function PagesLeftAll(q: seq<Job>, size: nat): nat
    requires 1 <= size && WithinFile(q)
    decreases q
  {
    if q == [] then 0 else PagesLeft(q[0], size) + PagesLeftAll(q[1..], size)
  }

  function Resident(m: Paging, j: Job, size: nat): nat
    requires 1 <= size
  {
    if Unfinished(j) && NextPage(j, size) in m.order then 1 else 0
  }

  /** Running one line faults at most when that starts a page not yet counted. */
  lemma LineFaults(m: Paging, j: Job, size: nat)
    requires Ok(m) && 1 <= size && Unfinished(j)
    ensures var m1 := Reference(m, NextPage(j, size));
      m1.faults + PagesLeft(Advance(j), size) - Resident(m1, Advance(j), size)
        <= m.faults + PagesLeft(j, size) - Resident(m, j, size)
  {
    var m1 := Reference(m, NextPage(j, size));
    assert m1.order[0] == NextPage(j, size);
    NextLine(j.pc, size);
    if !Unfinished(Advance(j)) {
      assert j.pc == |j.lines| - 1;
    }
  }

  lemma UsesStep(j: Job, size: nat)
    requires 1 <= size && Unfinished(j)
    ensures var uses := Uses(RestOf(j), size);
      uses != [] && uses[0] == Use(NextPage(j, size)) && uses[1..] == Uses(RestOf(Advance(j)), size)
  {
    RestOfStep(j);
    UsesConcat([Current(j)], RestOf(Advance(j)), size);
  }

  /** Once its page is in the store, running a line faults only where a page ends. */
  lemma {:induction false} RestFaults(m: Paging, j: Job, size: nat)
    requires Ok(m) && 1 <= size && j.pc <= |j.lines|
    ensures Run(m, Uses(RestOf(j), size)).faults <= m.faults + PagesLeft(j, size) - Resident(m, j, size)
    decreases |j.lines| - j.pc
  {
    if Unfinished(j) {
      LineFaults(m, j, size);
      StepOk(m, Use(NextPage(j, size)));
      RestFaults(Reference(m, NextPage(j, size)), Advance(j), size);
      UsesStep(j, size);
    }
  }

  /** Under FCFS the faults are at most as many as the pages of all files, for every number
      of frames. */
  lemma {:induction false} FcfsFaultsBounded(m: Paging, q: seq<Job>, size: nat)
    requires Ok(m) && 1 <= size && WithinFile(q)
    ensures Run(m, Uses(FcfsTrace(q), size)).faults <= m.faults + PagesLeftAll(q, size)
    decreases q
  {
    if q != [] {
      UsesConcat(RestOf(q[0]), FcfsTrace(q[1..]), size);
      RunConcat(m, Uses(RestOf(q[0]), size), Uses(FcfsTrace(q[1..]), size));
      RestFaults(m, q[0], size);
      RunOk(m, Uses(RestOf(q[0]), size));
      FcfsFaultsBounded(Run(m, Uses(RestOf(q[0]), size)), q[1..], size);
    }
  }
}

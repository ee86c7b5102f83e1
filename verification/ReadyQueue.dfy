/** src/scheduling/ready_queue.c: the PCBs that wait for the processor, linked by `next`. */
module ReadyQueues {
  import opened Recency
  import opened Jobs
  import opened JobSort
  import opened IdealSchedules
  import opened Pcbs

  ghost function Members(s: seq<PCB>): set<PCB> {
    set p | p in s
  }

  ghost function Views(s: seq<PCB>): (r: seq<Job>)
    reads s
    ensures |r| == |s|
  {
    seq(|s|, i requires 0 <= i < |s| reads s => s[i].View())
  }

  /** The processes `s` as the values `jobs`. */
  ghost predicate Shows(s: seq<PCB>, jobs: seq<Job>)
    reads Members(s)`programCounter, Members(s)`jobScore
  {
    |s| == |jobs| && forall i :: 0 <= i < |s| ==> s[i].View() == jobs[i]
  }

  lemma NoneShown()
    ensures Shows([], [])
  {
  }

  lemma ShowsViews(s: seq<PCB>, jobs: seq<Job>)
    ensures Shows(s, jobs) <==> Views(s) == jobs
  {
    assert Views(s) == jobs ==> forall i :: 0 <= i < |s| ==> Views(s)[i] == jobs[i];
  }

  lemma ShowsPrefix(s: seq<PCB>, jobs: seq<Job>, n: nat)
    requires Shows(s, jobs) && n <= |s|
    ensures n <= |jobs| && Shows(s[..n], jobs[..n])
  {
  }

  lemma ShowsCons(p: PCB, s: seq<PCB>, jobs: seq<Job>)
    requires Shows(s, jobs)
    ensures Shows([p] + s, [p.View()] + jobs)
  {
  }

  lemma ShowsAppend(p: PCB, s: seq<PCB>, jobs: seq<Job>)
    requires Shows(s, jobs)
    ensures Shows(s + [p], jobs + [p.View()])
  {
  }

  /** The slots hold the PCBs of `s`, and NULL behind them. */
  ghost predicate Holds(queue: array<PCB?>, s: seq<PCB>)
    reads queue
  {
    && queue.Length == MAX_NUM_PROGRAMS && |s| <= queue.Length
    && forall k :: 0 <= k < queue.Length ==> queue[k] == if k < |s| then s[k] else null
  }

  class ReadyQueue {
    var head: PCB?
    var processCount: nat
    ghost var contents: seq<PCB>

    /** Each PCB is linked once, the last one to nothing, and the count is the length. */
    ghost predicate Valid()
      reads this, Members(contents)`next
    {
      && processCount == |contents| && NoDup(contents)
      && (if contents == [] then head == null
          else head == contents[0] && contents[|contents| - 1].next == null)
      && forall i {:trigger contents[i].next} :: 0 <= i < |contents| - 1 ==> contents[i].next == contents[i + 1]
    }

    ghost function Jobs(): seq<Job>
      reads this, contents
    {
      Views(contents)
    }

    constructor ()
      ensures Valid() && contents == []
    {
      head, processCount, contents := null, 0, [];
    }

    /** The PCB whose link an append changes. */
    ghost function Last(): set<PCB>
      reads this
    {
      if contents == [] then {} else {contents[|contents| - 1]}
    }

    /** The PCB whose link a pop clears. */
    ghost function First(): set<PCB>
      reads this
    {
      if contents == [] then {} else {contents[0]}
    }

    /** append_process */
    method Append(pcb: PCB)
      requires Valid() && pcb !in contents && pcb.next == null
      modifies this, Last()`next
      ensures Valid() && contents == old(contents) + [pcb]
    {
      processCount := processCount + 1;
      if head == null {
        head := pcb;
        contents := [pcb];
        return;
      }
      var curr := head;
      ghost var i := 0;
      while curr.next != null
        invariant 0 <= i < |contents| && curr == contents[i]
        decreases |contents| - i
      {
        assert i < |contents| - 1;
        curr := curr.next;
        i := i + 1;
      }
      curr.next := pcb;
      contents := contents + [pcb];
    }

    /** appendleft_process */
    method AppendLeft(pcb: PCB)
      requires Valid() && pcb !in contents && pcb.next == null
      modifies this, pcb`next
      ensures Valid() && contents == [pcb] + old(contents)
    {
      processCount := processCount + 1;
      if head == null {
        head := pcb;
        contents := [pcb];
        return;
      }
      pcb.next := head;
      head := pcb;
      contents := [pcb] + contents;
      assert forall i :: 0 < i < |contents| ==> contents[i] == old(contents)[i - 1];
    }

    /** pop_process */
    method Pop() returns (popped: PCB?)
      requires Valid()
      modifies this, First()`next
      ensures Valid()
      ensures old(contents) == [] ==> popped == null && contents == []
      ensures old(contents) != [] ==>
                popped == old(contents)[0] && popped.next == null && contents == old(contents)[1..]
    {
      if head == null {
        return null;
      }
      popped := head;
      if |contents| > 1 { assert contents[0].next == contents[1]; }
      head := popped.next;
      popped.next := null;
      processCount := processCount - 1;
      contents := contents[1..];
    }

    /** peek_ready_queue */
    method Peek() returns (score: int)
      requires Valid()
      ensures score == if contents == [] then -1 else contents[0].jobScore
    {
      score := if head != null then head.jobScore else -1;
    }

    /** age_ready_queue: every score drops by one, but not below zero. */
    method Age()
      requires Valid()
      modifies Members(contents)`jobScore
      ensures Valid() && Jobs() == AgeQueue(old(Jobs()))
    {
      var curr := head;
      ghost var i := 0;
      while curr != null
        invariant 0 <= i <= |contents|
        invariant if i < |contents| then curr == contents[i] else curr == null
        invariant forall k :: 0 <= k < i ==> contents[k].jobScore == AgedScore(old(contents[k].jobScore))
        invariant forall k :: i <= k < |contents| ==> contents[k].jobScore == old(contents[k].jobScore)
        decreases |contents| - i
      {
        if curr.jobScore > 0 {
          curr.jobScore := curr.jobScore - 1;
        }
        if i < |contents| - 1 { assert contents[i].next == contents[i + 1]; }
        curr := curr.next;
        i := i + 1;
      }
      assert forall k :: 0 <= k < |contents| ==> Jobs()[k] == AgeQueue(old(Jobs()))[k];
    }

    /** sort_ready_queue: the first MAX_NUM_PROGRAMS processes are taken off, sorted by
        exchange, and put back behind whatever was left. */
    method Sort()
      requires Valid()
      modifies this, Members(contents)`next
      ensures Valid() && Jobs() == SortQueue(old(Jobs()))
      ensures multiset(contents) == multiset(old(contents))
    {
      ghost var before, jobs := contents, Jobs();
      var queue := new PCB?[MAX_NUM_PROGRAMS](i => null);
      ghost var sorted := TakeSorted(queue);
      AppendAll(queue, sorted, SortQueue(jobs));
    }

    /** The first two loops of sort_ready_queue: afterwards only the appending is left. */
    method TakeSorted(queue: array<PCB?>) returns (ghost sorted: seq<PCB>)
      requires Valid() && queue.Length == MAX_NUM_PROGRAMS
      modifies this, Members(contents)`next, queue
      ensures Valid() && Holds(queue, sorted) && NoDup(contents + sorted)
      ensures Shows(contents + sorted, SortQueue(old(Jobs())))
      ensures multiset(contents + sorted) == multiset(old(contents))
      ensures forall p :: p in sorted ==> p.next == null && p in old(contents)
      ensures forall p :: p in contents ==> p in old(contents)
    {
      ghost var before, jobs := contents, Jobs();
      ghost var n := Prefix(|contents|);
      ShowsViews(contents, jobs);
      PopInto(queue, jobs);
      sorted := SortSlots(queue, before, n, jobs);
      PutBack(before, n, sorted, jobs);
    }

    /** The exchange sort of the processes just popped. */
    method SortSlots(queue: array<PCB?>, ghost before: seq<PCB>, ghost n: nat, ghost jobs: seq<Job>)
      returns (ghost sorted: seq<PCB>)
      requires n <= |before| && Holds(queue, before[..n]) && Shows(before, jobs)
      modifies queue
      ensures Holds(queue, sorted) && multiset(sorted) == multiset(before[..n])
      ensures Shows(before, jobs) && Shows(sorted, Passes(jobs[..n], 0))
    {
      ShowsPrefix(before, jobs, n);
      sorted := ExchangeSort(queue, before[..n], jobs[..n]);
    }

    lemma ShowsJoined(before: seq<PCB>, n: nat, sorted: seq<PCB>, jobs: seq<Job>)
      requires n == Prefix(|before|) && Shows(before, jobs) && Shows(sorted, Passes(jobs[..n], 0))
      ensures Shows(before[n..] + sorted, SortQueue(jobs))
    {
      var all := before[n..] + sorted;
      forall i | 0 <= i < |all| ensures all[i].View() == SortQueue(jobs)[i] {
        if i < |before| - n { assert all[i] == before[n + i]; } else { assert all[i] == sorted[i - (|before| - n)]; }
      }
    }

    lemma PutBack(before: seq<PCB>, n: nat, sorted: seq<PCB>, jobs: seq<Job>)
      requires n == Prefix(|before|) && NoDup(before) && multiset(sorted) == multiset(before[..n])
      requires Shows(before, jobs) && Shows(sorted, Passes(jobs[..n], 0))
      requires forall p :: p in before[..n] ==> p.next == null
      ensures NoDup(before[n..] + sorted) && multiset(before[n..] + sorted) == multiset(before)
      ensures Shows(before[n..] + sorted, SortQueue(jobs))
      ensures forall p :: p in sorted ==> p.next == null && p in before
      ensures forall p :: p in before[n..] ==> p in before
    {
      assert before == before[..n] + before[n..];
      PermutedNoDup(before, before[n..] + sorted);
      forall p | p in sorted ensures p in before[..n] && p in before { assert p in multiset(sorted); }
      ShowsJoined(before, n, sorted, jobs);
    }

    /** The first loop of sort_ready_queue. */
    method PopInto(queue: array<PCB?>, ghost jobs: seq<Job>)
      requires Valid() && queue.Length == MAX_NUM_PROGRAMS && Shows(contents, jobs)
      modifies this, Members(contents)`next, queue
      ensures Valid() && contents == old(contents)[Prefix(|old(contents)|)..]
      ensures Holds(queue, old(contents)[..Prefix(|old(contents)|)]) && Shows(old(contents), jobs)
      ensures forall p :: p in old(contents)[..Prefix(|old(contents)|)] ==> p.next == null
    {
      hide Taken, Shows, Holds, ReadyQueue.Valid, NoDup, Members, First;
      ghost var before := contents;
      NoTwins();
      NoneTaken(before, queue[..]);
      for i := 0 to MAX_NUM_PROGRAMS
        invariant Valid() && contents == before[Least(i, |before|)..]
        invariant Taken(before, queue[..], i) && Shows(before, jobs)
      {
        FirstIsMember(before, i);
        PopSlot(queue, i, before, jobs);
      }
      AllTaken(queue, before);
    }

    lemma FirstIsMember(before: seq<PCB>, i: nat)
      requires contents == before[Least(i, |before|)..]
      ensures First() <= Members(before)
    {
    }

    lemma NoTwins()
      requires Valid()
      ensures NoDup(contents)
    {
    }

    lemma NoneTaken(before: seq<PCB>, slots: seq<PCB?>)
      ensures Taken(before, slots, 0)
    {
    }

    lemma AllTaken(queue: array<PCB?>, before: seq<PCB>)
      requires queue.Length == MAX_NUM_PROGRAMS && Taken(before, queue[..], MAX_NUM_PROGRAMS)
      ensures Holds(queue, before[..Prefix(|before|)])
      ensures forall p :: p in before[..Prefix(|before|)] ==> p.next == null
    {
      forall k | 0 <= k < queue.Length
        ensures queue[k] == if k < Prefix(|before|) then before[..Prefix(|before|)][k] else null
      {
        assert queue[k] == queue[..][k];
      }
    }

    function Least(a: nat, b: nat): nat {
      if a < b then a else b
    }

    /** The first `i` processes of `before` are in the first `i` slots, unlinked. */
    ghost predicate Taken(before: seq<PCB>, slots: seq<PCB?>, i: nat)
      reads Members(before)`next
    {
      && i <= |slots|
      && (forall x :: 0 <= x < i ==> slots[x] == if x < |before| then before[x] else null)
      && forall x :: 0 <= x < i && x < |before| ==> before[x].next == null
    }

    method PopSlot(queue: array<PCB?>, i: nat, ghost before: seq<PCB>, ghost jobs: seq<Job>)
      requires Valid() && i < queue.Length && NoDup(before) && contents == before[Least(i, |before|)..]
      requires Taken(before, queue[..], i) && Shows(before, jobs)
      modifies this, First()`next, queue
      ensures Valid() && contents == before[Least(i + 1, |before|)..]
      ensures Taken(before, queue[..], i + 1) && Shows(before, jobs)
    {
      hide Taken, Shows, ReadyQueue.Valid, NoDup, Least, Members, First;
      ghost var slots := queue[..];
      var popped := PopNext(slots, i, before, jobs);
      TakenMore(before, slots, i, popped);
      queue[i] := popped;
      assert queue[..] == slots[i := popped];
    }

    /** The next process of `before`, or NULL behind its end; those popped before stay
        unlinked. */
    method PopNext(ghost slots: seq<PCB?>, ghost i: nat, ghost before: seq<PCB>, ghost jobs: seq<Job>) returns (popped: PCB?)
      requires Valid() && NoDup(before) && contents == before[Least(i, |before|)..]
      requires Taken(before, slots, i) && Shows(before, jobs)
      modifies this, First()`next
      ensures Valid() && contents == before[Least(i + 1, |before|)..]
      ensures Taken(before, slots, i) && Shows(before, jobs)
      ensures popped == (if i < |before| then before[i] else null) && (popped != null ==> popped.next == null)
    {
      TailStep(before, i);
      hide Least, ReadyQueue.Valid;
      popped := Pop();
    }

    lemma TailStep(before: seq<PCB>, i: nat)
      ensures i < |before| ==>
        before[Least(i, |before|)..] == [before[i]] + before[Least(i + 1, |before|)..]
      ensures i >= |before| ==> before[Least(i, |before|)..] == before[Least(i + 1, |before|)..] == []
    {
    }

    lemma TakenMore(before: seq<PCB>, slots: seq<PCB?>, i: nat, popped: PCB?)
      requires Taken(before, slots, i) && i < |slots|
      requires popped == (if i < |before| then before[i] else null) && (popped != null ==> popped.next == null)
      ensures Taken(before, slots[i := popped], i + 1)
    {
    }

    /** The exchange sort over the slots that are not NULL. */
    method ExchangeSort(queue: array<PCB?>, ghost start: seq<PCB>, ghost jobs: seq<Job>) returns (ghost sorted: seq<PCB>)
      requires Holds(queue, start) && Shows(start, jobs)
      modifies queue
      ensures Holds(queue, sorted) && multiset(sorted) == multiset(start)
      ensures Shows(sorted, Passes(jobs, 0))
    {
      sorted := start;
      ghost var now := jobs;
      for i := 0 to MAX_NUM_PROGRAMS
        invariant Holds(queue, sorted) && |sorted| == |start| && multiset(sorted) == multiset(start)
        invariant Shows(sorted, now) && Passes(now, i) == Passes(jobs, 0)
      {
        sorted := ExchangePass(queue, i, sorted, now);
        now := if i < |now| then Pass(now, i, i) else now;
      }
    }

    /** The inner loop of the exchange sort. */
    method ExchangePass(queue: array<PCB?>, i: nat, ghost start: seq<PCB>, ghost jobs: seq<Job>)
      returns (ghost sorted: seq<PCB>)
      requires Holds(queue, start) && Shows(start, jobs) && i < MAX_NUM_PROGRAMS
      modifies queue
      ensures Holds(queue, sorted) && |sorted| == |start| && multiset(sorted) == multiset(start)
      ensures Shows(sorted, if i < |jobs| then Pass(jobs, i, i) else jobs)
    {
      sorted := start;
      ghost var now := jobs;
      for j := i to MAX_NUM_PROGRAMS
        invariant Holds(queue, sorted) && |sorted| == |start| && multiset(sorted) == multiset(start)
        invariant Shows(sorted, now)
        invariant if i < |jobs| then Pass(now, i, j) == Pass(jobs, i, i) else now == jobs
      {
        if queue[i] != null && queue[j] != null && queue[i].jobScore > queue[j].jobScore {
          sorted := SwapSlots(queue, i, j, sorted, now);
          now := Swap(now, i, j);
        }
      }
    }

    /** One exchange of two slots whose scores are out of order. */
    method SwapSlots(queue: array<PCB?>, i: nat, j: nat, ghost s: seq<PCB>, ghost jobs: seq<Job>) returns (ghost r: seq<PCB>)
      requires Holds(queue, s) && Shows(s, jobs) && i < |s| && j < |s| && s[i].jobScore > s[j].jobScore
      modifies queue
      ensures Holds(queue, r) && |r| == |s| && multiset(r) == multiset(s)
      ensures Shows(r, Swap(jobs, i, j))
      ensures jobs[i].score > jobs[j].score
    {
      assert s[i].View() == jobs[i] && s[j].View() == jobs[j];
      r := s[i := s[j]][j := s[i]];
      var tmp := queue[i];
      queue[i] := queue[j];
      queue[j] := tmp;
    }

    /** The last loop of sort_ready_queue. */
    method AppendAll(queue: array<PCB?>, ghost sorted: seq<PCB>, ghost jobs: seq<Job>)
      requires Valid() && Holds(queue, sorted) && NoDup(contents + sorted) && Shows(contents + sorted, jobs)
      requires forall p :: p in sorted ==> p.next == null
      modifies this, Members(contents)`next, Members(sorted)`next
      ensures Valid() && contents == old(contents) + sorted && Shows(contents, jobs)
    {
      ghost var before, all, k := contents, contents + sorted, 0;
      assert before + sorted[..0] == before;
      for i := 0 to queue.Length
        invariant Valid() && k == (if i < |sorted| then i else |sorted|) && contents == before + sorted[..k]
        invariant forall x :: k <= x < |sorted| ==> sorted[x].next == null
        invariant forall p :: p in contents ==> p in old(contents) || p in sorted
        invariant Shows(all, jobs)
      {
        if queue[i] != null {
          NextToAppend(before, sorted, k);
          Append(queue[i]);
          k := k + 1;
        }
      }
    }

    lemma NextToAppend(before: seq<PCB>, sorted: seq<PCB>, k: nat)
      requires NoDup(before + sorted) && k < |sorted|
      ensures sorted[k] !in before + sorted[..k]
      ensures before + sorted[..k] + [sorted[k]] == before + sorted[..k + 1]
      ensures forall x :: k < x < |sorted| ==> sorted[x] !in before + sorted[..k]
    {
      var all := before + sorted;
      forall x | k <= x < |sorted| ensures sorted[x] !in before + sorted[..k] {
        assert all[|before| + x] == sorted[x];
        assert before + sorted[..k] == all[..|before| + k];
      }
    }
  }
}

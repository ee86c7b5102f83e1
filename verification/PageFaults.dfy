/** How often each single page faults, and not just how many faults there are. */
module PageFaults {
  import opened Division
  import opened Recency
  import opened Jobs
  import opened JobSort
  import opened IdealSchedules

  function Misses(m: Paging, op: Op, p: PageId): nat {
    if op == Use(p) && p !in m.order then 1 else 0
  }

  /** The uses of page `p` that miss. */
  function FaultsOn(m: Paging, ops: seq<Op>, p: PageId): nat
    requires 1 <= m.cap
    decreases ops
  {
    if ops == [] then 0
    else Misses(m, ops[0], p) + FaultsOn(Step(m, ops[0]), ops[1..], p)
  }

  lemma {:induction false} FaultsOnConcat(m: Paging, a: seq<Op>, b: seq<Op>, p: PageId)
    requires 1 <= m.cap
    ensures FaultsOn(m, a + b, p) == FaultsOn(m, a, p) + FaultsOn(Run(m, a), b, p)
    decreases a
  {
    if a == [] {
      assert a + b == b;
    } else {
      assert (a + b)[0] == a[0] && (a + b)[1..] == a[1..] + b;
      FaultsOnConcat(Step(m, a[0]), a[1..], b, p);
    }
  }

  lemma {:induction false} UnusedNeverFaults(m: Paging, ops: seq<Op>, p: PageId)
    requires 1 <= m.cap && forall i :: 0 <= i < |ops| ==> ops[i] != Use(p)
    ensures FaultsOn(m, ops, p) == 0
    decreases ops
  {
    if ops != [] {
      UnusedNeverFaults(Step(m, ops[0]), ops[1..], p);
    }
  }

  /** The misses on the pages of a list. */
  function FaultsOver(m: Paging, ops: seq<Op>, pages: seq<PageId>): nat
    requires 1 <= m.cap
    decreases pages
  {
    if pages == [] then 0 else FaultsOn(m, ops, pages[0]) + FaultsOver(m, ops, pages[1..])
  }

  function MissesOver(m: Paging, op: Op, pages: seq<PageId>): nat
    decreases pages
  {
    if pages == [] then 0 else Misses(m, op, pages[0]) + MissesOver(m, op, pages[1..])
  }

  lemma {:induction false} NothingMissed(m: Paging, op: Op, pages: seq<PageId>)
    requires op.Pre? || op.page !in pages || op.page in m.order
    ensures MissesOver(m, op, pages) == 0
    decreases pages
  {
    if pages != [] { NothingMissed(m, op, pages[1..]); }
  }

  lemma {:induction false} MissedOnce(m: Paging, p: PageId, pages: seq<PageId>)
    requires NoDup(pages) && p in pages && p !in m.order
    ensures MissesOver(m, Use(p), pages) == 1
    decreases pages
  {
    if pages[0] == p {
      assert p !in pages[1..];
      NothingMissed(m, Use(p), pages[1..]);
    } else {
      MissedOnce(m, p, pages[1..]);
    }
  }

  lemma {:induction false} FaultsOverStep(m: Paging, ops: seq<Op>, pages: seq<PageId>)
    requires 1 <= m.cap && ops != []
    ensures FaultsOver(m, ops, pages) == MissesOver(m, ops[0], pages) + FaultsOver(Step(m, ops[0]), ops[1..], pages)
    decreases pages
  {
    if pages != [] { FaultsOverStep(m, ops, pages[1..]); }
  }

  /** No operation means no fault on any page. */
  lemma {:induction false} NoFaultsOver(m: Paging, pages: seq<PageId>)
    requires 1 <= m.cap
    ensures FaultsOver(m, [], pages) == 0
    decreases pages
  {
    if pages != [] { NoFaultsOver(m, pages[1..]); }
  }

  /** The faults of a run are those of its pages: over any list of different pages that has
      all that are used, the misses add up to what the fault counter gains. */
  lemma {:induction false} FaultsAddUp(m: Paging, ops: seq<Op>, pages: seq<PageId>)
    requires 1 <= m.cap && NoDup(pages) && forall i :: 0 <= i < |ops| && ops[i].Use? ==> ops[i].page in pages
    ensures Run(m, ops).faults == m.faults + FaultsOver(m, ops, pages)
    decreases ops
  {
    hide NoDup, FaultsOver, MissesOver;
    if ops == [] {
      NoFaultsOver(m, pages);
    } else {
      FaultsOverStep(m, ops, pages);
      if ops[0].Use? && ops[0].page !in m.order {
        assert ops[0].page in pages;
        MissedOnce(m, ops[0].page, pages);
      } else {
        NothingMissed(m, ops[0], pages);
      }
      FaultsAddUp(Step(m, ops[0]), ops[1..], pages);
    }
  }

  lemma UsedIsThere(m: Paging, p: PageId)
    requires 1 <= m.cap
    ensures p in Reference(m, p).order
  {
    assert Reference(m, p).order[0] == p;
  }

  /** A process running its file to the end never uses a page that lies behind it; the page
      it stands on does not fault again once it is there; any other page faults at most
      once. */
  lemma {:induction false} RestFaultsOn(m: Paging, j: Job, size: nat, p: PageId)
    requires Ok(m) && 1 <= size && j.pc <= |j.lines|
    ensures var n := FaultsOn(m, Uses(RestOf(j), size), p);
      && n <= 1
      && (p.pid != j.pid || p.page < j.pc / size ==> n == 0)
      && (p == NextPage(j, size) && p in m.order ==> n == 0)
    decreases |j.lines| - j.pc
  {
    hide RestOf, Uses, MoveToFront, NoDup;
    if Unfinished(j) {
      var m1 := Reference(m, NextPage(j, size));
      StepOk(m, Use(NextPage(j, size)));
      NextLine(j.pc, size);
      UsesStep(j, size);
      UsedIsThere(m, NextPage(j, size));
      RestFaultsOn(m1, Advance(j), size, p);
    }
  }

  /** Under FCFS no page of any process faults twice, for every number of frames. */
  lemma {:induction false} FcfsFaultsOncePerPage(m: Paging, q: seq<Job>, size: nat, p: PageId)
    requires Ok(m) && 1 <= size && WithinFile(q) && DistinctPids(q)
    ensures FaultsOn(m, Uses(FcfsTrace(q), size), p) <= 1
    decreases q
  {
    if q != [] {
      var first, rest := Uses(RestOf(q[0]), size), Uses(FcfsTrace(q[1..]), size);
      UsesConcat(RestOf(q[0]), FcfsTrace(q[1..]), size);
      FaultsOnConcat(m, first, rest, p);
      RunOk(m, first);
      RestFaultsOn(m, q[0], size, p);
      if p.pid == q[0].pid {
        OthersNeverUse(q, size, p);
        UnusedNeverFaults(Run(m, first), rest, p);
      } else {
        FcfsFaultsOncePerPage(Run(m, first), q[1..], size, p);
      }
    }
  }

  lemma OthersNeverUse(q: seq<Job>, size: nat, p: PageId)
    requires 1 <= size && WithinFile(q) && DistinctPids(q) && q != [] && p.pid == q[0].pid
    ensures forall i :: 0 <= i < |FcfsTrace(q[1..])| ==> Uses(FcfsTrace(q[1..]), size)[i] != Use(p)
  {
    var trace := FcfsTrace(q[1..]);
    FcfsPids(q[1..]);
    forall i | 0 <= i < |trace| ensures Uses(trace, size)[i] != Use(p) {
      assert trace[i] in trace;
      var j :| j in q[1..] && j.pid == trace[i].pid;
    }
  }

  /** The same for SJF, which is FCFS on the sorted queue. */
  lemma SjfFaultsOncePerPage(m: Paging, q: seq<Job>, size: nat, p: PageId)
    requires Ok(m) && 1 <= size && WithinFile(q) && DistinctPids(q)
    ensures FaultsOn(m, Uses(SjfTrace(q), size), p) <= 1
  {
    SortQueuePermutes(q);
    DistinctPermuted(q, SortQueue(q));
    FcfsFaultsOncePerPage(m, SortQueue(q), size, p);
  }
}

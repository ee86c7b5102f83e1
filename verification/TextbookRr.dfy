/** Round robin by the book, on processes that are held whole in memory, and where the
    scheduler with paging agrees with it: on scripts whose pages are all loaded. */
module TextbookRr {
  import opened Recency
  import opened Jobs
  import opened RoundRobin
  import opened Processes
  import opened Sessions

  /** A job after at most `slice` more lines. */
  function AfterSlice(j: Job, slice: nat): (r: Job)
    requires j.pc <= |j.lines|
    ensures j.pc <= r.pc <= |j.lines| && r == j.(pc := r.pc)
  {
    j.(pc := if |j.lines| - j.pc <= slice then |j.lines| else j.pc + slice)
  }

  /** The queue after a turn of its head. */
  function Rotated(q: seq<Job>, slice: nat): seq<Job>
    requires q != [] && q[0].pc <= |q[0].lines|
  {
    var j := AfterSlice(q[0], slice);
    q[1..] + (if Unfinished(j) then [j] else [])
  }

  lemma RotatedLess(q: seq<Job>, slice: nat)
    requires q != [] && WithinFile(q) && 1 <= slice && q[0].pc <= |q[0].lines|
    ensures WithinFile(Rotated(q, slice))
    ensures Remaining(Rotated(q, slice)) + |Rotated(q, slice)| < Remaining(q) + |q|
  {
    LessRemaining(q, AfterSlice(q[0], slice));
    forall j | j in Rotated(q, slice) ensures j.pc <= |j.lines| {
      assert j in q[1..] ==> j in q;
    }
  }

  /** Each process in turn runs a slice of its file, or what is left of it, and goes to the
      end of the queue unless it is finished. */
  function Textbook(q: seq<Job>, slice: nat): seq<Event>
    requires WithinFile(q) && 1 <= slice
    decreases Remaining(q) + |q|
  {
    if q == [] then []
    else
      assert q[0] in q;
      RotatedLess(q, slice);
      RestOf(q[0])[..AfterSlice(q[0], slice).pc - q[0].pc] + Textbook(Rotated(q, slice), slice)
  }

  /** Two stores with the same pages and the same faults. */
  ghost predicate SamePages(a: Paging, b: Paging) {
    a.cap == b.cap && a.faults == b.faults && forall p :: p in a.order <==> p in b.order
  }

  lemma LineKeepsPages(r: Running, size: nat)
    requires 1 <= size && Ok(r.mem) && Unfinished(r.job) && NextPage(r.job, size) in r.mem.order
    ensures SamePages(r.mem, RunLine(r, size).mem) && Ok(RunLine(r, size).mem)
  {
    PromoteKeeps(r.mem.order, IndexOf(r.mem.order, NextPage(r.job, size)));
  }

  lemma ResidentStep(r: Running, size: nat)
    requires 1 <= size && Ok(r.mem) && Unfinished(r.job) && AllResident(r.mem, r.job, size)
    ensures NextPage(r.job, size) in r.mem.order && AllResident(RunLine(r, size).mem, Advance(r.job), size)
  {
    assert PageId(r.job.pid, r.job.pc / size) in r.mem.order;
    AllResidentStep(r, size);
  }

  /** A turn of a process whose pages are all there is a turn by the book. */
  lemma {:induction false} ResidentSlice(r: Running, size: nat, n: nat)
    requires 1 <= size && Ok(r.mem) && r.job.pc <= |r.job.lines| && AllResident(r.mem, r.job, size)
    ensures Slice(r, size, n).job == AfterSlice(r.job, n) && SamePages(r.mem, Slice(r, size, n).mem)
    decreases n
  {
    hide SamePages, AllResident, NoDup, RunLine;
    if n > 0 && Unfinished(r.job) {
      ResidentStep(r, size);
      FirstLine(r, size, n);
      LineKeepsPages(r, size);
      ResidentSlice(RunLine(r, size), size, n - 1);
      SamePagesTwice(r.mem, RunLine(r, size).mem, Slice(r, size, n).mem);
    } else {
      SamePagesSelf(r.mem);
    }
  }

  lemma SamePagesSelf(a: Paging)
    ensures SamePages(a, a)
  {
  }

  lemma SamePagesTwice(a: Paging, b: Paging, c: Paging)
    requires SamePages(a, b) && SamePages(b, c)
    ensures SamePages(a, c)
  {
  }

  ghost predicate QueueResident(m: Paging, q: seq<Job>, size: nat)
    requires 1 <= size
  {
    forall j :: j in q ==> AllResident(m, j, size)
  }

  lemma ResidentTurn(s: System, size: nat, slice: nat)
    requires Good(s, size, slice) && s.queue != [] && QueueResident(s.mem, s.queue, size)
    ensures var t := Turn(s, size, slice); var h := s.queue[0];
      && h.pc <= |h.lines| && t.queue == Rotated(s.queue, slice) && SamePages(s.mem, t.mem)
      && t.trace == s.trace + RestOf(h)[..AfterSlice(h, slice).pc - h.pc]
      && QueueResident(t.mem, t.queue, size)
  {
    hide Slice, RestOf, NoDup;
    var h := s.queue[0];
    assert h in s.queue;
    var r := Running(h, s.mem, s.trace);
    SliceFacts(r, size, slice);
    ResidentSlice(r, size, slice);
    StillResident(s.mem, HeadTurn(s, size, slice).mem, s.queue, size, slice);
  }

  lemma StillResident(m: Paging, t: Paging, q: seq<Job>, size: nat, slice: nat)
    requires 1 <= size && q != [] && q[0].pc <= |q[0].lines| && QueueResident(m, q, size) && SamePages(m, t)
    ensures QueueResident(t, Rotated(q, slice), size)
  {
    forall j | j in Rotated(q, slice) ensures AllResident(t, j, size) {
      assert AllResident(m, q[0], size) by { assert q[0] in q; }
      if j in q[1..] { assert j in q; }
    }
  }

  /** While every page is there, round robin with paging is round robin by the book, and
      nothing faults. */
  lemma {:induction false} ResidentIsTextbook(s: System, size: nat, slice: nat, n: nat)
    requires Good(s, size, slice) && QueueResident(s.mem, s.queue, size) && Turns(s, size, slice, n).queue == []
    ensures Turns(s, size, slice, n).trace == s.trace + Textbook(s.queue, slice)
    ensures Turns(s, size, slice, n).mem.faults == s.mem.faults
    decreases n
  {
    hide Turn, Turns, RestOf, QueueResident, Rotated, AfterSlice, Textbook, DistinctPids, NoDup, WithinFile;
    TurnsStep(s, size, slice, n);
    if n > 0 && s.queue != [] {
      ResidentTurn(s, size, slice);
      ResidentIsTextbook(Turn(s, size, slice), size, slice, n - 1);
      TextbookStep(s.queue, slice);
      Associate2(s.trace, RestOf(s.queue[0])[..AfterSlice(s.queue[0], slice).pc - s.queue[0].pc],
                 Textbook(Rotated(s.queue, slice), slice));
    } else {
      NothingByTheBook(slice);
    }
  }

  lemma TurnsStep(s: System, size: nat, slice: nat, n: nat)
    requires Good(s, size, slice)
    ensures n == 0 || s.queue == [] ==> Turns(s, size, slice, n) == s
    ensures (n > 0 && s.queue != []) ==> Good(Turn(s, size, slice), size, slice)
    ensures (n > 0 && s.queue != []) ==> Turns(s, size, slice, n) == Turns(Turn(s, size, slice), size, slice, n - 1)
  {
    if n > 0 && s.queue != [] { TurnGood(s, size, slice); }
  }

  lemma TextbookStep(q: seq<Job>, slice: nat)
    requires WithinFile(q) && 1 <= slice && q != []
    ensures q[0].pc <= |q[0].lines| && WithinFile(Rotated(q, slice))
    ensures Textbook(q, slice) == RestOf(q[0])[..AfterSlice(q[0], slice).pc - q[0].pc] + Textbook(Rotated(q, slice), slice)
  {
    hide Rotated, AfterSlice, RestOf, Remaining;
    assert q[0] in q;
    RotatedLess(q, slice);
  }

  lemma Associate2(a: seq<Event>, b: seq<Event>, c: seq<Event>)
    ensures a + (b + c) == a + b + c
  {
  }

  lemma NothingByTheBook(slice: nat)
    requires 1 <= slice
    ensures Textbook([], slice) == []
  {
  }

  // ----- exec

  /** One of the first two pages of one of the scripts. */
  predicate FirstPage(p: PageId, scripts: seq<seq<Line>>, pid: nat, size: nat) {
    pid <= p.pid < pid + |scripts| && p.page < 2 && p.page * size < |scripts[p.pid - pid]|
  }

  /** `r` is `m` with the first pages of all scripts loaded. */
  ghost predicate LoadedAll(m: Paging, scripts: seq<seq<Line>>, pid: nat, size: nat, r: Paging) {
    && Ok(r) && r.cap == m.cap && r.faults == m.faults && |r.order| <= |m.order| + 2 * |scripts|
    && forall p :: p in r.order <==> p in m.order || FirstPage(p, scripts, pid, size)
  }

  lemma OneLoaded(m: Paging, pid: nat, length: nat, size: nat)
    requires Ok(m) && 1 <= size && |m.order| + 2 <= m.cap && forall p :: p in m.order ==> p.pid != pid
    ensures var r := Run(m, PreloadOps(pid, length, size));
      && Ok(r) && r.cap == m.cap && r.faults == m.faults && |r.order| <= |m.order| + 2
      && forall p :: p in r.order <==> p in m.order || (p.pid == pid && p.page < 2 && p.page * size < length)
  {
    CodeLoading(m, pid, length, size);
    LoadedIs(m, length, size);
    RunOk(m, PreloadOps(pid, length, size));
    assert 0 * size == 0 && 1 * size == size;
    hide Run, PreloadOps, Loaded;
  }

  /** With enough free frames code loading brings in the first two pages of every script, and
      nothing leaves the store. */
  lemma {:induction false} FirstPagesLoaded(m: Paging, scripts: seq<seq<Line>>, pid: nat, size: nat)
    requires Ok(m) && 1 <= size && |m.order| + 2 * |scripts| <= m.cap && forall p :: p in m.order ==> p.pid < pid
    ensures LoadedAll(m, scripts, pid, size, Run(m, Preloads(scripts, pid, size)))
    decreases |scripts|
  {
    hide Run, PreloadOps, NoDup;
    if scripts != [] {
      var n := |scripts| - 1;
      FirstPagesLoaded(m, scripts[..n], pid, size);
      OneMoreScript(m, scripts, n, pid, size);
      assert scripts[..n + 1] == scripts;
      var before := Run(m, Preloads(scripts[..n], pid, size));
      OneLoaded(before, pid + n, |scripts[n]|, size);
    } else {
      NoScripts(m, pid, size);
    }
  }

  lemma LoadedIsResident(m: Paging, scripts: seq<seq<Line>>, pid: nat, size: nat, r: Paging)
    requires 1 <= size && LoadedAll(m, scripts, pid, size, r) && forall f :: f in scripts ==> |f| <= 2 * size
    ensures QueueResident(r, JobsOf(scripts, pid), size)
  {
    forall j | j in JobsOf(scripts, pid) ensures AllResident(r, j, size) {
      var a :| 0 <= a < |scripts| && JobsOf(scripts, pid)[a] == j;
      assert scripts[a] in scripts;
      forall l: nat | j.pc <= l < |j.lines| ensures PageId(j.pid, l / size) in r.order {
        PageOfLine(l, size);
        assert FirstPage(PageId(j.pid, l / size), scripts, pid, size);
      }
    }
  }

  lemma PageOfLine(l: nat, size: nat)
    requires 1 <= size && l < 2 * size
    ensures l / size < 2 && l / size * size <= l
  {
  }

  /** Scripts of at most two pages each, on a store with two free frames for each: exec with RR
      runs them as round robin by the book does, and nothing faults. */
  lemma ShortScriptsByTheBook(m: Paging, trace: seq<Event>, scripts: seq<seq<Line>>, pid: nat, size: nat, slice: nat,
                              after: Paging, ran: seq<Event>)
    requires Ok(m) && |m.order| + 2 * |scripts| <= m.cap && forall p :: p in m.order ==> p.pid < pid
    requires 1 <= size && forall f :: f in scripts ==> |f| <= 2 * size
    requires RrLeadsTo(m, trace, scripts, pid, size, slice, after, ran)
    ensures 1 <= slice && WithinFile(JobsOf(scripts, pid))
    ensures ran == trace + Textbook(JobsOf(scripts, pid), slice) && after.faults == m.faults
  {
    hide Turns, Textbook, JobsOf, QueueResident, NoDup, Preloads, Run;
    var s := RrStart(m, trace, scripts, pid, size);
    FirstPagesLoaded(m, scripts, pid, size);
    LoadedIsResident(m, scripts, pid, size, s.mem);
    var n: nat :| System([], after, ran) == Turns(s, size, slice, n);
    ResidentIsTextbook(s, size, slice, n);
  }
}

/** scheduler_rr of src/scheduling/scheduler.c as a state machine whose step is one turn
    of the outer loop. A fault ends the turn, so the schedule depends on the paging, and
    the machine need not stop. */
module RoundRobin {
  import opened Recency
  import opened Jobs

  /** The ready queue, the paged memory and the lines run so far. */
  datatype System = System(queue: seq<Job>, mem: Paging, trace: seq<Event>)

  /** The process that holds the processor. */
  datatype Running = Running(job: Job, mem: Paging, trace: seq<Event>)

  function RunLine(r: Running, size: nat): Running
    requires 1 <= size && 1 <= r.mem.cap && Unfinished(r.job)
  {
    Running(Advance(r.job), Reference(r.mem, NextPage(r.job, size)), r.trace + [Current(r.job)])
  }

  /** At most `n` more lines of the turn: a page that is absent is loaded and ends it. */
  function Slice(r: Running, size: nat, n: nat): Running
    requires 1 <= size && 1 <= r.mem.cap
    decreases n
  {
    if n == 0 || !Unfinished(r.job) then r
    else if NextPage(r.job, size) !in r.mem.order then
      r.(mem := Reference(r.mem, NextPage(r.job, size)))
    else Slice(RunLine(r, size), size, n - 1)
  }

  lemma SliceOver(r: Running, size: nat)
    requires 1 <= size && 1 <= r.mem.cap
    ensures Slice(r, size, 0) == r
  {
  }

  function HeadTurn(s: System, size: nat, slice: nat): Running
    requires 1 <= size && 1 <= s.mem.cap && s.queue != []
  {
    Slice(Running(s.queue[0], s.mem, s.trace), size, slice)
  }

  function Turn(s: System, size: nat, slice: nat): System
    requires 1 <= size && 1 <= s.mem.cap && s.queue != []
  {
    var r := HeadTurn(s, size, slice);
    System(s.queue[1..] + (if Unfinished(r.job) then [r.job] else []), r.mem, r.trace)
  }

  ghost predicate Good(s: System, size: nat, slice: nat) {
    1 <= size && 1 <= slice && Ok(s.mem) && WithinFile(s.queue) && DistinctPids(s.queue)
  }

  lemma {:induction false} SliceKeepsJob(r: Running, size: nat, n: nat)
    requires 1 <= size && Ok(r.mem) && r.job.pc <= |r.job.lines|
    ensures var t := Slice(r, size, n);
      && Ok(t.mem) && t.mem.cap == r.mem.cap
      && t.job == r.job.(pc := t.job.pc)
      && r.job.pc <= t.job.pc <= r.job.pc + n && t.job.pc <= |r.job.lines|
    decreases n
  {
    if n > 0 && Unfinished(r.job) {
      StepOk(r.mem, Use(NextPage(r.job, size)));
      if NextPage(r.job, size) in r.mem.order {
        SliceKeepsJob(RunLine(r, size), size, n - 1);
      }
    }
  }

  lemma RestOfPrefix(j: Job, c: nat)
    requires Unfinished(j) && c <= |j.lines| - j.pc - 1
    ensures RestOf(j)[..c + 1] == [Current(j)] + RestOf(Advance(j))[..c]
  {
  }

  lemma Associate(a: seq<Event>, e: Event, b: seq<Event>)
    ensures a + [e] + b == a + ([e] + b)
  {
  }

  /** The lines of `j` run between two points of a turn are what the trace gained. */
  ghost predicate Grew(before: seq<Event>, j: Job, after: seq<Event>, pc: nat) {
    j.pc <= pc <= |j.lines| && after == before + RestOf(j)[..pc - j.pc]
  }

  lemma GrewLine(before: seq<Event>, j: Job, after: seq<Event>, pc: nat)
    requires Unfinished(j) && Grew(before + [Current(j)], Advance(j), after, pc)
    ensures Grew(before, j, after, pc)
  {
    var c: nat := pc - j.pc - 1;
    RestOfPrefix(j, c);
    Associate(before, Current(j), RestOf(Advance(j))[..c]);
  }

  lemma {:induction false} SliceTrace(r: Running, size: nat, n: nat)
    requires 1 <= size && Ok(r.mem) && r.job.pc <= |r.job.lines|
    ensures Grew(r.trace, r.job, Slice(r, size, n).trace, Slice(r, size, n).job.pc)
    decreases n
  {
    if n > 0 && Unfinished(r.job) && NextPage(r.job, size) in r.mem.order {
      StepOk(r.mem, Use(NextPage(r.job, size)));
      SliceTrace(RunLine(r, size), size, n - 1);
      GrewLine(r.trace, r.job, Slice(r, size, n).trace, Slice(r, size, n).job.pc);
    }
  }

  lemma SliceFacts(r: Running, size: nat, n: nat)
    requires 1 <= size && Ok(r.mem) && r.job.pc <= |r.job.lines|
    ensures var t := Slice(r, size, n);
      && Ok(t.mem) && t.mem.cap == r.mem.cap
      && t.job == r.job.(pc := t.job.pc)
      && r.job.pc <= t.job.pc <= r.job.pc + n && t.job.pc <= |r.job.lines|
      && t.trace == r.trace + RestOf(r.job)[..t.job.pc - r.job.pc]
  {
    SliceKeepsJob(r, size, n);
    SliceTrace(r, size, n);
  }

  lemma TurnGood(s: System, size: nat, slice: nat)
    requires Good(s, size, slice) && s.queue != []
    ensures Good(Turn(s, size, slice), size, slice)
    ensures Turn(s, size, slice).mem.cap == s.mem.cap
    ensures |s.queue| - 1 <= |Turn(s, size, slice).queue| <= |s.queue|
  {
    assert s.queue[0] in s.queue;
    SliceFacts(Running(s.queue[0], s.mem, s.trace), size, slice);
    forall j | j in Turn(s, size, slice).queue ensures j.pc <= |j.lines| {
      assert j in s.queue[1..] ==> j in s.queue;
    }
  }

  /** Up to `n` turns, stopping when the queue is empty. */
  function Turns(s: System, size: nat, slice: nat, n: nat): (r: System)
    requires Good(s, size, slice)
    ensures Good(r, size, slice) && r.mem.cap == s.mem.cap && |r.queue| <= |s.queue|
    decreases n
  {
    if n == 0 || s.queue == [] then s
    else
      TurnGood(s, size, slice);
      Turns(Turn(s, size, slice), size, slice, n - 1)
  }

  lemma {:induction false} TurnsAdd(s: System, size: nat, slice: nat, a: nat, b: nat)
    requires Good(s, size, slice)
    ensures Turns(s, size, slice, a + b) == Turns(Turns(s, size, slice, a), size, slice, b)
    decreases a
  {
    if s.queue == [] {
    } else if a > 0 {
      TurnGood(s, size, slice);
      var t := Turn(s, size, slice);
      TurnsAdd(t, size, slice, a - 1, b);
      assert Turns(s, size, slice, a + b) == Turns(t, size, slice, a + b - 1);
      assert Turns(s, size, slice, a) == Turns(t, size, slice, a - 1);
    }
  }

  ghost predicate Terminates(s: System, size: nat, slice: nat)
    requires Good(s, size, slice)
  {
    exists n: nat :: Turns(s, size, slice, n).queue == []
  }

  // ----- Every turn runs a stretch of one file, in order.

  /** `k` is the process that started as `j`, still in the queue: it has run the lines
      from where `j` stood up to its own program counter. */
  ghost predicate Live(j: Job, before: seq<Event>, s: System, k: Job)
    requires j.pc <= |j.lines|
  {
    && k in s.queue && k == j.(pc := k.pc) && j.pc <= k.pc <= |j.lines|
    && Project(s.trace, j.pid) == before + RestOf(j)[..k.pc - j.pc]
  }

  /** The process that started as `j` has left the queue, with all its lines run. */
  ghost predicate Gone(j: Job, before: seq<Event>, s: System)
    requires j.pc <= |j.lines|
  {
    && (forall k :: k in s.queue ==> k.pid != j.pid)
    && Project(s.trace, j.pid) == before + RestOf(j)
  }

  ghost predicate Tracks(j: Job, before: seq<Event>, s: System)
    requires j.pc <= |j.lines|
  {
    (exists k :: Live(j, before, s, k)) || Gone(j, before, s)
  }

  lemma RestOfSplit(j: Job, a: nat, b: nat)
    requires j.pc <= a <= b <= |j.lines|
    ensures RestOf(j)[..b - j.pc] == RestOf(j)[..a - j.pc] + RestOf(j.(pc := a))[..b - a]
  {
  }

  lemma TurnProject(s: System, size: nat, slice: nat, pid: nat)
    requires Good(s, size, slice) && s.queue != [] && s.queue[0] in s.queue
    ensures var r := HeadTurn(s, size, slice); var h := s.queue[0];
      && r.job == h.(pc := r.job.pc) && h.pc <= r.job.pc <= |h.lines|
      && Project(r.trace, pid) == Project(s.trace, pid) + (if h.pid == pid then RestOf(h)[..r.job.pc - h.pc] else [])
  {
    var h := s.queue[0];
    SliceFacts(Running(h, s.mem, s.trace), size, slice);
    var ran := RestOf(h)[..HeadTurn(s, size, slice).job.pc - h.pc];
    ProjectConcat(s.trace, ran, pid);
    if h.pid == pid { ProjectOwn(ran, pid); } else { ProjectOther(ran, pid); }
  }

  lemma TurnOwn(j: Job, before: seq<Event>, s: System, size: nat, slice: nat)
    requires Good(s, size, slice) && s.queue != []
    requires j.pc <= |j.lines| && Live(j, before, s, s.queue[0])
    ensures Tracks(j, before, Turn(s, size, slice))
  {
    var h := s.queue[0];
    TurnProject(s, size, slice, j.pid);
    var r := HeadTurn(s, size, slice);
    RestOfSplit(j, h.pc, r.job.pc);
    assert Project(r.trace, j.pid) == before + RestOf(j)[..r.job.pc - j.pc];
    TurnOwnQueue(j, before, s, size, slice, r);
  }

  lemma TurnOwnQueue(j: Job, before: seq<Event>, s: System, size: nat, slice: nat, r: Running)
    requires Good(s, size, slice) && s.queue != [] && r == HeadTurn(s, size, slice)
    requires j.pc <= r.job.pc <= |j.lines| && r.job == j.(pc := r.job.pc) && s.queue[0].pid == j.pid
    requires Project(r.trace, j.pid) == before + RestOf(j)[..r.job.pc - j.pc]
    ensures Tracks(j, before, Turn(s, size, slice))
  {
    var t := Turn(s, size, slice);
    if Unfinished(r.job) {
      assert t.queue[|t.queue| - 1] == r.job;
      assert Live(j, before, t, r.job);
    } else {
      assert RestOf(j)[..|j.lines| - j.pc] == RestOf(j);
      assert forall k :: k in t.queue ==> k.pid != j.pid;
      assert Gone(j, before, t);
    }
  }

  lemma TurnTracks(j: Job, before: seq<Event>, s: System, size: nat, slice: nat)
    requires Good(s, size, slice) && s.queue != []
    requires j.pc <= |j.lines| && Tracks(j, before, s)
    ensures Tracks(j, before, Turn(s, size, slice))
  {
    var h, t := s.queue[0], Turn(s, size, slice);
    TurnProject(s, size, slice, j.pid);
    if Gone(j, before, s) {
      assert forall k :: k in s.queue[1..] ==> k in s.queue;
      assert Gone(j, before, t);
    } else {
      var k :| Live(j, before, s, k);
      if k == h {
        TurnOwn(j, before, s, size, slice);
      } else {
        assert k in s.queue[1..];
        assert Live(j, before, t, k);
      }
    }
  }

  /** For every number of frames, and after any number of turns, each process has run
      exactly the lines of its file up to its program counter, in order. */
  lemma {:induction false} RunsPrefixes(j: Job, before: seq<Event>, s: System, size: nat, slice: nat, n: nat)
    requires Good(s, size, slice) && j.pc <= |j.lines| && Tracks(j, before, s)
    ensures Tracks(j, before, Turns(s, size, slice, n))
    decreases n
  {
    if n > 0 && s.queue != [] {
      TurnGood(s, size, slice);
      TurnTracks(j, before, s, size, slice);
      RunsPrefixes(j, before, Turn(s, size, slice), size, slice, n - 1);
    }
  }

  /** A process that is not in the queue runs nothing. */
  lemma OthersRunNothing(s: System, size: nat, slice: nat, n: nat, pid: nat)
    requires Good(s, size, slice) && forall k :: k in s.queue ==> k.pid != pid
    ensures Project(Turns(s, size, slice, n).trace, pid) == Project(s.trace, pid)
  {
    var nobody, before := Job(pid, [], 0, 0), Project(s.trace, pid);
    assert RestOf(nobody) == [] && before + [] == before;
    assert Gone(nobody, before, s);
    RunsPrefixes(nobody, before, s, size, slice, n);
  }

  // ----- Enough frames: no two rounds pass without a line run.

  /** The last `k` processes of the queue have their next pages in front, latest first. */
  ghost predicate Warm(s: System, size: nat, k: nat)
    requires 1 <= size
  {
    && k <= |s.queue| && k <= |s.mem.order|
    && forall i :: 0 <= i < k ==> s.mem.order[i] == NextPage(s.queue[|s.queue| - 1 - i], size)
  }

  /** Lines and processes still in the queue. */
  function Work(s: System): nat {
    Remaining(s.queue) + |s.queue|
  }

  /** A resident next page means at least one line is run. */
  lemma SliceRuns(r: Running, size: nat, n: nat)
    requires 1 <= size && Ok(r.mem) && n > 0 && Unfinished(r.job) && NextPage(r.job, size) in r.mem.order
    ensures Slice(r, size, n).job.pc > r.job.pc
  {
    hide Reference, NoDup;
    StepOk(r.mem, Use(NextPage(r.job, size)));
    SliceKeepsJob(RunLine(r, size), size, n - 1);
  }

  lemma LessRemaining(q: seq<Job>, j: Job)
    requires q != [] && q[0].pc <= j.pc <= |q[0].lines| && j == q[0].(pc := j.pc)
    requires Unfinished(q[0]) ==> q[0].pc < j.pc
    ensures var left := q[1..] + (if Unfinished(j) then [j] else []);
      Remaining(left) + |left| < Remaining(q) + |q|
  {
    RemainingConcat(q[1..], if Unfinished(j) then [j] else []);
    assert Remaining([j]) == (if Unfinished(j) then |j.lines| - j.pc else 0) + Remaining([]);
  }

  lemma TurnWork(s: System, size: nat, slice: nat)
    requires Good(s, size, slice) && s.queue != []
    requires !Unfinished(s.queue[0]) || NextPage(s.queue[0], size) in s.mem.order
    ensures Work(Turn(s, size, slice)) < Work(s)
  {
    var h := s.queue[0];
    assert h in s.queue;
    SliceKeepsJob(Running(h, s.mem, s.trace), size, slice);
    if Unfinished(h) {
      SliceRuns(Running(h, s.mem, s.trace), size, slice);
    }
    LessRemaining(s.queue, HeadTurn(s, size, slice).job);
  }

  lemma TurnFaults(s: System, size: nat, slice: nat)
    requires Good(s, size, slice) && s.queue != []
    requires Unfinished(s.queue[0]) && NextPage(s.queue[0], size) !in s.mem.order
    ensures Turn(s, size, slice)
         == System(s.queue[1..] + [s.queue[0]], Reference(s.mem, NextPage(s.queue[0], size)), s.trace)
  {
  }

  lemma WarmHit(s: System, size: nat, k: nat)
    requires 1 <= size && s.queue != [] && Warm(s, size, k)
    ensures k == |s.queue| ==> NextPage(s.queue[0], size) in s.mem.order
  {
    if k == |s.queue| {
      assert s.mem.order[k - 1] == NextPage(s.queue[0], size);
    }
  }

  lemma LessWork(less: nat, work: nat, limit: nat)
    requires less < work
    ensures less * (limit + 1) + limit + 1 <= work * (limit + 1)
  {
    assert (work - less - 1) * (limit + 1) >= 0;
    assert (work - less - 1) * (limit + 1) == work * (limit + 1) - less * (limit + 1) - (limit + 1);
  }

  lemma FaultWarms(s: System, size: nat, slice: nat, k: nat)
    requires Good(s, size, slice) && s.queue != [] && |s.queue| <= s.mem.cap && Warm(s, size, k)
    requires Unfinished(s.queue[0]) && NextPage(s.queue[0], size) !in s.mem.order
    ensures k < |s.queue| && Warm(Turn(s, size, slice), size, k + 1)
    ensures Work(Turn(s, size, slice)) == Work(s)
  {
    TurnFaults(s, size, slice);
    RemainingConcat(s.queue[1..], [s.queue[0]]);
    WarmHit(s, size, k);
  }

  /** One turn either uses up work or makes one more process warm. */
  lemma TurnAdvances(s: System, size: nat, slice: nat, k: nat) returns (warm: nat)
    requires Good(s, size, slice) && s.queue != [] && |s.queue| <= s.mem.cap && Warm(s, size, k)
    ensures Warm(Turn(s, size, slice), size, warm)
    ensures (warm == 0 && Work(Turn(s, size, slice)) < Work(s))
         || (warm == k + 1 && k < |s.queue| && Turn(s, size, slice).queue != [] && Work(Turn(s, size, slice)) == Work(s))
    ensures |Turn(s, size, slice).queue| == |s.queue| || warm == 0
  {
    if Unfinished(s.queue[0]) && NextPage(s.queue[0], size) !in s.mem.order {
      FaultWarms(s, size, slice, k);
      TurnFaults(s, size, slice);
      warm := k + 1;
    } else {
      TurnWork(s, size, slice);
      warm := 0;
    }
  }

  /** With a frame for every process in the queue the machine stops, after at most
      `work * (limit + 1)` turns for any `limit` on the queue. */
  lemma {:induction false} EnoughFramesFrom(s: System, size: nat, slice: nat, k: nat, limit: nat) returns (n: nat)
    requires Good(s, size, slice) && Warm(s, size, k)
    requires |s.queue| <= s.mem.cap && |s.queue| <= limit
    ensures Turns(s, size, slice, n).queue == []
    ensures n <= Work(s) * (limit + 1) - k
    decreases Work(s), |s.queue| - k
  {
    if s.queue == [] {
      return 0;
    }
    TurnGood(s, size, slice);
    var t := Turn(s, size, slice);
    var warm := TurnAdvances(s, size, slice, k);
    var m := EnoughFramesFrom(t, size, slice, warm, limit);
    if warm == 0 {
      LessWork(Work(t), Work(s), limit);
    }
    n := m + 1;
    assert Turns(s, size, slice, n) == Turns(t, size, slice, m);
  }

  // ----- Too few frames: once a whole round is survived, every turn faults.

  ghost predicate Ahead(order: seq<PageId>, i: nat, pid: nat) {
    exists a :: 0 <= a < i && a < |order| && order[a].pid == pid
  }

  /** In front of every page of a process lies a page of each later process of `p`. */
  ghost predicate Behind(p: seq<Job>, order: seq<PageId>) {
    forall j, k, i :: 0 <= j < k < |p| && 0 <= i < |order| && order[i].pid == p[j].pid
                      ==> Ahead(order, i, p[k].pid)
  }

  /** The place an entry behind the front had before the last use. */
  function PlaceBefore(m: Paging, p: PageId, i: nat): nat
    requires 1 <= i
  {
    if p in m.order && i > IndexOf(m.order, p) then i else i - 1
  }

  /** The place an entry other than the one used has after the use. */
  function PlaceAfter(m: Paging, p: PageId, a: nat): nat {
    if p in m.order && a > IndexOf(m.order, p) then a else a + 1
  }

  lemma UsePlace(m: Paging, p: PageId, i: nat)
    requires Ok(m) && 1 <= i < |Reference(m, p).order|
    ensures PlaceBefore(m, p, i) < |m.order|
    ensures Reference(m, p).order[i] == m.order[PlaceBefore(m, p, i)]
  {
    if p in m.order { PromoteAt(m.order, IndexOf(m.order, p), i); }
  }

  /** Entries in front of another one stay in front of it. */
  lemma UseKeepsPlace(m: Paging, p: PageId, i: nat, a: nat)
    requires Ok(m) && 1 <= i < |Reference(m, p).order| && a < PlaceBefore(m, p, i) && a < |m.order|
    requires m.order[a] != p
    ensures PlaceAfter(m, p, a) < i && Reference(m, p).order[PlaceAfter(m, p, a)] == m.order[a]
  {
    if p in m.order {
      assert a != IndexOf(m.order, p);
      PromoteAt(m.order, IndexOf(m.order, p), PlaceAfter(m, p, a));
    }
  }

  lemma UseKeepsBehind(m: Paging, p: PageId, jobs: seq<Job>)
    requires Ok(m) && Behind(jobs, m.order)
    requires forall j :: j in jobs ==> j.pid != p.pid
    ensures Behind(jobs, Reference(m, p).order)
  {
    var r := Reference(m, p).order;
    assert r[0] == p;
    forall j, k, i | 0 <= j < k < |jobs| && 0 <= i < |r| && r[i].pid == jobs[j].pid
      ensures Ahead(r, i, jobs[k].pid)
    {
      assert jobs[j] in jobs && jobs[k] in jobs;
      UsePlace(m, p, i);
      var before := PlaceBefore(m, p, i);
      assert Ahead(m.order, before, jobs[k].pid);
      var a :| 0 <= a < before && a < |m.order| && m.order[a].pid == jobs[k].pid;
      UseKeepsPlace(m, p, i, a);
    }
  }

  lemma {:induction false} SliceKeepsBehind(r: Running, size: nat, n: nat, jobs: seq<Job>)
    requires 1 <= size && Ok(r.mem) && r.job.pc <= |r.job.lines| && Behind(jobs, r.mem.order)
    requires forall j :: j in jobs ==> j.pid != r.job.pid
    ensures Behind(jobs, Slice(r, size, n).mem.order)
    decreases n
  {
    if n > 0 && Unfinished(r.job) {
      var p := NextPage(r.job, size);
      StepOk(r.mem, Use(p));
      UseKeepsBehind(r.mem, p, jobs);
      if p in r.mem.order {
        SliceKeepsBehind(RunLine(r, size), size, n - 1, jobs);
      }
    }
  }

  /** A process that had something to run leaves one of its pages in front. */
  lemma {:induction false} SliceTouches(r: Running, size: nat, n: nat)
    requires 1 <= size && Ok(r.mem) && r.job.pc <= |r.job.lines|
    requires (r.mem.order != [] && r.mem.order[0].pid == r.job.pid) || (n > 0 && Unfinished(r.job))
    ensures Slice(r, size, n).mem.order != [] && Slice(r, size, n).mem.order[0].pid == r.job.pid
    decreases n
  {
    if n > 0 && Unfinished(r.job) {
      var p := NextPage(r.job, size);
      StepOk(r.mem, Use(p));
      assert Reference(r.mem, p).order[0] == p;
      if p in r.mem.order {
        SliceTouches(RunLine(r, size), size, n - 1);
      }
    }
  }

  lemma BehindAppend(p: seq<Job>, j: Job, order: seq<PageId>)
    requires Behind(p, order) && order != [] && order[0].pid == j.pid
    requires forall k :: k in p ==> k.pid != j.pid
    ensures Behind(p + [j], order)
  {
    var q := p + [j];
    forall a, b, i | 0 <= a < b < |q| && 0 <= i < |order| && order[i].pid == q[a].pid
      ensures Ahead(order, i, q[b].pid)
    {
      if b < |p| {
        assert Ahead(order, i, p[b].pid);
      } else {
        assert q[a] == p[a] && p[a] in p;
        assert order[0].pid == q[b].pid;
      }
    }
  }

  /** In the middle of a round: `rest` has yet to take its turn, `done` took it and lives. */
  ghost predicate MidRound(s: System, rest: seq<Job>, done: seq<Job>) {
    s.queue == rest + done && Behind(done, s.mem.order) && AllUnfinished(done)
  }

  lemma RoundStep(s: System, size: nat, slice: nat, rest: seq<Job>, done: seq<Job>) returns (after: seq<Job>)
    requires Good(s, size, slice) && rest != [] && MidRound(s, rest, done)
    ensures MidRound(Turn(s, size, slice), rest[1..], after)
    ensures after == done || (|after| == |done| + 1 && after[..|done|] == done && after[|done|].pid == rest[0].pid)
    ensures |rest[0].lines| - rest[0].pc > slice ==> |after| == |done| + 1
  {
    var h := rest[0];
    assert s.queue[0] == h && h in s.queue;
    var r := HeadTurn(s, size, slice);
    SliceFacts(Running(h, s.mem, s.trace), size, slice);
    forall j | j in done ensures j.pid != h.pid {
      var i :| 0 <= i < |done| && done[i] == j;
      assert s.queue[|rest| + i] == j;
    }
    SliceKeepsBehind(Running(h, s.mem, s.trace), size, slice, done);
    assert s.queue[1..] == rest[1..] + done;
    if Unfinished(r.job) {
      SliceTouches(Running(h, s.mem, s.trace), size, slice);
      BehindAppend(done, r.job, r.mem.order);
      after := done + [r.job];
      assert rest[1..] + done + [r.job] == rest[1..] + after;
    } else {
      after := done;
    }
  }

  /** A round gives each process of the queue one turn, in order, and leaves the survivors. */
  lemma {:induction false} Round(s: System, size: nat, slice: nat, rest: seq<Job>, done: seq<Job>) returns (after: seq<Job>)
    requires Good(s, size, slice) && MidRound(s, rest, done)
    ensures MidRound(Turns(s, size, slice, |rest|), [], after)
    ensures (forall j :: j in rest ==> |j.lines| - j.pc > slice) ==> |after| == |done| + |rest|
    decreases rest
  {
    if rest == [] {
      after := done;
    } else {
      var d := RoundStep(s, size, slice, rest, done);
      TurnGood(s, size, slice);
      after := Round(Turn(s, size, slice), size, slice, rest[1..], d);
      assert rest[0] in rest;
    }
  }

  /** Pages of the `j`-th of the survivors lie behind a page of each later one. */
  lemma {:induction false} BehindDepth(p: seq<Job>, order: seq<PageId>, j: nat, i: nat)
    requires Behind(p, order) && j < |p| && i < |order| && order[i].pid == p[j].pid
    ensures i >= |p| - 1 - j
    decreases |p| - j
  {
    if j + 1 < |p| {
      assert Ahead(order, i, p[j + 1].pid);
      var a :| 0 <= a < i && a < |order| && order[a].pid == p[j + 1].pid;
      BehindDepth(p, order, j + 1, a);
    }
  }

  lemma HeadAbsent(s: System, size: nat, slice: nat, done: seq<Job>)
    requires Good(s, size, slice) && MidRound(s, [], done) && |done| > s.mem.cap
    ensures Unfinished(done[0]) && NextPage(done[0], size) !in s.mem.order
  {
    assert done[0] in done;
    forall i | 0 <= i < |s.mem.order| ensures s.mem.order[i].pid != done[0].pid {
      if s.mem.order[i].pid == done[0].pid { BehindDepth(done, s.mem.order, 0, i); }
    }
  }

  lemma LivelockStep(s: System, size: nat, slice: nat, done: seq<Job>) returns (after: seq<Job>)
    requires Good(s, size, slice) && MidRound(s, [], done) && |done| > s.mem.cap
    ensures s.queue != [] && |after| == |done| && MidRound(Turn(s, size, slice), [], after)
    ensures Turn(s, size, slice).trace == s.trace
    ensures Turn(s, size, slice).mem.faults == s.mem.faults + 1
  {
    var h := done[0];
    var p := NextPage(h, size);
    assert s.queue == done;
    HeadAbsent(s, size, slice, done);
    TurnFaults(s, size, slice);
    after := done[1..] + [h];
    forall j | j in done[1..] ensures j.pid != h.pid && Unfinished(j) {
      assert j in done;
    }
    UseKeepsBehind(s.mem, p, done[1..]);
    BehindAppend(done[1..], h, Reference(s.mem, p).order);
    assert [] + after == after;
  }

  lemma RoundOver(s: System, done: seq<Job>)
    requires MidRound(s, [], done)
    ensures s.queue == done
  {
  }

  /** More survivors of a round than frames: from then on every turn faults, no line is
      run and nobody leaves the queue. */
  lemma {:induction false} Livelock(s: System, size: nat, slice: nat, done: seq<Job>, n: nat)
    requires Good(s, size, slice) && MidRound(s, [], done) && |done| > s.mem.cap
    ensures |Turns(s, size, slice, n).queue| == |done|
    ensures Turns(s, size, slice, n).trace == s.trace
    ensures Turns(s, size, slice, n).mem.faults == s.mem.faults + n
    decreases n
  {
    hide Turn, MidRound;
    RoundOver(s, done);
    if n > 0 {
      TurnGood(s, size, slice);
      var after := LivelockStep(s, size, slice, done);
      Livelock(Turn(s, size, slice), size, slice, after, n - 1);
    }
  }

  // ----- When round robin stops

  /** The processes that are still in the queue after everyone has had one turn. */
  function Survivors(s: System, size: nat, slice: nat): seq<Job>
    requires Good(s, size, slice)
  {
    Turns(s, size, slice, |s.queue|).queue
  }

  /** Round robin stops exactly when at most as many processes survive their first turn
      as there are frames. */
  lemma StopsIffSurvivorsFit(s: System, size: nat, slice: nat)
    requires Good(s, size, slice)
    ensures Terminates(s, size, slice) <==> |Survivors(s, size, slice)| <= s.mem.cap
  {
    var k := |s.queue|;
    var t := Turns(s, size, slice, k);
    assert s.queue + [] == s.queue;
    var after := Round(s, size, slice, s.queue, []);
    assert t.queue == after;
    if |after| <= s.mem.cap {
      var n := EnoughFramesFrom(t, size, slice, 0, |after|);
      TurnsAdd(s, size, slice, k, n);
      assert Turns(s, size, slice, k + n).queue == [];
    } else if Terminates(s, size, slice) {
      var n: nat :| Turns(s, size, slice, n).queue == [];
      TurnsAdd(s, size, slice, n, k);
      TurnsAdd(s, size, slice, k, n);
      Livelock(t, size, slice, after, n);
      assert false;
    }
  }

  /** One frame for each process is always enough; the number of turns is bounded. */
  lemma EnoughFrames(s: System, size: nat, slice: nat) returns (n: nat)
    requires Good(s, size, slice) && |s.queue| <= s.mem.cap
    ensures Turns(s, size, slice, n).queue == [] && n <= Work(s) * (|s.queue| + 1)
  {
    n := EnoughFramesFrom(s, size, slice, 0, |s.queue|);
  }

  /** For files longer than the slice, one frame for each process is also necessary. */
  lemma LongFilesNeedAFrameEach(s: System, size: nat, slice: nat)
    requires Good(s, size, slice) && forall j :: j in s.queue ==> |j.lines| - j.pc > slice
    ensures Terminates(s, size, slice) <==> |s.queue| <= s.mem.cap
  {
    assert s.queue + [] == s.queue;
    var after := Round(s, size, slice, s.queue, []);
    StopsIffSurvivorsFit(s, size, slice);
  }

  /** An input on which round robin never stops: two files of three lines, one frame of three
      lines, which holds the first file, and a slice of two lines. */
  lemma TwoFilesLivelock(text: Line)
    ensures var file := [text, text, text];
      var s := System([Job(1, file, 0, 3), Job(2, file, 0, 3)], Paging(1, [PageId(1, 0)], 0), []);
      Good(s, 3, 2) && !Terminates(s, 3, 2)
  {
    var file := [text, text, text];
    var s := System([Job(1, file, 0, 3), Job(2, file, 0, 3)], Paging(1, [PageId(1, 0)], 0), []);
    LongFilesNeedAFrameEach(s, 3, 2);
  }

  /** Every line of `j` from its program counter on lies on a page in the store. */
  ghost predicate AllResident(m: Paging, j: Job, size: nat)
    requires 1 <= size
  {
    forall l: nat :: j.pc <= l < |j.lines| ==> PageId(j.pid, l / size) in m.order
  }

  lemma AllResidentStep(r: Running, size: nat)
    requires 1 <= size && Ok(r.mem) && Unfinished(r.job) && NextPage(r.job, size) in r.mem.order
    ensures AllResident(r.mem, r.job, size) <==> AllResident(RunLine(r, size).mem, Advance(r.job), size)
  {
    PromoteKeeps(r.mem.order, IndexOf(r.mem.order, NextPage(r.job, size)));
    if AllResident(RunLine(r, size).mem, Advance(r.job), size) {
      forall l: nat | r.job.pc <= l < |r.job.lines| ensures PageId(r.job.pid, l / size) in r.mem.order {
        assert l == r.job.pc || r.job.pc + 1 <= l;
      }
    }
  }

  /** A turn takes its process out of the queue exactly when the rest of the file fits in
      the slice and every page of that rest is in the store. */
  lemma {:induction false} TurnFinishesIff(r: Running, size: nat, n: nat)
    requires 1 <= size && Ok(r.mem) && r.job.pc <= |r.job.lines|
    ensures !Unfinished(Slice(r, size, n).job) <==>
              |r.job.lines| - r.job.pc <= n && AllResident(r.mem, r.job, size)
    decreases n
  {
    if Unfinished(r.job) && n > 0 {
      if NextPage(r.job, size) in r.mem.order {
        StepOk(r.mem, Use(NextPage(r.job, size)));
        AllResidentStep(r, size);
        TurnFinishesIff(RunLine(r, size), size, n - 1);
      } else {
        assert PageId(r.job.pid, r.job.pc / size) !in r.mem.order;
      }
    }
  }

  // ----- How long a turn is

  /** A turn of at most `n` lines of `j` on the store `m` runs `c`: each on a page that is in
      the store, and then the slice is used up, the file is finished or the next page is
      absent. */
  ghost predicate RunsUntil(m: Paging, j: Job, size: nat, n: nat, c: nat)
    requires 1 <= size
  {
    && c <= n && j.pc + c <= |j.lines|
    && (forall l: nat :: j.pc <= l < j.pc + c ==> PageId(j.pid, l / size) in m.order)
    && (c == n || j.pc + c == |j.lines| || PageId(j.pid, (j.pc + c) / size) !in m.order)
  }

  /** Where the absent page ends the turn, that is one fault, and the page is in front. */
  ghost predicate FaultsAtEnd(m: Paging, j: Job, size: nat, n: nat, c: nat, after: Paging)
    requires 1 <= size
  {
    if c < n && j.pc + c < |j.lines| then
      after.faults == m.faults + 1 && after.order != [] && after.order[0] == PageId(j.pid, (j.pc + c) / size)
    else after.faults == m.faults
  }

  /** What the turn asks of the store: the page of each line run, and the absent one. */
  function TurnOps(j: Job, size: nat, n: nat, c: nat): seq<Op>
    requires 1 <= size && j.pc + c <= |j.lines|
  {
    Uses(RestOf(j)[..c], size) + (if c < n && j.pc + c < |j.lines| then [Use(PageId(j.pid, (j.pc + c) / size))] else [])
  }

  /** There is only one such number. */
  lemma RunsUntilUnique(m: Paging, j: Job, size: nat, n: nat, c: nat, d: nat)
    requires 1 <= size && RunsUntil(m, j, size, n, c) && RunsUntil(m, j, size, n, d)
    ensures c == d
  {
  }

  lemma RunsOneMore(r: Running, size: nat, n: nat, c: nat)
    requires 1 <= size && Ok(r.mem) && n > 0 && Unfinished(r.job) && NextPage(r.job, size) in r.mem.order
    requires RunsUntil(RunLine(r, size).mem, Advance(r.job), size, n - 1, c)
    ensures RunsUntil(r.mem, r.job, size, n, c + 1)
  {
    PromoteKeeps(r.mem.order, IndexOf(r.mem.order, NextPage(r.job, size)));
    forall l: nat | r.job.pc <= l < r.job.pc + (c + 1) ensures PageId(r.job.pid, l / size) in r.mem.order {
      if l > r.job.pc { assert PageId(r.job.pid, l / size) in RunLine(r, size).mem.order; }
    }
    assert r.job.pc + (c + 1) == Advance(r.job).pc + c;
  }

  lemma FaultsOneMore(r: Running, size: nat, n: nat, c: nat, after: Paging)
    requires 1 <= size && Ok(r.mem) && n > 0 && Unfinished(r.job) && NextPage(r.job, size) in r.mem.order
    requires FaultsAtEnd(RunLine(r, size).mem, Advance(r.job), size, n - 1, c, after)
    ensures FaultsAtEnd(r.mem, r.job, size, n, c + 1, after)
  {
    assert r.job.pc + (c + 1) == Advance(r.job).pc + c;
  }

  lemma OpsOneMore(r: Running, size: nat, n: nat, c: nat)
    requires 1 <= size && 1 <= r.mem.cap && n > 0 && Unfinished(r.job) && r.job.pc + 1 + c <= |r.job.lines|
    ensures Run(r.mem, TurnOps(r.job, size, n, c + 1)) == Run(RunLine(r, size).mem, TurnOps(Advance(r.job), size, n - 1, c))
  {
    var ops, more := TurnOps(r.job, size, n, c + 1), TurnOps(Advance(r.job), size, n - 1, c);
    RestOfPrefix(r.job, c);
    UsesConcat([Current(r.job)], RestOf(Advance(r.job))[..c], size);
    assert Uses([Current(r.job)], size) == [Use(NextPage(r.job, size))];
    assert r.job.pc + (c + 1) == Advance(r.job).pc + c;
    assert ops == [Use(NextPage(r.job, size))] + more;
    assert ops[1..] == more;
  }

  lemma OpsNone(r: Running, size: nat, n: nat)
    requires 1 <= size && 1 <= r.mem.cap && r.job.pc <= |r.job.lines|
    requires n == 0 || !Unfinished(r.job) || NextPage(r.job, size) !in r.mem.order
    ensures Slice(r, size, n).mem == Run(r.mem, TurnOps(r.job, size, n, 0))
  {
    assert Uses(RestOf(r.job)[..0], size) == [];
    var page := NextPage(r.job, size);
    assert [] + [Use(page)] == [Use(page)] && [Use(page)][1..] == [];
    assert Run(r.mem, [Use(page)]) == Run(Reference(r.mem, page), []);
  }

  lemma NoLine(r: Running, size: nat, n: nat)
    requires 1 <= size && Ok(r.mem) && r.job.pc <= |r.job.lines|
    requires n == 0 || !Unfinished(r.job) || NextPage(r.job, size) !in r.mem.order
    ensures Slice(r, size, n).job == r.job
    ensures RunsUntil(r.mem, r.job, size, n, 0) && FaultsAtEnd(r.mem, r.job, size, n, 0, Slice(r, size, n).mem)
  {
  }

  lemma FirstLine(r: Running, size: nat, n: nat)
    requires 1 <= size && Ok(r.mem) && n > 0 && Unfinished(r.job) && NextPage(r.job, size) in r.mem.order
    ensures Slice(r, size, n) == Slice(RunLine(r, size), size, n - 1)
    ensures Ok(RunLine(r, size).mem) && RunLine(r, size).job == Advance(r.job)
  {
    StepOk(r.mem, Use(NextPage(r.job, size)));
  }

  /** A turn ends for no other reason than these three, and only in the last case there is a
      fault. */
  lemma {:induction false} SliceRunsUntil(r: Running, size: nat, n: nat) returns (c: nat)
    requires 1 <= size && Ok(r.mem) && r.job.pc <= |r.job.lines|
    ensures Slice(r, size, n).job.pc == r.job.pc + c
    ensures RunsUntil(r.mem, r.job, size, n, c) && FaultsAtEnd(r.mem, r.job, size, n, c, Slice(r, size, n).mem)
    ensures r.job.pc + c <= |r.job.lines| && Slice(r, size, n).mem == Run(r.mem, TurnOps(r.job, size, n, c))
    decreases n
  {
    hide Slice, RunLine, RunsUntil, FaultsAtEnd, NoDup, NextPage, TurnOps, Run;
    if n > 0 && Unfinished(r.job) && NextPage(r.job, size) in r.mem.order {
      FirstLine(r, size, n);
      c := SliceRunsUntil(RunLine(r, size), size, n - 1);
      RunsOneMore(r, size, n, c);
      FaultsOneMore(r, size, n, c, Slice(r, size, n).mem);
      OpsOneMore(r, size, n, c);
      c := c + 1;
    } else {
      NoLine(r, size, n);
      OpsNone(r, size, n);
      c := 0;
    }
  }

  // ----- A page faulted in is still there at the next turn.

  /** `page` is among the first `i + 1` of the order. */
  ghost predicate Within(m: Paging, page: PageId, i: nat) {
    exists a :: 0 <= a <= i && a < |m.order| && m.order[a] == page
  }

  lemma UseAges(m: Paging, p: PageId, page: PageId, i: nat)
    requires Ok(m) && Within(m, page, i) && i + 1 < m.cap
    ensures Within(Reference(m, p), page, i + 1)
  {
    var a :| 0 <= a <= i && a < |m.order| && m.order[a] == page;
    var r := Reference(m, p).order;
    if p in m.order {
      var x := IndexOf(m.order, p);
      var b := if a < x then a + 1 else if a == x then 0 else a;
      PromoteAt(m.order, x, b);
      assert r[b] == page;
    } else {
      assert r[a + 1] == page;
    }
  }

  lemma {:induction false} SliceAges(r: Running, size: nat, n: nat, page: PageId, i: nat)
    requires 1 <= size && Ok(r.mem) && Within(r.mem, page, i) && i + n < r.mem.cap
    ensures Within(Slice(r, size, n).mem, page, i + n)
    decreases n
  {
    if n > 0 && Unfinished(r.job) {
      var p := NextPage(r.job, size);
      StepOk(r.mem, Use(p));
      UseAges(r.mem, p, page, i);
      if p !in r.mem.order {
        assert Within(Reference(r.mem, p), page, i + n);
      } else {
        SliceAges(RunLine(r, size), size, n - 1, page, i + 1);
      }
    }
  }

  /** `rest` turns later a page is at most `|rest| * slice` places further back. */
  lemma {:induction false} TurnsAge(s: System, size: nat, slice: nat, turns: nat, page: PageId, i: nat)
    requires Good(s, size, slice) && Within(s.mem, page, i)
    requires i + turns * slice < s.mem.cap
    ensures page in Turns(s, size, slice, turns).mem.order
    decreases turns
  {
    if turns > 0 && s.queue != [] {
      assert turns * slice == slice + (turns - 1) * slice;
      assert s.queue[0] in s.queue;
      SliceAges(Running(s.queue[0], s.mem, s.trace), size, slice, page, i);
      TurnGood(s, size, slice);
      TurnsAge(Turn(s, size, slice), size, slice, turns - 1, page, i + slice);
    }
  }

  /** With more than (k-1) * slice frames for k processes, a process whose turn is lost to
      a fault finds that page still in the store at its next turn, and runs. */
  lemma FaultedPageStays(s: System, size: nat, slice: nat)
    requires Good(s, size, slice) && s.queue != [] && s.mem.cap > (|s.queue| - 1) * slice
    requires Unfinished(s.queue[0]) && NextPage(s.queue[0], size) !in s.mem.order
    ensures var t := Turns(s, size, slice, |s.queue|);
      t.queue != [] && t.queue[0] == s.queue[0] && NextPage(s.queue[0], size) in t.mem.order
  {
    var h, k := s.queue[0], |s.queue|;
    var p := NextPage(h, size);
    TurnFaults(s, size, slice);
    TurnGood(s, size, slice);
    var t := Turn(s, size, slice);
    assert t.mem.order[0] == p && Within(t.mem, p, 0);
    TurnsAge(t, size, slice, k - 1, p, 0);
    HeadReturns(t, size, slice, s.queue[1..], [h]);
  }

  /** Processes behind the ones that have yet to take their turn keep their places. */
  lemma {:induction false} HeadReturns(s: System, size: nat, slice: nat, rest: seq<Job>, done: seq<Job>)
    requires Good(s, size, slice) && s.queue == rest + done
    ensures |done| <= |Turns(s, size, slice, |rest|).queue|
    ensures Turns(s, size, slice, |rest|).queue[..|done|] == done
    decreases rest
  {
    if rest != [] {
      TurnGood(s, size, slice);
      var t := Turn(s, size, slice);
      var r := HeadTurn(s, size, slice);
      var d := done + if Unfinished(r.job) then [r.job] else [];
      assert s.queue[1..] == rest[1..] + done;
      assert t.queue == rest[1..] + d;
      HeadReturns(t, size, slice, rest[1..], d);
      assert d[..|done|] == done;
      var q := Turns(s, size, slice, |rest|).queue;
      assert q[..|done|] == q[..|d|][..|done|];
    }
  }

  /** A process whose turn did not finish it is at the head again after a turn of everybody
      else. */
  lemma HeadComesBack(s: System, size: nat, slice: nat)
    requires Good(s, size, slice) && s.queue != []
    ensures var h := HeadTurn(s, size, slice).job; var t := Turns(s, size, slice, |s.queue|);
      Unfinished(h) ==> t.queue != [] && t.queue[0] == h
  {
    var h := HeadTurn(s, size, slice).job;
    TurnGood(s, size, slice);
    if Unfinished(h) {
      var t := Turn(s, size, slice);
      HeadReturns(t, size, slice, s.queue[1..], [h]);
      var q := Turns(t, size, slice, |s.queue| - 1).queue;
      assert q[..1][0] == q[0];
    }
  }

  /** Between two turns of a process every other process of the queue has exactly one, in
      queue order, and runs lines of its own file, as many as the store, the slice and the
      file allow; and then the first one has its turn again, unless it is finished. */
  lemma RoundIsFair(s: System, size: nat, slice: nat, j: nat)
    requires Good(s, size, slice) && j < |s.queue|
    ensures var h := HeadTurn(s, size, slice).job;
      Unfinished(h) ==> Turns(s, size, slice, |s.queue|).queue != [] && Turns(s, size, slice, |s.queue|).queue[0] == h
    ensures var a, b := Turns(s, size, slice, j), Turns(s, size, slice, j + 1);
      a.queue != [] && a.queue[0] == s.queue[j] && exists c: nat :: TurnRuns(a, s.queue[j], size, slice, c, b)
  {
    hide Turns, HeadTurn, Turn, TurnRuns;
    HeadComesBack(s, size, slice);
    RoundQueue(s, size, slice, j);
    TurnsAdd(s, size, slice, j, 1);
    TurnRunsOwn(Turns(s, size, slice, j), size, slice);
  }

  /** From `a` to `b` the next `c` lines of `j` have been run, as many as a turn allows. */
  ghost predicate TurnRuns(a: System, j: Job, size: nat, slice: nat, c: nat, b: System)
    requires 1 <= size
  {
    && RunsUntil(a.mem, j, size, slice, c) && b.trace == a.trace + RestOf(j)[..c]
    && 1 <= a.mem.cap && b.mem == Run(a.mem, TurnOps(j, size, slice, c)) && FaultsAtEnd(a.mem, j, size, slice, c, b.mem)
  }

  lemma TurnRunsOwn(s: System, size: nat, slice: nat)
    requires Good(s, size, slice) && s.queue != []
    ensures exists c: nat :: TurnRuns(s, s.queue[0], size, slice, c, Turns(s, size, slice, 1))
  {
    hide RunsUntil, FaultsAtEnd, RestOf, NoDup, Slice, TurnOps, Run;
    TurnIsOne(s, size, slice);
    var r := Running(s.queue[0], s.mem, s.trace);
    SliceFacts(r, size, slice);
    var c := SliceRunsUntil(r, size, slice);
    assert TurnRuns(s, s.queue[0], size, slice, c, Turn(s, size, slice));
  }

  lemma TurnIsOne(s: System, size: nat, slice: nat)
    requires Good(s, size, slice) && s.queue != []
    ensures Turns(s, size, slice, 1) == Turn(s, size, slice)
    ensures 1 <= size && Ok(s.mem) && s.queue[0].pc <= |s.queue[0].lines|
  {
    hide Turn;
    TurnGood(s, size, slice);
    assert Turns(s, size, slice, 1) == Turns(Turn(s, size, slice), size, slice, 0);
    assert s.queue[0] in s.queue;
  }

  lemma TurnQueue(s: System, size: nat, slice: nat)
    requires Good(s, size, slice) && s.queue != []
    ensures var t := Turn(s, size, slice).queue; |t| >= |s.queue| - 1 && t[..|s.queue| - 1] == s.queue[1..]
  {
  }

  lemma QueueSlices(q: seq<Job>, t: seq<Job>, u: seq<Job>, j: nat)
    requires 1 <= j <= |q| && |t| >= |q| - 1 && t[..|q| - 1] == q[1..]
    requires |u| >= |t| - (j - 1) >= 0 && u[..|t| - (j - 1)] == t[j - 1..]
    ensures |u| >= |q| - j && u[..|q| - j] == q[j..]
  {
    assert u[..|q| - j] == u[..|t| - (j - 1)][..|q| - j];
    assert t[j - 1..][..|q| - j] == t[..|q| - 1][j - 1..];
    assert q[1..][j - 1..] == q[j..];
  }

  /** The first `j` turns of a round leave the others in front, in their order. */
  lemma {:induction false} RoundQueue(s: System, size: nat, slice: nat, j: nat)
    requires Good(s, size, slice) && j <= |s.queue|
    ensures |Turns(s, size, slice, j).queue| >= |s.queue| - j
    ensures Turns(s, size, slice, j).queue[..|s.queue| - j] == s.queue[j..]
    decreases j
  {
    hide Turn;
    if j == 0 {
      assert s.queue[..|s.queue|] == s.queue;
    } else {
      TurnGood(s, size, slice);
      TurnQueue(s, size, slice);
      var t := Turn(s, size, slice);
      RoundQueue(t, size, slice, j - 1);
      QueueSlices(s.queue, t.queue, Turns(t, size, slice, j - 1).queue, j);
    }
  }
}

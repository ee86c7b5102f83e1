/** Processes and executed lines as values: what a PCB (src/scheduling/pcb.h) holds
    apart from its page table and its link. */
module Jobs {
  import opened Recency

  type Line = string

  datatype Job = Job(pid: nat, lines: seq<Line>, pc: nat, score: int)

  /** One line handed to the interpreter. */
  datatype Event = Executed(pid: nat, line: nat, text: Line)

  predicate Unfinished(j: Job) {
    j.pc < |j.lines|
  }

  function Current(j: Job): Event
    requires Unfinished(j)
  {
    Executed(j.pid, j.pc, j.lines[j.pc])
  }

  function Advance(j: Job): Job {
    j.(pc := j.pc + 1)
  }

  /** The page that holds the next line, with `size` lines to a page. */
  function NextPage(j: Job, size: nat): PageId
    requires 1 <= size
  {
    PageId(j.pid, j.pc / size)
  }

  /** The lines still to run, in file order. */
  function RestOf(j: Job): (r: seq<Event>)
    requires j.pc <= |j.lines|
    ensures |r| == |j.lines| - j.pc
  {
    seq(|j.lines| - j.pc, i requires 0 <= i < |j.lines| - j.pc =>
      Executed(j.pid, j.pc + i, j.lines[j.pc + i]))
  }

  lemma RestOfStep(j: Job)
    requires Unfinished(j)
    ensures RestOf(j) == [Current(j)] + RestOf(Advance(j))
  {
  }

  ghost predicate WithinFile(q: seq<Job>) {
    forall j :: j in q ==> j.pc <= |j.lines|
  }

  ghost predicate AllUnfinished(q: seq<Job>) {
    forall j :: j in q ==> Unfinished(j)
  }

  ghost predicate DistinctPids(q: seq<Job>) {
    forall i, k :: 0 <= i < k < |q| ==> q[i].pid != q[k].pid
  }

  /** The number of lines the queue has yet to run. */
  function Remaining(q: seq<Job>): nat
    decreases q
  {
    if q == [] then 0
    else (if Unfinished(q[0]) then |q[0].lines| - q[0].pc else 0) + Remaining(q[1..])
  }

  lemma {:induction false} RemainingConcat(a: seq<Job>, b: seq<Job>)
    ensures Remaining(a + b) == Remaining(a) + Remaining(b)
    decreases a
  {
    if a == [] {
      assert a + b == b;
    } else {
      assert (a + b)[1..] == a[1..] + b;
      RemainingConcat(a[1..], b);
    }
  }

  /** The page uses a list of executed lines stands for. */
  function Uses(trace: seq<Event>, size: nat): (r: seq<Op>)
    requires 1 <= size
    ensures |r| == |trace|
  {
    seq(|trace|, i requires 0 <= i < |trace| => Use(PageId(trace[i].pid, trace[i].line / size)))
  }

  lemma UsesConcat(a: seq<Event>, b: seq<Event>, size: nat)
    requires 1 <= size
    ensures Uses(a + b, size) == Uses(a, size) + Uses(b, size)
  {
  }

  /** The events of one process, in order. */
  function Project(trace: seq<Event>, pid: nat): seq<Event>
    decreases trace
  {
    if trace == [] then []
    else (if trace[0].pid == pid then [trace[0]] else []) + Project(trace[1..], pid)
  }

  lemma {:induction false} ProjectConcat(a: seq<Event>, b: seq<Event>, pid: nat)
    ensures Project(a + b, pid) == Project(a, pid) + Project(b, pid)
    decreases a
  {
    if a == [] {
      assert a + b == b;
    } else {
      var own := if a[0].pid == pid then [a[0]] else [];
      calc {
        Project(a + b, pid);
        { assert (a + b)[1..] == a[1..] + b && (a + b)[0] == a[0]; }
        own + Project(a[1..] + b, pid);
        { ProjectConcat(a[1..], b, pid); }
        own + (Project(a[1..], pid) + Project(b, pid));
        own + Project(a[1..], pid) + Project(b, pid);
        Project(a, pid) + Project(b, pid);
      }
    }
  }

  lemma {:induction false} ProjectOwn(a: seq<Event>, pid: nat)
    requires forall e :: e in a ==> e.pid == pid
    ensures Project(a, pid) == a
    decreases a
  {
    if a != [] {
      ProjectOwn(a[1..], pid);
    }
  }

  lemma {:induction false} ProjectOther(a: seq<Event>, pid: nat)
    requires forall e :: e in a ==> e.pid != pid
    ensures Project(a, pid) == []
    decreases a
  {
    if a != [] {
      ProjectOther(a[1..], pid);
    }
  }
}

/** The order of use behind src/memory/lru.c, on values: the pages held by a store
    of `cap` frames, most recently used first. */
module Recency {

  /** One page of one process. */
  datatype PageId = PageId(pid: nat, page: nat)

  /** The position of the first `x` in `s`, or `|s|`. */
  function IndexOf<T(==)>(s: seq<T>, x: T): (r: nat)
    ensures r <= |s|
    ensures r < |s| ==> s[r] == x
    ensures x !in s[..r]
    ensures r == |s| <==> x !in s
  {
    if s == [] then 0 else if s[0] == x then 0 else 1 + IndexOf(s[1..], x)
  }

  ghost predicate NoDup<T>(s: seq<T>) {
    forall i, j :: 0 <= i < j < |s| ==> s[i] != s[j]
  }

  /** `s` with the element at `i` taken out. */
  function Delete<T>(s: seq<T>, i: nat): seq<T>
    requires i < |s|
  {
    s[..i] + s[i+1..]
  }

  /** `s` with the element at `i` brought to the front. */
  function Promote<T>(s: seq<T>, i: nat): seq<T>
    requires i < |s|
  {
    [s[i]] + Delete(s, i)
  }

  function MoveToFront<T(==)>(s: seq<T>, x: T): seq<T>
    requires x in s
  {
    Promote(s, IndexOf(s, x))
  }

  /** A store of `cap` frames: its pages by recency, and the page faults so far. */
  datatype Paging = Paging(cap: nat, order: seq<PageId>, faults: nat)

  ghost predicate Ok(m: Paging) {
    1 <= m.cap && |m.order| <= m.cap && NoDup(m.order)
  }

  /** Puts an absent page in front, over the least recently used one when full. */
  function Load(m: Paging, p: PageId): Paging
    requires 1 <= m.cap
  {
    m.(order := [p] + (if |m.order| < m.cap then m.order else m.order[..m.cap - 1]))
  }

  /** One use of a page, which faults when the page is not in the store. */
  function Reference(m: Paging, p: PageId): Paging
    requires 1 <= m.cap
  {
    if p in m.order then m.(order := MoveToFront(m.order, p))
    else Load(m, p).(faults := m.faults + 1)
  }

  /** The code loading of a new process: a page is brought in only while a frame is free. */
  function Preload(m: Paging, p: PageId): Paging
    requires 1 <= m.cap
  {
    if |m.order| < m.cap && p !in m.order then Load(m, p) else m
  }

  datatype Op = Use(page: PageId) | Pre(page: PageId)

  function Step(m: Paging, op: Op): Paging
    requires 1 <= m.cap
  {
    match op
    case Use(p) => Reference(m, p)
    case Pre(p) => Preload(m, p)
  }

  function Run(m: Paging, ops: seq<Op>): (r: Paging)
    requires 1 <= m.cap
    ensures r.cap == m.cap
    decreases ops
  {
    if ops == [] then m else Run(Step(m, ops[0]), ops[1..])
  }

  lemma {:induction false} RunConcat(m: Paging, a: seq<Op>, b: seq<Op>)
    requires 1 <= m.cap
    ensures Run(m, a + b) == Run(Run(m, a), b)
    decreases a
  {
    if a == [] {
      assert a + b == b;
    } else {
      assert (a + b)[1..] == a[1..] + b;
      RunConcat(Step(m, a[0]), a[1..], b);
    }
  }

  // ----- The order stays a duplicate-free list of at most cap pages.

  lemma IndexUnique<T>(s: seq<T>, i: nat)
    requires NoDup(s) && i < |s|
    ensures IndexOf(s, s[i]) == i
  {
    var r := IndexOf(s, s[i]);
    assert forall k :: 0 <= k < r ==> s[..r][k] == s[k];
  }

  lemma DeleteAt<T>(s: seq<T>, i: nat, t: nat)
    requires i < |s| && t < |s| - 1
    ensures Delete(s, i)[t] == s[if t < i then t else t + 1]
  {
  }

  lemma PromoteAt<T>(s: seq<T>, i: nat, t: nat)
    requires i < |s| && t < |s|
    ensures Promote(s, i)[t] == s[if t == 0 then i else if t <= i then t - 1 else t]
  {
    if t > 0 { DeleteAt(s, i, t - 1); }
  }

  lemma PromoteMultiset<T>(s: seq<T>, i: nat)
    requires i < |s|
    ensures multiset(Promote(s, i)) == multiset(s)
  {
    assert s == s[..i] + ([s[i]] + s[i+1..]);
  }

  lemma PromoteNoDup<T>(s: seq<T>, i: nat)
    requires i < |s| && NoDup(s)
    ensures NoDup(Promote(s, i))
  {
    forall a, b | 0 <= a < b < |s| ensures Promote(s, i)[a] != Promote(s, i)[b] {
      PromoteAt(s, i, a);
      PromoteAt(s, i, b);
    }
  }

  /** Bringing an element forward keeps the elements and the length. */
  lemma PromoteKeeps<T>(s: seq<T>, i: nat)
    requires i < |s|
    ensures |Promote(s, i)| == |s|
    ensures NoDup(s) ==> NoDup(Promote(s, i))
    ensures forall x :: x in Promote(s, i) <==> x in s
  {
    PromoteMultiset(s, i);
    if NoDup(s) { PromoteNoDup(s, i); }
    forall x ensures x in Promote(s, i) <==> x in s {
      assert x in s <==> x in multiset(s);
      assert x in Promote(s, i) <==> x in multiset(Promote(s, i));
    }
  }

  lemma StepOk(m: Paging, op: Op)
    requires Ok(m)
    ensures Ok(Step(m, op))
  {
    if op.Use? && op.page in m.order {
      PromoteKeeps(m.order, IndexOf(m.order, op.page));
    }
  }

  lemma {:induction false} RunOk(m: Paging, ops: seq<Op>)
    requires Ok(m)
    ensures Ok(Run(m, ops))
    decreases ops
  {
    if ops != [] {
      StepOk(m, ops[0]);
      RunOk(Step(m, ops[0]), ops[1..]);
    }
  }

  /** Using a page twice in a row is using it once. */
  lemma ReferenceTwice(m: Paging, p: PageId)
    requires Ok(m)
    ensures Reference(Reference(m, p), p) == Reference(m, p)
  {
    var m1 := Reference(m, p);
    assert m1.order[0] == p;
    assert IndexOf(m1.order, p) == 0;
    assert MoveToFront(m1.order, p) == m1.order;
  }

  lemma Twice<T>(r: seq<T>, i: nat, k: nat)
    requires i < k < |r| && r[i] == r[k]
    ensures multiset(r)[r[i]] >= 2
  {
    assert r == r[..k] + r[k..];
    assert r[i] in r[..k] && r[k] in r[k..];
    assert r[i] in multiset(r[..k]) && r[k] in multiset(r[k..]);
  }

  lemma {:induction false} Once<T>(q: seq<T>, x: T)
    requires NoDup(q)
    ensures multiset(q)[x] <= 1
    decreases q
  {
    if q != [] {
      assert q == [q[0]] + q[1..];
      Once(q[1..], x);
      if x == q[0] {
        assert x !in q[1..];
        assert x !in multiset(q[1..]);
      }
    }
  }

  lemma PermutedNoDup<T>(q: seq<T>, r: seq<T>)
    requires NoDup(q) && multiset(q) == multiset(r)
    ensures NoDup(r)
  {
    forall i, k | 0 <= i < k < |r| ensures r[i] != r[k] {
      if r[i] == r[k] {
        Twice(r, i, k);
        Once(q, r[i]);
      }
    }
  }

  // ----- More frames never cause more faults.

  /** What a run with one frame more looks like from the smaller one: the same
      pages, or a full store whose order is the smaller one's plus one page. */
  ghost predicate Included(small: Paging, big: Paging) {
    && big.cap == small.cap + 1
    && big.faults <= small.faults
    && (small.order == big.order || OneMore(small, big))
  }

  ghost predicate OneMore(small: Paging, big: Paging) {
    && |big.order| == big.cap
    && exists i: nat :: i < |big.order| && small.order == Delete(big.order, i)
  }

  lemma DeleteMembers<T>(s: seq<T>, i: nat, x: T)
    requires NoDup(s) && i < |s|
    ensures x in Delete(s, i) <==> x in s && x != s[i]
  {
    if x in s && x != s[i] {
      var k :| 0 <= k < |s| && s[k] == x;
      assert Delete(s, i)[if k < i then k else k - 1] == x;
    }
  }

  /** Taking out the element at `i` and bringing the one at `j` to the front commute. */
  lemma PromoteDeleteAt<T>(s: seq<T>, i: nat, j: nat)
    requires i < |s| && j < |s| && i != j
    ensures Promote(Delete(s, i), if j < i then j else j - 1)
         == Delete(Promote(s, j), if i < j then i + 1 else i)
  {
    var l := Promote(Delete(s, i), if j < i then j else j - 1);
    var r := Delete(Promote(s, j), if i < j then i + 1 else i);
    assert |l| == |r|;
    forall t | 0 <= t < |l| ensures l[t] == r[t] {
      PromoteAt(Delete(s, i), if j < i then j else j - 1, t);
      DeleteAt(s, i, if t == 0 then (if j < i then j else j - 1)
                     else if t <= (if j < i then j else j - 1) then t - 1 else t);
      DeleteAt(Promote(s, j), if i < j then i + 1 else i, t);
      PromoteAt(s, j, if t < (if i < j then i + 1 else i) then t else t + 1);
    }
  }

  lemma PromoteDelete<T>(s: seq<T>, i: nat, x: T) returns (k: nat)
    requires NoDup(s) && i < |s| && x in s && x != s[i]
    ensures k < |s| && x in Delete(s, i)
    ensures MoveToFront(Delete(s, i), x) == Delete(MoveToFront(s, x), k)
  {
    var j := IndexOf(s, x);
    k := if i < j then i + 1 else i;
    var jd := if j < i then j else j - 1;
    assert Delete(s, i)[jd] == x;
    DeleteNoDup(s, i);
    IndexUnique(Delete(s, i), jd);
    PromoteDeleteAt(s, i, j);
  }

  lemma DeleteNoDup<T>(s: seq<T>, i: nat)
    requires NoDup(s) && i < |s|
    ensures NoDup(Delete(s, i))
  {
  }

  lemma InclusionHit(small: Paging, big: Paging, p: PageId)
    requires Ok(small) && Ok(big) && Included(small, big) && p in small.order
    ensures Included(Reference(small, p), Reference(big, p))
  {
    if small.order != big.order {
      var i: nat :| i < |big.order| && small.order == Delete(big.order, i);
      DeleteMembers(big.order, i, p);
      var k := PromoteDelete(big.order, i, p);
      PromoteKeeps(big.order, IndexOf(big.order, p));
    }
  }

  /** The page missing from the smaller store: it faults there and hits in the larger. */
  lemma InclusionLost(small: Paging, big: Paging, i: nat)
    requires Ok(small) && Ok(big) && Included(small, big)
    requires |big.order| == big.cap && i < |big.order| && small.order == Delete(big.order, i)
    ensures Included(Reference(small, big.order[i]), Reference(big, big.order[i]))
  {
    var p := big.order[i];
    DeleteMembers(big.order, i, p);
    IndexUnique(big.order, i);
    var b := Reference(big, p);
    assert b.order == [p] + small.order;
    assert Reference(small, p).order == Delete(b.order, big.cap - 1);
  }

  lemma InclusionMiss(small: Paging, big: Paging, p: PageId)
    requires Ok(small) && Ok(big) && Included(small, big)
    requires p !in big.order && p !in small.order
    ensures Included(Reference(small, p), Reference(big, p))
  {
    var s, b := Reference(small, p), Reference(big, p);
    if small.order == big.order {
      if |small.order| == small.cap {
        assert s.order == Delete(b.order, small.cap);
      }
    } else {
      var i: nat :| i < |big.order| && small.order == Delete(big.order, i);
      var k := if i < small.cap then i + 1 else small.cap;
      assert s.order == Delete(b.order, k);
    }
  }

  lemma InclusionUse(small: Paging, big: Paging, p: PageId)
    requires Ok(small) && Ok(big) && Included(small, big)
    ensures Included(Reference(small, p), Reference(big, p))
  {
    if p in small.order {
      InclusionHit(small, big, p);
    } else if small.order == big.order {
      InclusionMiss(small, big, p);
    } else {
      var i: nat :| i < |big.order| && small.order == Delete(big.order, i);
      DeleteMembers(big.order, i, p);
      if p == big.order[i] {
        InclusionLost(small, big, i);
      } else {
        InclusionMiss(small, big, p);
      }
    }
  }

  lemma InclusionPre(small: Paging, big: Paging, p: PageId)
    requires Ok(small) && Ok(big) && Included(small, big)
    ensures Included(Preload(small, p), Preload(big, p))
  {
    var s, b := Preload(small, p), Preload(big, p);
    if small.order == big.order && |small.order| == small.cap && p !in small.order {
      assert s.order == Delete(b.order, 0);
    }
  }

  /** One frame more: after any run of preloads and uses the larger store has had no
      more faults, and holds the smaller one's pages in the same order. */
  lemma {:induction false} OneFrameMore(small: Paging, big: Paging, ops: seq<Op>)
    requires Ok(small) && Ok(big) && Included(small, big)
    ensures Included(Run(small, ops), Run(big, ops))
    decreases ops
  {
    if ops != [] {
      match ops[0] {
        case Use(p) => InclusionUse(small, big, p);
        case Pre(p) => InclusionPre(small, big, p);
      }
      StepOk(small, ops[0]);
      StepOk(big, ops[0]);
      OneFrameMore(Step(small, ops[0]), Step(big, ops[0]), ops[1..]);
    }
  }

  function Empty(cap: nat): Paging {
    Paging(cap, [], 0)
  }

  /** Adding frames never adds faults, whatever is preloaded and used. */
  lemma {:induction false} MoreFramesNeverHurt(cap: nat, larger: nat, ops: seq<Op>)
    requires 1 <= cap <= larger
    ensures Run(Empty(larger), ops).faults <= Run(Empty(cap), ops).faults
    decreases larger - cap
  {
    if cap < larger {
      OneFrameMore(Empty(cap), Empty(cap + 1), ops);
      MoreFramesNeverHurt(cap + 1, larger, ops);
    }
  }
}

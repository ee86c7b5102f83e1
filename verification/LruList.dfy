/** src/memory/lru.c: every frame on a doubly linked list between two sentinels, most
    recently used first. */
module LruLists {
  import opened Recency

  class LruNode {
    const frame: int
    var prev: LruNode?
    var next: LruNode?

    constructor (frame: int)
      ensures this.frame == frame && prev == null && next == null
    {
      this.frame := frame;
      prev, next := null, null;
    }
  }

  class LruList {
    const head: LruNode
    const tail: LruNode
    ghost const size: nat
    ghost const repr: set<LruNode>
    ghost var nodes: seq<LruNode>

    /** `s` is linked both ways, from one sentinel to the other, and visits no node twice. */
    ghost predicate Linked(s: seq<LruNode>)
      reads s
    {
      && |s| >= 2 && s[0] == head && s[|s| - 1] == tail
      && head.frame == -1 && tail.frame == -1
      && (forall i, j :: 0 <= i < j < |s| ==> s[i] != s[j])
      && (forall i {:trigger s[i].next} :: 0 <= i < |s| - 1 ==> s[i].next == s[i + 1])
      && (forall i {:trigger s[i].prev} :: 1 <= i < |s| ==> s[i].prev == s[i - 1])
    }

    /** The list visits each of the frames 0 .. size-1 exactly once. */
    ghost predicate Valid()
      reads this, repr
    {
      && (forall n :: n in nodes ==> n in repr)
      && Linked(nodes)
      && |nodes| == size + 2
      && NoDup(Order())
      && (forall f :: 0 <= f < size ==> f in Order())
      && (forall f :: f in Order() ==> 0 <= f < size)
    }

    ghost function Frames(s: seq<LruNode>): seq<int>
      requires |s| >= 2
    {
      seq(|s| - 2, i requires 0 <= i < |s| - 2 => s[i + 1].frame)
    }

    /** The frames by recency. */
    ghost function Order(): seq<int>
      requires |nodes| >= 2
      reads this
    {
      Frames(nodes)
    }

    /** lru_init: the frames in numerical order. */
    constructor (size: nat)
      ensures Valid() && this.size == size && fresh(repr)
      ensures Order() == seq(size, i => i)
    {
      var h := new LruNode(-1);
      var t := new LruNode(-1);
      head, tail, this.size := h, t, size;
      var prev, s := AppendFrames(h, size);
      prev.next := t;
      t.prev := prev;
      nodes := s + [t];
      repr := set n | n in s + [t];
      new;
      assert Linked(nodes);
      InNumericalOrder();
    }

    lemma InNumericalOrder()
      requires |nodes| == size + 2 && Linked(nodes) && forall n :: n in nodes ==> n in repr
      requires forall i {:trigger nodes[i].frame} :: 1 <= i <= size ==> nodes[i].frame == i - 1
      ensures Valid() && Order() == seq(size, i => i)
    {
      var order := Order();
      assert forall i :: 0 <= i < size ==> order[i] == nodes[i + 1].frame == i;
      assert NoDup(order);
      forall f | 0 <= f < size ensures f in order { assert order[f] == f; }
    }

    /** The loop of lru_init: one node after the other, linked both ways. */
    static method AppendFrames(h: LruNode, size: nat) returns (prev: LruNode, ghost s: seq<LruNode>)
      requires h.prev == null
      modifies h
      ensures |s| == size + 1 && s[0] == h && prev == s[size] && (prev == h || fresh(prev))
      ensures forall i :: 1 <= i < |s| ==> fresh(s[i])
      ensures h.prev == old(h.prev)
      ensures forall i, j :: 0 <= i < j < |s| ==> s[i] != s[j]
      ensures forall i {:trigger s[i].next} :: 0 <= i < size ==> s[i].next == s[i + 1]
      ensures forall i {:trigger s[i].prev} :: 1 <= i <= size ==> s[i].prev == s[i - 1]
      ensures forall i {:trigger s[i].frame} :: 1 <= i <= size ==> s[i].frame == i - 1
    {
      prev := h;
      s := [h];
      var frame := 0;
      while frame < size
        invariant 0 <= frame <= size
        invariant |s| == frame + 1 && s[0] == h && prev == s[frame] && (prev == h || fresh(prev))
        invariant forall i :: 1 <= i < |s| ==> fresh(s[i])
        invariant forall i, j :: 0 <= i < j < |s| ==> s[i] != s[j]
        invariant h.prev == old(h.prev)
        invariant forall i {:trigger s[i].next} :: 0 <= i < frame ==> s[i].next == s[i + 1]
        invariant forall i {:trigger s[i].prev} :: 1 <= i <= frame ==> s[i].prev == s[i - 1]
        invariant forall i {:trigger s[i].frame} :: 1 <= i <= frame ==> s[i].frame == i - 1
      {
        var node := new LruNode(frame);
        assert node !in s;
        prev.next := node;
        node.prev := prev;
        prev := node;
        s := s + [node];
        frame := frame + 1;
      }
    }

    /** get_lru_frame: the frame in front of the tail sentinel. */
    method GetLruFrame() returns (frame: int)
      requires Valid() && size > 0
      ensures frame == Order()[size - 1]
    {
      var lru := tail.prev;
      assert nodes[size + 1].prev == nodes[size];
      frame := lru.frame;
    }

    /** Takes a node out of the list and seals the gap. */
    method Unlink(node: LruNode, ghost s: seq<LruNode>, ghost i: nat)
      requires Linked(s) && 0 < i < |s| - 1 && s[i] == node
      modifies set n | n in s
      ensures Linked(Delete(s, i))
    {
      var left := node.prev;
      var right := node.next;
      assert left == s[i - 1] && right == s[i + 1];
      left.next := right;
      right.prev := left;
      ghost var d := Delete(s, i);
      assert forall k :: 0 <= k < |d| ==> d[k] == if k < i then s[k] else s[k + 1];
    }

    /** Puts a node behind the head sentinel. */
    method InsertFront(node: LruNode, ghost s: seq<LruNode>)
      requires Linked(s) && node !in s
      modifies (set n | n in s), node
      ensures Linked([s[0], node] + s[1..])
    {
      var left := head;
      var right := head.next;
      assert s[0].next == s[1];
      left.next := node;
      node.next := right;
      right.prev := node;
      node.prev := head;
      ghost var r := [s[0], node] + s[1..];
      assert forall k :: 2 <= k < |r| ==> r[k] == s[k - 1];
    }

    lemma FramesPromote(s: seq<LruNode>, i: nat)
      requires 0 < i < |s| - 1
      ensures Frames([s[0], s[i]] + Delete(s, i)[1..]) == Promote(Frames(s), i - 1)
    {
      var l := [s[0], s[i]] + Delete(s, i)[1..];
      forall k | 0 <= k < |s| - 2 ensures Frames(l)[k] == Promote(Frames(s), i - 1)[k] {
        PromoteAt(Frames(s), i - 1, k);
        if k > 0 { DeleteAt(s, i, k); }
      }
    }

    lemma BeforeFirst(frame: nat, p: nat)
      requires Valid() && frame < size && p == IndexOf(Order(), frame)
      ensures p < size && nodes[p + 1].frame == frame
      ensures forall j :: 0 <= j <= p ==> nodes[j].frame != frame
    {
      forall j | 0 <= j <= p ensures nodes[j].frame != frame {
        if j > 0 { assert Order()[..p][j - 1] == nodes[j].frame; }
      }
      assert Order()[p] == nodes[p + 1].frame;
    }

    /** access_frame: the frame moves to the front, the others keep their order. */
    method AccessFrame(frame: nat)
      requires Valid() && frame < size
      modifies this`nodes, repr
      ensures Valid() && Order() == MoveToFront(old(Order()), frame)
    {
      var node := head;
      ghost var i := 0;
      ghost var p := IndexOf(Order(), frame);
      BeforeFirst(frame, p);
      while node.frame != frame
        invariant 0 <= i <= p + 1 && node == nodes[i]
        decreases |nodes| - i
      {
        assert nodes[i].next == nodes[i + 1];
        node := node.next;
        i := i + 1;
      }
      assert i == p + 1;
      MoveNode(node, i);
    }

    /** The relinking half of access_frame. */
    method MoveNode(node: LruNode, ghost i: nat)
      requires Valid() && 0 < i <= size && nodes[i] == node
      modifies this`nodes, repr
      ensures Valid() && Order() == Promote(old(Order()), i - 1)
    {
      ghost var s := nodes;
      ghost var d := Delete(s, i);
      Unlink(node, s, i);
      assert d[0] == s[0];
      DeleteMembers(s, i, node);
      InsertFront(node, d);
      nodes := [s[0], node] + d[1..];
      FramesPromote(s, i);
      PromoteKeeps(Frames(s), i - 1);
      Members(s, i);
    }

    lemma Members(s: seq<LruNode>, i: nat)
      requires NoDup(s) && 0 < i < |s|
      ensures forall n :: n in [s[0], s[i]] + Delete(s, i)[1..] <==> n in s
    {
      var d := Delete(s, i);
      assert d == [s[0]] + d[1..];
      forall n ensures n in d <==> n in s && n != s[i] {
        DeleteMembers(s, i, n);
      }
    }
  }
}

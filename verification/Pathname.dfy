/** src/fs/pathname.c: cutting a path into components, and following them from the root. */
module Pathnames {
  import opened Disks
  import opened Records
  import opened Layout
  import opened Inodes
  import opened DirSpec
  import opened Directories

  const SLASH: Byte := 0x2f

  /** A C string without its terminator. */
  type Path = seq<Byte>

  datatype Option<T> = None | Some(value: T)

  function SkipSlashes(p: Path): (r: Path)
    ensures |r| <= |p| && (r != [] ==> r[0] != SLASH)
    decreases p
  {
    if p == [] || p[0] != SLASH then p else SkipSlashes(p[1..])
  }

  /** The characters up to the next slash. */
  function Head(p: Path): (r: Name)
    ensures |r| <= |p| && r == p[..|r|] && (|r| < |p| ==> p[|r|] == SLASH)
    ensures forall i :: 0 <= i < |r| ==> r[i] != SLASH
    decreases p
  {
    if p == [] || p[0] == SLASH then [] else [p[0]] + Head(p[1..])
  }

  /** The names between the slashes. */
  function Components(p: Path): seq<Name>
    decreases |p|
  {
    var q := SkipSlashes(p);
    if q == [] then [] else [Head(q)] + Components(q[|Head(q)|..])
  }

  // ----- Slashes do not matter

  lemma {:induction false} SkipSlashesAppend(p: Path, q: Path)
    ensures SkipSlashes(p) == [] ==> SkipSlashes(p + q) == SkipSlashes(q)
    ensures SkipSlashes(p) != [] ==> SkipSlashes(p + q) == SkipSlashes(p) + q
    decreases p
  {
    if p == [] {
      assert p + q == q;
    } else if p[0] == SLASH {
      assert (p + q)[1..] == p[1..] + q;
      SkipSlashesAppend(p[1..], q);
    }
  }

  lemma {:induction false} HeadAppend(p: Path, q: Path)
    requires q == [] || q[0] == SLASH
    ensures Head(p + q) == Head(p)
    decreases p
  {
    if p == [] {
      assert p + q == q;
    } else if p[0] != SLASH {
      assert (p + q)[1..] == p[1..] + q;
      HeadAppend(p[1..], q);
    }
  }

  lemma ComponentsSkip(p: Path)
    ensures Components(SkipSlashes(p)) == Components(p)
  {
    var q := SkipSlashes(p);
    if q != [] { assert SkipSlashes(q) == q; }
  }

  lemma FirstComponent(p: Path)
    requires SkipSlashes(p) != []
    ensures var q := SkipSlashes(p); Components(p) == [Head(q)] + Components(q[|Head(q)|..])
  {
  }

  /** Joining two paths with a slash joins their components: so extra leading, inner and
      trailing slashes add nothing. */
  lemma {:induction false} ComponentsJoin(p: Path, q: Path)
    ensures Components(p + [SLASH] + q) == Components(p) + Components(q)
    decreases |p|
  {
    hide Components, Head;
    var t := [SLASH] + q;
    var r := SkipSlashes(p);
    assert p + [SLASH] + q == p + t;
    SkipSlashesAppend(p, t);
    SlashFirst(q);
    ComponentsSkip(p);
    if r == [] {
      ComponentsSkip(p + t);
      ComponentsSkip(t);
      NoComponents(p);
    } else {
      HeadAppend(r, t);
      FirstComponent(p);
      FirstComponent(p + t);
      var h := Head(r);
      assert (r + t)[|h|..] == r[|h|..] + [SLASH] + q;
      ComponentsJoin(r[|h|..], q);
      assert [h] + (Components(r[|h|..]) + Components(q)) == [h] + Components(r[|h|..]) + Components(q);
    }
  }

  lemma SlashFirst(q: Path)
    ensures Components([SLASH] + q) == Components(q)
  {
    var t := [SLASH] + q;
    assert t[1..] == q;
    assert SkipSlashes(t) == SkipSlashes(q);
    ComponentsSkip(q);
    ComponentsSkip(t);
  }

  lemma ExtraSlashes(p: Path, q: Path)
    ensures Components([SLASH] + p) == Components(p)
    ensures Components(p + [SLASH]) == Components(p)
    ensures Components(p + [SLASH, SLASH] + q) == Components(p + [SLASH] + q)
  {
    hide Components;
    SlashFirst(p);
    SlashFirst(q);
    assert p + [SLASH] + [] == p + [SLASH];
    assert p + [SLASH] + ([SLASH] + q) == p + [SLASH, SLASH] + q;
    ComponentsJoin(p, []);
    NoComponents([]);
    ComponentsJoin(p, q);
    ComponentsJoin(p, [SLASH] + q);
  }

  /** A name that can be a path component. */
  predicate IsComponent(c: Name) {
    c != [] && forall i :: 0 <= i < |c| ==> c[i] != SLASH
  }

  /** The absolute path with the given components. */
  function Join(cs: seq<Name>): Path
    decreases cs
  {
    if cs == [] then [] else [SLASH] + cs[0] + Join(cs[1..])
  }

  lemma {:induction false} HeadWhole(c: Name)
    requires forall i :: 0 <= i < |c| ==> c[i] != SLASH
    ensures Head(c) == c
    decreases c
  {
    if c != [] { HeadWhole(c[1..]); }
  }

  /** Cutting a joined path gives the components back. */
  lemma {:induction false} CutJoined(cs: seq<Name>)
    requires forall i :: 0 <= i < |cs| ==> IsComponent(cs[i])
    ensures Components(Join(cs)) == cs
    decreases cs
  {
    if cs != [] {
      var c, rest := cs[0], Join(cs[1..]);
      var p := Join(cs);
      assert IsComponent(c);
      assert p == [SLASH] + (c + rest);
      assert p[1..] == c + rest;
      assert SkipSlashes(p) == c + rest;
      HeadAppend(c, rest);
      HeadWhole(c);
      assert (c + rest)[|c|..] == rest;
      CutJoined(cs[1..]);
    }
  }

  lemma {:induction false} ComponentsAreNames(p: Path, i: nat)
    requires i < |Components(p)|
    ensures IsComponent(Components(p)[i])
    decreases |p|
  {
    var q := SkipSlashes(p);
    if i > 0 { ComponentsAreNames(q[|Head(q)|..], i - 1); }
  }

  // ----- consume

  /** The loops over slashes. */
  method SkipFrom(path: Path, start: nat) returns (i: nat)
    requires start <= |path|
    ensures start <= i <= |path| && path[i..] == SkipSlashes(path[start..])
  {
    i := start;
    while i < |path| && path[i] == SLASH
      invariant start <= i <= |path| && SkipSlashes(path[i..]) == SkipSlashes(path[start..])
    {
      assert path[i..][1..] == path[i + 1..];
      i := i + 1;
    }
  }

  lemma {:induction false} HeadIs(q: Path, n: nat)
    requires n <= |q| && (forall k :: 0 <= k < n ==> q[k] != SLASH) && (n == |q| || q[n] == SLASH)
    ensures Head(q) == q[..n]
    decreases n
  {
    if n > 0 {
      HeadIs(q[1..], n - 1);
      assert q[..n] == [q[0]] + q[1..][..n - 1];
    }
  }

  /** The loop over a component. */
  method EndOfName(path: Path, start: nat) returns (i: nat)
    requires start <= |path|
    ensures start <= i <= |path| && path[start..i] == Head(path[start..])
  {
    i := start;
    while i < |path| && path[i] != SLASH
      invariant start <= i <= |path| && forall k :: start <= k < i ==> path[k] != SLASH
    {
      i := i + 1;
    }
    HeadIs(path[start..], i - start);
    assert path[start..][..i - start] == path[start..i];
  }

  lemma NoComponents(p: Path)
    ensures Components(p) == [] <==> SkipSlashes(p) == []
  {
  }

  /** consume: the next component, and the path behind it and its slashes; NULL when only
      slashes are left, and then the name buffer keeps what it held. */
  method Consume(path: Path, buffer: Name) returns (rest: Option<Path>, name: Name)
    ensures Components(path) == [] ==> rest == None && name == buffer
    ensures Components(path) != [] ==>
      && rest.Some? && name == Components(path)[0] && Components(rest.value) == Components(path)[1..]
      && (rest.value == [] <==> |Components(path)| == 1)
  {
    var start := SkipFrom(path, 0);
    assert path[0..] == path;
    if start == |path| {
      return None, buffer;
    }
    var end := EndOfName(path, start);
    name := path[start..end];
    assert path[start..][|name|..] == path[end..];
    var next := SkipFrom(path, end);
    ComponentsSkip(path[end..]);
    NoComponents(path[end..]);
    rest := Some(path[next..]);
  }

  // ----- Following components

  /** Directories are well formed, and what their entries point at knows its own number. */
  ghost predicate VolumeOk(img: Image) {
    && InodeAt(img, 0).inum == 0
    && forall i :: 0 <= i < NUM_INODES && IsDirectory(img, i) ==> DirOk(img, i) && EntriesNumbered(img, i)
  }

  ghost predicate EntriesNumbered(img: Image, i: nat)
    requires i < NUM_INODES && DirOk(img, i)
  {
    forall e :: e in EntriesOf(img, i) && 0 <= e.inum < NUM_INODES ==> InodeAt(img, e.inum).inum == e.inum
  }

  /** Folds directory lookup over a list of names, from slot `i`; -1 when a step fails. */
  ghost function Walk(img: Image, i: nat, cs: seq<Name>): (r: int)
    requires VolumeOk(img) && i < NUM_INODES
    ensures -1 <= r < NUM_INODES
    decreases cs
  {
    if cs == [] then i
    else if !IsDirectory(img, i) then -1
    else
      var n := Lookup(EntriesOf(img, i), cs[0]);
      if 0 <= n < NUM_INODES then Walk(img, n, cs[1..]) else -1
  }

  lemma {:induction false} WalkSplit(img: Image, i: nat, a: seq<Name>, b: seq<Name>)
    requires VolumeOk(img) && i < NUM_INODES
    ensures Walk(img, i, a + b) == if Walk(img, i, a) == -1 then -1 else Walk(img, Walk(img, i, a), b)
    decreases a
  {
    hide Lookup, EntriesOf, IsDirectory, DirOk, VolumeOk;
    if a == [] {
      assert a + b == b;
    } else {
      assert (a + b)[1..] == a[1..] + b && (a + b)[0] == a[0];
      if IsDirectory(img, i) {
        DirFacts(img, i);
        var n := Lookup(EntriesOf(img, i), a[0]);
        if 0 <= n < NUM_INODES { WalkSplit(img, n, a[1..], b); }
      }
    }
  }

  lemma WalkOne(img: Image, i: nat, name: Name)
    requires VolumeOk(img) && i < NUM_INODES
    ensures Walk(img, i, [name]) ==
      if IsDirectory(img, i) && 0 <= Lookup(EntriesOf(img, i), name) < NUM_INODES then Lookup(EntriesOf(img, i), name)
      else -1
  {
    assert [name][1..] == [];
  }

  /** Looking a path up succeeds with x exactly when looking up its parent succeeds with a
      directory in which the last name leads to x. */
  lemma LookupViaParent(img: Image, cs: seq<Name>, x: nat)
    requires VolumeOk(img) && cs != []
    ensures Walk(img, 0, cs) == x <==>
      var p := Walk(img, 0, cs[..|cs| - 1]);
      p != -1 && IsDirectory(img, p) && x < NUM_INODES && Lookup(EntriesOf(img, p), cs[|cs| - 1]) == x
  {
    hide Walk, EntriesOf, Lookup, IsDirectory, DirOk, VolumeOk;
    var p, last := Walk(img, 0, cs[..|cs| - 1]), cs[|cs| - 1];
    assert cs == cs[..|cs| - 1] + [last];
    WalkSplit(img, 0, cs[..|cs| - 1], [last]);
    if p != -1 { WalkOne(img, p, last); }
  }

  lemma LookupNumbered(img: Image, i: nat, name: Name)
    requires VolumeOk(img) && IsDirectory(img, i)
    ensures var n := Lookup(EntriesOf(img, i), name); 0 <= n < NUM_INODES ==> InodeAt(img, n).inum == n
  {
    DirFacts(img, i);
    hide *;
    LookupIn(EntriesOf(img, i), name);
  }

  lemma DirFacts(img: Image, i: nat)
    requires VolumeOk(img) && IsDirectory(img, i)
    ensures DirOk(img, i)
    ensures forall e :: e in EntriesOf(img, i) && 0 <= e.inum < NUM_INODES ==> InodeAt(img, e.inum).inum == e.inum
  {
    hide DirOk, EntriesOf;
    assert EntriesNumbered(img, i);
  }

  lemma LookupIn(es: seq<Dirent>, name: Name)
    ensures Lookup(es, name) >= 0 ==> exists e :: e in es && e.inum == Lookup(es, name)
  {
    if Find(es, name) < |es| { assert es[Find(es, name)] in es; }
  }

  /** One round of the loop of resolve: from slot `i` one name further. */
  method Step(d: Disk, curr: Inode, name: Name, ghost i: nat) returns (ok: bool, next: Inode)
    requires d.Valid() && VolumeOk(d.Image()) && i < NUM_INODES
    requires curr == InodeAt(d.Image(), i) && curr.inum == i && curr.kind == DIRECTORY_T
    ensures ok <==> Walk(d.Image(), i, [name]) != -1
    ensures ok ==> next == InodeAt(d.Image(), Walk(d.Image(), i, [name])) && next.inum == Walk(d.Image(), i, [name])
  {
    next := curr;
    LookupNumbered(d.Image(), i, name);
    WalkOne(d.Image(), i, name);
    hide Walk, EntriesOf, Lookup;
    var nextInum := DirLookup(d, curr.inum, name);
    if nextInum == -1 {
      return false, next;
    }
    ok, next := InodeRead(d, nextInum);
  }

  lemma WalkStep(img: Image, i: nat, cs: seq<Name>)
    requires VolumeOk(img) && i < NUM_INODES && cs != []
    ensures var n := Walk(img, i, [cs[0]]); Walk(img, i, cs) == if n == -1 then -1 else Walk(img, n, cs[1..])
    ensures !IsDirectory(img, i) ==> Walk(img, i, cs) == -1
  {
    WalkSplit(img, i, [cs[0]], cs[1..]);
    assert [cs[0]] + cs[1..] == cs;
  }

  /** The components resolve follows: all of them, or all but the last. */
  function Followed(cs: seq<Name>, parent: bool): seq<Name> {
    if parent && cs != [] then cs[..|cs| - 1] else cs
  }

  lemma FollowedStep(cs: seq<Name>, parent: bool)
    requires cs != []
    ensures Followed(cs, parent) == [] <==> parent && |cs| == 1
    ensures Followed(cs, parent) != [] ==>
              Followed(cs, parent)[0] == cs[0] && Followed(cs, parent)[1..] == Followed(cs[1..], parent)
  {
  }

  /** The outcome of resolve for an absolute path with components `cs`. */
  ghost predicate Resolves(img: Image, cs: seq<Name>, parent: bool, buffer: Name, ok: bool, out: Inode, name: Name)
    requires VolumeOk(img)
  {
    var x := Walk(img, 0, Followed(cs, parent));
    && (ok <==> x != -1 && (parent && cs != [] ==> IsDirectory(img, x)))
    && (ok ==> out == InodeAt(img, x) && out.inum == x && name == if cs == [] then buffer else cs[|cs| - 1])
  }

  /** In the middle of the loop of resolve: slot `i` is reached, `left` is still to follow. */
  ghost predicate Following(img: Image, cs: seq<Name>, parent: bool, buffer: Name,
    left: seq<Name>, i: nat, curr: Inode, name: Name)
    requires VolumeOk(img)
  {
    && i < NUM_INODES && curr == InodeAt(img, i) && curr.inum == i
    && Walk(img, 0, Followed(cs, parent)) == Walk(img, i, Followed(left, parent))
    && |left| <= |cs| && left == cs[|cs| - |left|..]
    && name == (if |left| == |cs| then buffer else cs[|cs| - 1 - |left|])
    && (parent && cs != [] ==> left != [])
  }

  /** Nothing is left, or only the last name when the parent is asked for. */
  lemma FollowEnds(img: Image, cs: seq<Name>, parent: bool, buffer: Name, left: seq<Name>, i: nat, curr: Inode, name: Name)
    requires VolumeOk(img) && Following(img, cs, parent, buffer, left, i, curr, name)
    ensures left == [] ==> Resolves(img, cs, parent, buffer, true, curr, name)
    ensures parent && |left| == 1 && IsDirectory(img, i) ==> Resolves(img, cs, parent, buffer, true, curr, left[0])
    ensures left != [] && !IsDirectory(img, i) ==> Resolves(img, cs, parent, buffer, false, curr, left[0])
  {
    hide VolumeOk, Walk, InodeAt, EntriesOf;
    NothingFollowed(img, i, parent);
    if left != [] {
      FollowedStep(left, parent);
      if !IsDirectory(img, i) { NotFollowed(img, i, left, parent); }
    }
  }

  /** One more name is followed. */
  lemma FollowOne(img: Image, cs: seq<Name>, parent: bool, buffer: Name,
    left: seq<Name>, i: nat, curr: Inode, name: Name, next: Inode)
    requires VolumeOk(img) && Following(img, cs, parent, buffer, left, i, curr, name)
    requires left != [] && !(parent && |left| == 1) && IsDirectory(img, i)
    ensures var n := Walk(img, i, [left[0]]);
      && (n == -1 ==> Resolves(img, cs, parent, buffer, false, curr, left[0]))
      && (n != -1 && next == InodeAt(img, n) && next.inum == n ==>
            Following(img, cs, parent, buffer, left[1..], n, next, left[0]))
  {
    hide VolumeOk, Walk, InodeAt, EntriesOf, Followed;
    FollowedStep(left, parent);
    WalkStep(img, i, Followed(left, parent));
  }

  /** resolve: follows an absolute path, or all but its last component. */
  method Resolve(d: Disk, path: Path, parent: bool, buffer: Name) returns (ok: bool, out: Inode, name: Name)
    requires d.Valid() && VolumeOk(d.Image())
    requires forall i :: 0 <= i < |Components(path)| ==> |Components(path)[i]| < MAX_FILENAME_LEN
    ensures if path == [] || path[0] != SLASH then !ok
            else Resolves(d.Image(), Components(path), parent, buffer, ok, out, name)
  {
    name := buffer;
    out := InodeRecord(0, 0, 0, 0, seq(NDIRECT, i => 0));
    if path == [] || path[0] != SLASH {
      return false, out, name;
    }
    var curr;
    ok, curr := InodeRead(d, 0);
    ghost var img, cs, i: nat := d.Image(), Components(path), 0;
    assert Following(img, cs, parent, buffer, cs, i, curr, name);
    hide VolumeOk, Walk, Followed, Components, InodeAt, Resolves;
    var rest := path;
    while true
      invariant Following(img, cs, parent, buffer, Components(rest), i, curr, name)
      decreases |Components(rest)|
    {
      ghost var left, last := Components(rest), name;
      FollowEnds(img, cs, parent, buffer, left, i, curr, last);
      var next;
      next, name := Consume(rest, name);
      if next.None? {
        return true, curr, name;
      }
      if curr.kind != DIRECTORY_T {
        return false, curr, name;
      }
      if parent && next.value == [] {
        return true, curr, name;
      }
      ghost var here := curr;
      ok, curr := Step(d, curr, name, i);
      FollowOne(img, cs, parent, buffer, left, i, here, last, curr);
      if !ok {
        NoOutput(img, cs, parent, buffer, here, curr, name);
        return false, curr, name;
      }
      i := Walk(img, i, [name]);
      rest := next.value;
    }
  }

  /** A failed resolve says nothing about its output. */
  lemma NoOutput(img: Image, cs: seq<Name>, parent: bool, buffer: Name, a: Inode, b: Inode, name: Name)
    requires VolumeOk(img) && Resolves(img, cs, parent, buffer, false, a, name)
    ensures Resolves(img, cs, parent, buffer, false, b, name)
  {
  }

  lemma NothingFollowed(img: Image, i: nat, parent: bool)
    requires VolumeOk(img) && i < NUM_INODES
    ensures Followed([], parent) == [] && Walk(img, i, []) == i
  {
  }

  /** From something that is no directory no name leads anywhere. */
  lemma NotFollowed(img: Image, i: nat, cs: seq<Name>, parent: bool)
    requires VolumeOk(img) && i < NUM_INODES && cs != [] && !IsDirectory(img, i)
    ensures var x := Walk(img, i, Followed(cs, parent)); x == -1 || (parent && x == i)
  {
  }

  /** path_lookup */
  method PathLookup(d: Disk, path: Path) returns (ok: bool, out: Inode)
    requires d.Valid() && VolumeOk(d.Image())
    requires forall i :: 0 <= i < |Components(path)| ==> |Components(path)[i]| < MAX_FILENAME_LEN
    ensures ok <==> path != [] && path[0] == SLASH && Walk(d.Image(), 0, Components(path)) != -1
    ensures ok ==> var x := Walk(d.Image(), 0, Components(path)); out == InodeAt(d.Image(), x) && out.inum == x
  {
    var name;
    ok, out, name := Resolve(d, path, false, []);
  }

  /** path_lookup_parent */
  method PathLookupParent(d: Disk, path: Path, buffer: Name) returns (ok: bool, out: Inode, name: Name)
    requires d.Valid() && VolumeOk(d.Image())
    requires forall i :: 0 <= i < |Components(path)| ==> |Components(path)[i]| < MAX_FILENAME_LEN
    ensures if path == [] || path[0] != SLASH then !ok
            else Resolves(d.Image(), Components(path), true, buffer, ok, out, name)
  {
    ok, out, name := Resolve(d, path, true, buffer);
  }
}

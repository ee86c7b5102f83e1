/** Directories as sequences of entries, and as the finite maps a scan sees in them. */
module DirSpec {
  import opened Disks
  import opened Records

  const DOT: Name := [0x2e]
  const DOTDOT: Name := [0x2e, 0x2e]

  /** The records of a directory. */
  function Entries(content: seq<Byte>): (r: seq<Dirent>)
    requires |content| % RECORD_SIZE == 0
    ensures |r| == |content| / RECORD_SIZE
  {
    seq(|content| / RECORD_SIZE, j requires 0 <= j < |content| / RECORD_SIZE =>
      DecodeDirent(content[j * RECORD_SIZE..j * RECORD_SIZE + RECORD_SIZE]))
  }

  predicate Matches(e: Dirent, name: Name) {
    e.valid && e.name == name
  }

  /** The place of the first valid entry of that name, or the number of entries. */
  function Find(es: seq<Dirent>, name: Name): (r: nat)
    ensures r <= |es|
    decreases es
  {
    if es == [] then 0 else if Matches(es[0], name) then 0 else 1 + Find(es[1..], name)
  }

  /** What a scan for a name returns. */
  function Lookup(es: seq<Dirent>, name: Name): int {
    if Find(es, name) < |es| then es[Find(es, name)].inum else -1
  }

  lemma {:induction false} FindFirst(es: seq<Dirent>, name: Name, j: nat)
    requires j <= |es|
    requires forall k :: 0 <= k < j ==> !Matches(es[k], name)
    requires j < |es| ==> Matches(es[j], name)
    ensures Find(es, name) == j
    decreases j
  {
    if j > 0 {
      FindFirst(es[1..], name, j - 1);
    }
  }

  lemma {:induction false} FindFacts(es: seq<Dirent>, name: Name)
    ensures forall k :: 0 <= k < Find(es, name) ==> !Matches(es[k], name)
    ensures Find(es, name) < |es| ==> Matches(es[Find(es, name)], name)
    decreases es
  {
    if es != [] && !Matches(es[0], name) {
      FindFacts(es[1..], name);
      forall k | 0 <= k < Find(es, name) ensures !Matches(es[k], name) {
        if k > 0 { assert es[k] == es[1..][k - 1]; }
      }
    }
  }

  // ----- A directory as a map

  /** Of entries with the same name the first one counts. */
  function DirMap(es: seq<Dirent>): map<Name, int>
    decreases es
  {
    if es == [] then map[]
    else if es[0].valid then DirMap(es[1..])[es[0].name := es[0].inum]
    else DirMap(es[1..])
  }

  /** A scan agrees with the map. */
  lemma {:induction false} LookupIsMap(es: seq<Dirent>, name: Name)
    ensures name in DirMap(es) <==> Find(es, name) < |es|
    ensures Lookup(es, name) == if name in DirMap(es) then DirMap(es)[name] else -1
    decreases es
  {
    if es != [] {
      LookupIsMap(es[1..], name);
    }
  }

  /** Appending an entry under a fresh name inserts that key. */
  lemma {:induction false} AppendInserts(es: seq<Dirent>, e: Dirent)
    requires e.valid && e.name !in DirMap(es)
    ensures DirMap(es + [e]) == DirMap(es)[e.name := e.inum]
    decreases es
  {
    if es == [] {
      assert es + [e] == [e];
    } else {
      assert (es + [e])[1..] == es[1..] + [e];
      AppendInserts(es[1..], e);
    }
  }

  /** Valid entries have different names; the others are wiped. */
  ghost predicate Clean(es: seq<Dirent>) {
    && (forall j, k :: 0 <= j < k < |es| && es[j].valid && es[k].valid ==> es[j].name != es[k].name)
    && (forall j :: 0 <= j < |es| && !es[j].valid ==> es[j].name == [])
  }

  const WIPED := Dirent(false, [], 0)

  /** The first record with that name, valid or not: what dir_remove looks for. */
  function FindName(es: seq<Dirent>, name: Name): (r: nat)
    ensures r <= |es|
    ensures r < |es| ==> es[r].name == name
    ensures forall k :: 0 <= k < r ==> es[k].name != name
    decreases es
  {
    if es == [] then 0 else if es[0].name == name then 0 else 1 + FindName(es[1..], name)
  }

  /** Wiping the entry of a name deletes that key and keeps every other one. */
  lemma {:induction false} WipeDeletes(es: seq<Dirent>, name: Name)
    requires Clean(es) && name != [] && FindName(es, name) < |es|
    ensures DirMap(es[FindName(es, name) := WIPED]) == DirMap(es) - {name}
    ensures name in DirMap(es)
    decreases es
  {
    var j := FindName(es, name);
    if j == 0 {
      assert es[0 := WIPED][1..] == es[1..];
      NotInMap(es[1..], name);
    } else {
      assert es[j := WIPED][1..] == es[1..][j - 1 := WIPED];
      WipeDeletes(es[1..], name);
    }
  }

  lemma {:induction false} NotInMap(es: seq<Dirent>, name: Name)
    requires forall k :: 0 <= k < |es| && es[k].valid ==> es[k].name != name
    ensures name !in DirMap(es)
    decreases es
  {
    if es != [] {
      NotInMap(es[1..], name);
    }
  }

  /** In a clean directory dir_remove finds an entry exactly when the map has the key. */
  lemma RemoveFindsIff(es: seq<Dirent>, name: Name)
    requires Clean(es) && name != []
    ensures FindName(es, name) < |es| <==> name in DirMap(es)
  {
    if FindName(es, name) < |es| {
      WipeDeletes(es, name);
    } else {
      NotInMap(es, name);
    }
  }

  lemma WipeKeepsClean(es: seq<Dirent>, j: nat)
    requires Clean(es) && j < |es|
    ensures Clean(es[j := WIPED])
  {
  }

  lemma AppendKeepsClean(es: seq<Dirent>, e: Dirent)
    requires Clean(es) && e.valid && e.name !in DirMap(es)
    ensures Clean(es + [e])
  {
    forall j | 0 <= j < |es| && es[j].valid ensures es[j].name != e.name {
      LookupIsMap(es, e.name);
      FindFacts(es, e.name);
    }
  }

  predicate IsDot(name: Name) {
    name == DOT || name == DOTDOT
  }

  /** dir_empty looks for the first valid entry that is neither "." nor "..". */
  function FirstOther(es: seq<Dirent>): (r: nat)
    ensures r <= |es|
    decreases es
  {
    if es == [] then 0 else if es[0].valid && !IsDot(es[0].name) then 0 else 1 + FirstOther(es[1..])
  }

  /** It finds none exactly when only dot keys are in the map. */
  lemma {:induction false} EmptyIff(es: seq<Dirent>)
    ensures FirstOther(es) == |es| <==> forall name :: name in DirMap(es) ==> IsDot(name)
    decreases es
  {
    if es != [] {
      EmptyIff(es[1..]);
      if es[0].valid {
        assert es[0].name in DirMap(es);
      }
      forall name | name in DirMap(es[1..]) ensures name in DirMap(es) {
      }
    }
  }

  // ----- Adding an entry

  /** The first record that is not valid. */
  function FirstHole(es: seq<Dirent>): (r: nat)
    ensures r <= |es|
    ensures r < |es| ==> !es[r].valid
    ensures forall k :: 0 <= k < r ==> es[k].valid
    decreases es
  {
    if es == [] then 0 else if !es[0].valid then 0 else 1 + FirstHole(es[1..])
  }

  const POINTER_SIZE: nat := 8

  /** The 64 bytes from the address of a pointer variable on: the pointer, which dir_add has
      compared with NULL, and whatever lies behind it. */
  ghost predicate Stray(bytes: seq<Byte>) {
    |bytes| == RECORD_SIZE && bytes[..POINTER_SIZE] != Zeros(POINTER_SIZE)
  }

  /** The entries after a successful dir_add. Into a hole the code writes `stray`, the bytes
      at the address of its own pointer variable, instead of the entry. */
  ghost function AfterAdd(es: seq<Dirent>, e: Dirent, stray: seq<Byte>): seq<Dirent>
    requires Stray(stray)
  {
    if FirstHole(es) < |es| then es[FirstHole(es) := DecodeDirent(stray)] else es + [e]
  }

  lemma FirstHoleIs(es: seq<Dirent>, j: nat)
    requires j <= |es| && forall k :: 0 <= k < j ==> es[k].valid
    requires j < |es| ==> !es[j].valid
    ensures FirstHole(es) == j
  {
  }

  lemma FindNameIs(es: seq<Dirent>, name: Name, j: nat)
    requires j <= |es| && forall k :: 0 <= k < j ==> es[k].name != name
    requires j < |es| ==> es[j].name == name
    ensures FindName(es, name) == j
  {
  }

  /** Removing an entry leaves a hole. */
  lemma WipeLeavesHole(es: seq<Dirent>, name: Name)
    requires FindName(es, name) < |es|
    ensures var after := es[FindName(es, name) := WIPED]; FirstHole(after) <= FindName(es, name) < |after|
  {
    var after := es[FindName(es, name) := WIPED];
    assert !after[FindName(es, name)].valid;
  }

  /** Stray bytes that decode to no entry: a pointer whose lowest byte is 0. */
  const NO_ENTRY: seq<Byte> := [0, 1] + Zeros(RECORD_SIZE - 2)

  lemma SomeStray()
    ensures Stray(NO_ENTRY) && !DecodeDirent(NO_ENTRY).valid
  {
    assert NO_ENTRY[..POINTER_SIZE][1] == 1;
  }

  /** Whatever the stray bytes are, the new name can be looked up afterwards: this holds
      exactly when the directory has no hole. */
  lemma AddInsertsIffNoHole(es: seq<Dirent>, e: Dirent)
    requires e.valid && e.inum >= 0 && Find(es, e.name) == |es|
    ensures (forall stray: seq<Byte> :: Stray(stray) ==> Lookup(AfterAdd(es, e, stray), e.name) == e.inum)
            <==> FirstHole(es) == |es|
  {
    FindFacts(es, e.name);
    if FirstHole(es) == |es| {
      FindFirst(es + [e], e.name, |es|);
    } else {
      var stray := NO_ENTRY;
      SomeStray();
      var after := AfterAdd(es, e, stray);
      FindFirst(after, e.name, |after|);
      assert Lookup(after, e.name) == -1;
    }
  }

  /** For each value of the stray bytes: the new name is found exactly when there is no hole,
      or the stray record happens to be a valid entry of that name and number. */
  lemma AddFindsIff(es: seq<Dirent>, e: Dirent, stray: seq<Byte>)
    requires e.valid && e.inum >= 0 && Find(es, e.name) == |es| && Stray(stray)
    ensures Lookup(AfterAdd(es, e, stray), e.name) == e.inum
            <==> FirstHole(es) == |es| || (Matches(DecodeDirent(stray), e.name) && DecodeDirent(stray).inum == e.inum)
  {
    hide DecodeDirent, Find, FirstHole;
    FindFacts(es, e.name);
    var h, after := FirstHole(es), AfterAdd(es, e, stray);
    if h == |es| {
      FindFirst(after, e.name, |es|);
    } else if Matches(DecodeDirent(stray), e.name) {
      FindFirst(after, e.name, h);
    } else {
      FindFirst(after, e.name, |after|);
    }
  }

  /** An input on which it fails: an entry is removed, another is added, and the new name is
      not found. */
  lemma AddFailsAfterRemove(root: Int32, a: Int32, b: Int32)
    ensures var es := [Dirent(true, DOT, root), Dirent(true, DOTDOT, root), Dirent(true, [0x61], a)];
      var holed := es[2 := WIPED];
      && FindName(es, [0x61]) == 2 && Stray(NO_ENTRY)
      && Lookup(AfterAdd(holed, Dirent(true, [0x62], b), NO_ENTRY), [0x62]) == -1
  {
    var es := [Dirent(true, DOT, root), Dirent(true, DOTDOT, root), Dirent(true, [0x61], a)];
    SomeStray();
    FindNameIs(es, [0x61], 2);
    var holed := es[2 := WIPED];
    FirstHoleIs(holed, 2);
    var after := AfterAdd(holed, Dirent(true, [0x62], b), NO_ENTRY);
    assert after == es[2 := DecodeDirent(NO_ENTRY)];
    FindFirst(after, [0x62], 3);
  }
}

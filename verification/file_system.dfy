/**
 The one directory the renamer works in, seen as a finite map from entry
 names to entries, and the move operation (`shutil.move`) on it.
 */
module FileSystem {

  type Name = string

  /** A directory entry: a regular file with its content, or anything that is
      not a regular file (a sub-directory, say). */
  datatype Node = File(data: seq<bv8>) | Folder

  type Directory = map<Name, Node>

  /** `shutil.move(src, dst)` inside one directory: the entry at `src` ends up
      under `dst`, replacing whatever `dst` held, and `src` is gone. */
  function Move(d: Directory, src: Name, dst: Name): (r: Directory)
    requires src in d
    ensures dst in r && r[dst] == d[src]
    ensures src != dst ==> src !in r
    ensures forall x :: x != src && x != dst ==> (x in r <==> x in d) && (x in r ==> r[x] == d[x])
  {
    if src == dst then d else d[dst := d[src]] - {src}
  }

  /** `x` is absent from both directories or holds the same entry in both. */
  predicate SameEntry(d1: Directory, d2: Directory, x: Name) {
    (x in d1 <==> x in d2) && (x in d1 ==> d1[x] == d2[x])
  }

  /** A move into a free name is undone by the move back. */
  lemma MoveBack(d: Directory, a: Name, b: Name)
    requires a in d && b !in d
    ensures Move(Move(d, a, b), b, a) == d
  {
    var r := Move(Move(d, a, b), b, a);
    assert r.Keys == d.Keys;
    assert forall x :: x in d ==> r[x] == d[x];
  }

  /** Moves between four different names can be done in either order. */
  lemma MoveCommute(d: Directory, a: Name, b: Name, x: Name, y: Name)
    requires a in d && x in d
    requires a != x && a != y && b != x && b != y
    ensures x in Move(d, a, b) && a in Move(d, x, y)
    ensures Move(Move(d, a, b), x, y) == Move(Move(d, x, y), a, b)
  {
    var r1 := Move(Move(d, a, b), x, y);
    var r2 := Move(Move(d, x, y), a, b);
    assert r1.Keys == r2.Keys;
    assert forall k :: k in r1 ==> r1[k] == r2[k];
  }
}

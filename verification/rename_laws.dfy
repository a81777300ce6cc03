/**
 What a rename followed by an undo does to the directory.

 When the listing is a real listing of the directory and no eligible file's
 new name is taken yet, a rename moves exactly the eligible files, in
 listing order, to their new names and records exactly those pairs; the
 undo that follows puts every file back under its old name. When a new name
 is taken beforehand the law can fail in two ways: the move overwrites the
 file under that name, or, when that file has been renamed away first, the
 undo, which walks the batch front to back, moves a file back onto that name
 before the file now under it has been moved back.

 Without the free-target condition, as long as no new name is a
 sub-directory, a rename still records exactly the eligible files of the
 listing, in listing order.
 */
module RenameLaws {
  import opened FileSystem
  import opened NewNames
  import opened RenameEngine
  import opened PathSplit

  /** No name occurs twice. */
  predicate Distinct(s: seq<Name>) {
    forall i, j :: 0 <= i < j < |s| ==> s[i] != s[j]
  }

  /** `listing` can be what `os.listdir()` returned for `d`: no name twice,
      and every name an entry of `d`. */
  ghost predicate ListsFrom(d: Directory, listing: seq<Name>) {
    Distinct(listing) && forall i :: 0 <= i < |listing| ==> listing[i] in d
  }

  /** No eligible entry of the listing has a new name that is already taken. */
  ghost predicate FreeTargets(d: Directory, listing: seq<Name>, rule: Rule) {
    forall x :: x in listing && Eligible(d, x) ==> NewName(x, rule) !in d
  }

  /** The eligible entries of a listing, in listing order. */
  function EligibleNames(d: Directory, listing: seq<Name>): (e: seq<Name>)
    ensures forall x :: x in e <==> x in listing && Eligible(d, x)
    ensures Distinct(listing) ==> Distinct(e)
    decreases |listing|
  {
    if listing == [] then []
    else if Eligible(d, listing[0]) then [listing[0]] + EligibleNames(d, listing[1..])
    else EligibleNames(d, listing[1..])
  }

  /** `idx` lists where the eligible entries of `listing` sit: the eligible
      names are the listing's entries at the strictly increasing positions
      `idx`. */
  ghost predicate EligibleAt(d: Directory, listing: seq<Name>, idx: seq<int>) {
    && |idx| == |EligibleNames(d, listing)|
    && (forall k :: 0 <= k < |idx| ==> 0 <= idx[k] < |listing| && listing[idx[k]] == EligibleNames(d, listing)[k])
    && (forall k, m :: 0 <= k < m < |idx| ==> idx[k] < idx[m])
  }

  /** The positions of the eligible entries of a listing, in increasing
      order. */
  function EligiblePositions(d: Directory, listing: seq<Name>): seq<int>
    decreases |listing|
  {
    if listing == [] then []
    else
      var rest := EligiblePositions(d, listing[1..]);
      if Eligible(d, listing[0]) then
        seq(|rest| + 1, k requires 0 <= k <= |rest| => if k == 0 then 0 else rest[k - 1] + 1)
      else
        seq(|rest|, k requires 0 <= k < |rest| => rest[k] + 1)
  }

  /** The eligible names are the listing's entries at the increasing
      positions `EligiblePositions`: the filter keeps the listing order. */
  lemma {:induction false} EligibleInListingOrder(d: Directory, listing: seq<Name>)
    ensures EligibleAt(d, listing, EligiblePositions(d, listing))
    decreases |listing|
  {
    if listing != [] {
      var rest := EligiblePositions(d, listing[1..]);
      EligibleInListingOrder(d, listing[1..]);
      var idx := EligiblePositions(d, listing);
      if Eligible(d, listing[0]) {
        PositionsTake(d, listing, rest, idx);
      } else {
        PositionsSkip(d, listing, rest, idx);
      }
    }
  }

  /** An eligible head: its position 0 followed by the tail's positions moved
      up by one. */
  lemma PositionsTake(d: Directory, listing: seq<Name>, rest: seq<int>, idx: seq<int>)
    requires listing != [] && Eligible(d, listing[0]) && EligibleAt(d, listing[1..], rest)
    requires |idx| == |rest| + 1 && idx[0] == 0
    requires forall k :: 1 <= k < |idx| ==> idx[k] == rest[k - 1] + 1
    ensures EligibleAt(d, listing, idx)
  {
    TakeEntries(d, listing, rest, idx);
    TakeIncreasing(rest, idx);
  }

  /** The entries at the positions of `PositionsTake` are the eligible names. */
  lemma TakeEntries(d: Directory, listing: seq<Name>, rest: seq<int>, idx: seq<int>)
    requires listing != [] && Eligible(d, listing[0]) && EligibleAt(d, listing[1..], rest)
    requires |idx| == |rest| + 1 && idx[0] == 0
    requires forall k :: 1 <= k < |idx| ==> idx[k] == rest[k - 1] + 1
    ensures |idx| == |EligibleNames(d, listing)|
    ensures forall k :: 0 <= k < |idx| ==> 0 <= idx[k] < |listing| && listing[idx[k]] == EligibleNames(d, listing)[k]
  {
    var tail := listing[1..];
    var e := EligibleNames(d, listing);
    var e' := EligibleNames(d, tail);
    assert e == [listing[0]] + e';
    forall k | 0 <= k < |idx| ensures 0 <= idx[k] < |listing| && listing[idx[k]] == e[k] {
      if k > 0 {
        assert listing[idx[k]] == tail[rest[k - 1]] == e'[k - 1];
      }
    }
  }

  /** The positions of `PositionsTake` increase. */
  lemma TakeIncreasing(rest: seq<int>, idx: seq<int>)
    requires forall k :: 0 <= k < |rest| ==> 0 <= rest[k]
    requires forall k, m :: 0 <= k < m < |rest| ==> rest[k] < rest[m]
    requires |idx| == |rest| + 1 && idx[0] == 0
    requires forall k :: 1 <= k < |idx| ==> idx[k] == rest[k - 1] + 1
    ensures forall k, m :: 0 <= k < m < |idx| ==> idx[k] < idx[m]
  {
    forall k, m | 0 <= k < m < |idx| ensures idx[k] < idx[m] {
      if k > 0 {
        assert rest[k - 1] < rest[m - 1];
      }
    }
  }

  /** An ineligible head: the tail's positions moved up by one. */
  lemma PositionsSkip(d: Directory, listing: seq<Name>, rest: seq<int>, idx: seq<int>)
    requires listing != [] && !Eligible(d, listing[0]) && EligibleAt(d, listing[1..], rest)
    requires |idx| == |rest|
    requires forall k :: 0 <= k < |idx| ==> idx[k] == rest[k] + 1
    ensures EligibleAt(d, listing, idx)
  {
    var tail := listing[1..];
    assert EligibleNames(d, listing) == EligibleNames(d, tail);
    forall k | 0 <= k < |idx| ensures 0 <= idx[k] < |listing| && listing[idx[k]] == EligibleNames(d, listing)[k] {
      assert listing[idx[k]] == tail[rest[k]];
    }
  }

  /** The new names of `names`, position by position. */
  function NewNamesOf(names: seq<Name>, rule: Rule): (r: seq<Name>)
    ensures |r| == |names|
    ensures forall i :: 0 <= i < |names| ==> r[i] == NewName(names[i], rule)
    decreases |names|
  {
    if names == [] then []
    else [NewName(names[0], rule)] + NewNamesOf(names[1..], rule)
  }

  /** `NewNamesOf` works name by name. */
  lemma NewNamesOfCons(x: Name, names: seq<Name>, rule: Rule)
    ensures NewNamesOf([x] + names, rule) == [NewName(x, rule)] + NewNamesOf(names, rule)
  {
    assert ([x] + names)[1..] == names;
  }

  /** In a listing without repeats the first name does not come back. */
  lemma HeadNotInTail(listing: seq<Name>)
    requires Distinct(listing) && listing != []
    ensures listing[0] !in listing[1..]
  {
  }

  /** Moving each `sources[i]` to `targets[i]` is well defined in `d`: no name
      twice on either side, every source present and every target free. */
  ghost predicate Plan(d: Directory, sources: seq<Name>, targets: seq<Name>) {
    && |sources| == |targets|
    && Distinct(sources)
    && Distinct(targets)
    && (forall i :: 0 <= i < |sources| ==> sources[i] in d)
    && (forall i :: 0 <= i < |targets| ==> targets[i] !in d)
  }

  /** After the first move of a plan, the rest of it is still a plan. */
  lemma PlanTail(d: Directory, sources: seq<Name>, targets: seq<Name>)
    requires Plan(d, sources, targets) && sources != []
    ensures Plan(Move(d, sources[0], targets[0]), sources[1..], targets[1..])
  {
    var d1 := Move(d, sources[0], targets[0]);
    forall i | 0 <= i < |sources| - 1 ensures sources[1..][i] in d1 {
      assert sources[1..][i] == sources[i + 1] != sources[0];
    }
    forall i | 0 <= i < |targets| - 1 ensures targets[1..][i] !in d1 {
      assert targets[1..][i] == targets[i + 1] != targets[0];
      assert targets[i + 1] != sources[0];
    }
  }

  /** The plan carried out one move after another, first pair first. Names
      outside the plan are untouched. */
  function MoveAll(d: Directory, sources: seq<Name>, targets: seq<Name>): (r: Directory)
    requires Plan(d, sources, targets)
    ensures forall x :: x !in sources && x !in targets ==>
      (x in r <==> x in d) && (x in r ==> r[x] == d[x])
    decreases |sources|
  {
    if sources == [] then d
    else
      PlanTail(d, sources, targets);
      MoveAll(Move(d, sources[0], targets[0]), sources[1..], targets[1..])
  }

  /** After a plan, each source's content sits under its target and the
      source name is gone. */
  lemma {:induction false} MoveAllMoves(d: Directory, sources: seq<Name>, targets: seq<Name>)
    requires Plan(d, sources, targets)
    ensures forall i :: 0 <= i < |sources| ==>
      sources[i] !in MoveAll(d, sources, targets) && targets[i] in MoveAll(d, sources, targets) &&
      MoveAll(d, sources, targets)[targets[i]] == d[sources[i]]
    decreases |sources|
  {
    if sources != [] {
      PlanTail(d, sources, targets);
      var d1 := Move(d, sources[0], targets[0]);
      MoveAllMoves(d1, sources[1..], targets[1..]);
      var r := MoveAll(d1, sources[1..], targets[1..]);
      assert r == MoveAll(d, sources, targets);
      forall i | 0 <= i < |sources|
        ensures sources[i] !in r && targets[i] in r && r[targets[i]] == d[sources[i]]
      {
        if i == 0 {
          assert sources[0] !in sources[1..] && sources[0] !in targets[1..];
          assert targets[0] !in sources[1..] && targets[0] !in targets[1..];
        } else {
          assert sources[i] == sources[1..][i - 1] && targets[i] == targets[1..][i - 1];
          assert d1[sources[i]] == d[sources[i]];
        }
      }
    }
  }

  /** A move between two names outside a plan commutes with the whole plan. */
  lemma {:induction false} MoveAfterAll(d: Directory, sources: seq<Name>, targets: seq<Name>, a: Name, b: Name)
    requires Plan(d, sources, targets)
    requires a in d && a != b
    requires a !in sources && a !in targets && b !in sources && b !in targets
    ensures Plan(Move(d, a, b), sources, targets)
    ensures a in MoveAll(d, sources, targets)
    ensures Move(MoveAll(d, sources, targets), a, b) == MoveAll(Move(d, a, b), sources, targets)
    decreases |sources|
  {
    if sources != [] {
      PlanTail(d, sources, targets);
      var d1 := Move(d, sources[0], targets[0]);
      MoveCommute(d, sources[0], targets[0], a, b);
      assert Move(d1, a, b) == Move(Move(d, a, b), sources[0], targets[0]);
      MoveAfterAll(d1, sources[1..], targets[1..], a, b);
      PlanTail(Move(d, a, b), sources, targets);
    }
  }

  /** The undo loop reverses a plan carried out by `MoveAll`. */
  lemma {:induction false} UndoReversesMoves(d: Directory, sources: seq<Name>, targets: seq<Name>)
    requires Plan(d, sources, targets)
    ensures UndoEach(MoveAll(d, sources, targets), sources, targets) == d
    decreases |sources|
  {
    if sources != [] {
      PlanTail(d, sources, targets);
      var d1 := Move(d, sources[0], targets[0]);
      var x := MoveAll(d1, sources[1..], targets[1..]);
      assert MoveAll(d, sources, targets) == x;
      assert targets[0] !in sources[1..] && targets[0] !in targets[1..];
      assert sources[0] !in sources[1..] && sources[0] !in targets[1..];
      MoveAfterAll(d1, sources[1..], targets[1..], targets[0], sources[0]);
      MoveBack(d, sources[0], targets[0]);
      assert Plan(d, sources[1..], targets[1..]);
      UndoReversesMoves(d, sources[1..], targets[1..]);
      assert UndoEach(x, sources, targets) == UndoEach(Move(x, targets[0], sources[0]), sources[1..], targets[1..]);
    }
  }

  /** The eligible entries of a listing depend only on the entries the listing names. */
  lemma {:induction false} EligibleNamesAgree(d1: Directory, d2: Directory, listing: seq<Name>)
    requires forall x :: x in listing ==> Eligible(d1, x) == Eligible(d2, x)
    ensures EligibleNames(d1, listing) == EligibleNames(d2, listing)
    decreases |listing|
  {
    if listing != [] {
      assert listing[0] in listing;
      EligibleNamesAgree(d1, d2, listing[1..]);
    }
  }

  /** Renaming the eligible head `x` of a clash-free listing to `n` leaves
      the rest of the listing a clash-free listing with the same eligible
      entries. */
  lemma RenameHeadKeepsRest(d: Directory, listing: seq<Name>, rule: Rule)
    requires Changes(rule) && listing != [] && Eligible(d, listing[0])
    requires ListsFrom(d, listing) && FreeTargets(d, listing, rule)
    ensures var d1 := Move(d, listing[0], NewName(listing[0], rule));
      && ListsFrom(d1, listing[1..])
      && FreeTargets(d1, listing[1..], rule)
      && EligibleNames(d1, listing[1..]) == EligibleNames(d, listing[1..])
  {
    var x := listing[0];
    var rest := listing[1..];
    var n := NewName(x, rule);
    var d1 := Move(d, x, n);
    assert forall y :: y in rest ==> y in listing && y != x;
    assert n !in d;
    assert forall y :: y in rest ==> y in d && y != n && d1[y] == d[y];
    EligibleNamesAgree(d1, d, rest);
    forall y | y in rest && Eligible(d1, y) ensures NewName(y, rule) !in d1 {
      NewNameInjective(y, x, rule);
    }
  }

  /** Putting a clash-free pair `(x, n)` in front of a plan for the directory
      after moving `x` to `n` gives a plan for the directory before. */
  lemma PlanCons(d: Directory, x: Name, n: Name, sources: seq<Name>, targets: seq<Name>)
    requires x in d && n !in d
    requires Plan(Move(d, x, n), sources, targets)
    requires x !in sources && n !in sources && n !in targets
    requires forall k :: 0 <= k < |targets| ==> targets[k] !in d
    ensures Plan(d, [x] + sources, [n] + targets)
    ensures MoveAll(d, [x] + sources, [n] + targets) == MoveAll(Move(d, x, n), sources, targets)
  {
    var d1 := Move(d, x, n);
    assert forall k :: 0 <= k < |sources| ==> sources[k] in d1 && sources[k] != n;
    assert ([x] + sources)[1..] == sources && ([n] + targets)[1..] == targets;
  }

  /** Without name clashes, the rename loop moves exactly the eligible entries
      of the listing, in listing order, to their new names, and appends
      exactly those pairs to the batch. */
  lemma {:induction false} RenameEachMovesEligible(s: State, listing: seq<Name>, rule: Rule)
    requires Changes(rule) && s.batch.Valid()
    requires ListsFrom(s.dir, listing) && FreeTargets(s.dir, listing, rule)
    ensures Plan(s.dir, EligibleNames(s.dir, listing), NewNamesOf(EligibleNames(s.dir, listing), rule))
    ensures RenameEach(s, listing, rule) ==
      State(MoveAll(s.dir, EligibleNames(s.dir, listing), NewNamesOf(EligibleNames(s.dir, listing), rule)),
            Batch(s.batch.original + EligibleNames(s.dir, listing),
                  s.batch.renamed + NewNamesOf(EligibleNames(s.dir, listing), rule)))
    decreases |listing|
  {
    var d := s.dir;
    if listing == [] {
      assert s.batch.original + [] == s.batch.original;
      assert s.batch.renamed + [] == s.batch.renamed;
    } else {
      var x := listing[0];
      var rest := listing[1..];
      assert ListsFrom(d, rest) && FreeTargets(d, rest, rule) by {
        assert forall y :: y in rest ==> y in listing;
      }
      if Eligible(d, x) {
        var n := NewName(x, rule);
        var d1 := Move(d, x, n);
        var s1 := State(d1, Batch(s.batch.original + [x], s.batch.renamed + [n]));
        assert RenameStep(s, x, rule) == s1;
        RenameHeadKeepsRest(d, listing, rule);
        RenameEachMovesEligible(s1, rest, rule);
        var e' := EligibleNames(d, rest);
        var r' := NewNamesOf(e', rule);
        assert EligibleNames(d, listing) == [x] + e';
        NewNamesOfCons(x, e', rule);
        HeadNotInTail(listing);
        assert x !in e';
        assert n !in e' by {
          assert forall y :: y in rest ==> y in d;
        }
        forall k | 0 <= k < |r'| ensures r'[k] != n && r'[k] !in d {
          assert e'[k] in e';
          NewNameInjective(e'[k], x, rule);
        }
        PlanCons(d, x, n, e', r');
        AppendAssoc(s.batch.original, [x], e');
        AppendAssoc(s.batch.renamed, [n], r');
      } else {
        assert RenameStep(s, x, rule) == s;
        RenameEachMovesEligible(s, rest, rule);
      }
    }
  }

  /** Round trip: when the listing is a listing of the directory and no new
      name is taken beforehand, Undo right after a rename that changes names
      gives back the directory exactly, every file under its old name with its
      content, and an empty batch. */
  lemma RenameThenUndo(d: Directory, b: Batch, listing: seq<Name>, rule: Rule)
    requires Changes(rule)
    requires ListsFrom(d, listing) && FreeTargets(d, listing, rule)
    ensures Rename(State(d, b), listing, rule).batch.Valid()
    ensures Undo(Rename(State(d, b), listing, rule)) == State(d, NoBatch)
  {
    RenameEachMovesEligible(State(d, NoBatch), listing, rule);
    var e := EligibleNames(d, listing);
    var r := NewNamesOf(e, rule);
    assert [] + e == e && [] + r == r;
    UndoReversesMoves(d, e, r);
  }

  /** No eligible entry of the listing has a new name that is a
      sub-directory or other non-file entry of `d`. */
  ghost predicate TargetsNotFolders(d: Directory, listing: seq<Name>, rule: Rule) {
    forall x :: x in listing && Eligible(d, x) && NewName(x, rule) in d ==> d[NewName(x, rule)].File?
  }

  /** Renaming the eligible head of a listing keeps the rest a listing of the
      directory with the same eligible entries, even when the head's new name
      overwrites a file. */
  lemma StepKeepsEligible(d: Directory, listing: seq<Name>, rule: Rule)
    requires Changes(rule) && listing != [] && Eligible(d, listing[0])
    requires ListsFrom(d, listing) && TargetsNotFolders(d, listing, rule)
    ensures var d1 := Move(d, listing[0], NewName(listing[0], rule));
      && ListsFrom(d1, listing[1..])
      && TargetsNotFolders(d1, listing[1..], rule)
      && EligibleNames(d1, listing[1..]) == EligibleNames(d, listing[1..])
  {
    var x := listing[0];
    var rest := listing[1..];
    var n := NewName(x, rule);
    var d1 := Move(d, x, n);
    HeadNotInTail(listing);
    assert forall y :: y in rest ==> y in listing && y != x;
    forall y | y in rest ensures y in d1 && Eligible(d1, y) == Eligible(d, y) {
      assert y in d;
      if y == n {
        assert d[n].File?;
      }
    }
    EligibleNamesAgree(d1, d, rest);
    forall y | y in rest && Eligible(d1, y) && NewName(y, rule) in d1
      ensures d1[NewName(y, rule)].File?
    {
      var m := NewName(y, rule);
      if m != n {
        assert m != x && m in d && d1[m] == d[m];
      }
    }
  }

  /** Whatever the collisions, as long as no new name is a sub-directory, the
      rename loop over a listing of the directory appends exactly the
      eligible entries, in listing order, paired with their new names. */
  lemma {:induction false} RenameEachRecordsEligible(s: State, listing: seq<Name>, rule: Rule)
    requires Changes(rule) && s.batch.Valid()
    requires ListsFrom(s.dir, listing) && TargetsNotFolders(s.dir, listing, rule)
    ensures RenameEach(s, listing, rule).batch ==
      Batch(s.batch.original + EligibleNames(s.dir, listing),
            s.batch.renamed + NewNamesOf(EligibleNames(s.dir, listing), rule))
    decreases |listing|
  {
    var d := s.dir;
    if listing == [] {
      assert s.batch.original + [] == s.batch.original;
      assert s.batch.renamed + [] == s.batch.renamed;
    } else {
      var x := listing[0];
      var rest := listing[1..];
      assert ListsFrom(d, rest) && TargetsNotFolders(d, rest, rule) by {
        assert forall y :: y in rest ==> y in listing;
      }
      if Eligible(d, x) {
        var n := NewName(x, rule);
        var s1 := RenameStep(s, x, rule);
        assert s1 == State(Move(d, x, n), Batch(s.batch.original + [x], s.batch.renamed + [n]));
        StepKeepsEligible(d, listing, rule);
        RenameEachRecordsEligible(s1, rest, rule);
        var e' := EligibleNames(d, rest);
        assert EligibleNames(d, listing) == [x] + e';
        NewNamesOfCons(x, e', rule);
        AppendAssoc(s.batch.original, [x], e');
        AppendAssoc(s.batch.renamed, [n], NewNamesOf(e', rule));
      } else {
        assert RenameStep(s, x, rule) == s;
        RenameEachRecordsEligible(s, rest, rule);
      }
    }
  }

  /** A rename that changes names, over a listing of the directory in which
      no new name is a sub-directory, records exactly the listed regular
      files that are not excluded, in listing order, each paired with its new
      name; it records such a file even when its new name was taken. */
  lemma RenameRecordsEligible(d: Directory, b: Batch, listing: seq<Name>, rule: Rule)
    requires Changes(rule)
    requires ListsFrom(d, listing) && TargetsNotFolders(d, listing, rule)
    ensures Rename(State(d, b), listing, rule).batch ==
      Batch(EligibleNames(d, listing), NewNamesOf(EligibleNames(d, listing), rule))
    ensures forall x :: x in Rename(State(d, b), listing, rule).batch.original <==>
      x in listing && x in d && d[x].File? && x !in Excluded
  {
    RenameEachRecordsEligible(State(d, NoBatch), listing, rule);
    var e := EligibleNames(d, listing);
    assert [] + e == e && [] + NewNamesOf(e, rule) == NewNamesOf(e, rule);
  }

  /** A second Undo finds an empty batch and changes nothing. */
  lemma UndoTwice(s: State)
    requires s.batch.Valid()
    ensures Undo(Undo(s)) == Undo(s)
  {
  }

  /** The new names in the collision example. */
  lemma AppendXNames()
    ensures NewName("a", Rule("x", false, true)) == "ax"
    ensures NewName("ax", Rule("x", false, true)) == "axx"
  {
    NoDotNoExt("a");
    NoDotNoExt("ax");
    assert "a" + "x" + [] == "ax";
    assert "ax" + "x" + [] == "axx";
  }

  /** A name shorter than both excluded names is not excluded. */
  lemma ShortNotExcluded(x: Name)
    requires |x| < 15
    ensures x !in Excluded
  {
    assert |"file_renamer.py"| == 15 && |"file_renamer.exe"| == 16;
  }

  /** First turn of the collision example: "a" moves onto "ax". */
  lemma CollisionFirstStep()
    ensures RenameStep(State(map["a" := File([1]), "ax" := File([2])], NoBatch), "a", Rule("x", false, true))
      == State(map["ax" := File([1])], Batch(["a"], ["ax"]))
  {
    var d := map["a" := File([1]), "ax" := File([2])];
    assert |"a"| == 1 && |"ax"| == 2;
    ShortNotExcluded("a");
    assert Eligible(d, "a");
    AppendXNames();
    var d1 := Move(d, "a", "ax");
    assert d1.Keys == map["ax" := File([1])].Keys;
  }

  /** Second turn of the collision example: "ax", now holding the old "a",
      moves on to "axx". */
  lemma CollisionSecondStep()
    ensures RenameStep(State(map["ax" := File([1])], Batch(["a"], ["ax"])), "ax", Rule("x", false, true))
      == State(map["axx" := File([1])], Batch(["a", "ax"], ["ax", "axx"]))
  {
    var d1 := map["ax" := File([1])];
    assert |"ax"| == 2 && |"axx"| == 3;
    ShortNotExcluded("ax");
    assert Eligible(d1, "ax");
    AppendXNames();
    var d2 := Move(d1, "ax", "axx");
    assert d2.Keys == map["axx" := File([1])].Keys;
    assert ["a"] + ["ax"] == ["a", "ax"] && ["ax"] + ["axx"] == ["ax", "axx"];
  }

  /** The rename half of the collision example: "a" takes the place of
      "ax", whose content is lost, and then moves on to "axx". */
  lemma CollisionRename()
    ensures Rename(State(map["a" := File([1]), "ax" := File([2])], NoBatch), ["a", "ax"], Rule("x", false, true))
      == State(map["axx" := File([1])], Batch(["a", "ax"], ["ax", "axx"]))
  {
    var d := map["a" := File([1]), "ax" := File([2])];
    var rule := Rule("x", false, true);
    var s1 := State(map["ax" := File([1])], Batch(["a"], ["ax"]));
    var s2 := State(map["axx" := File([1])], Batch(["a", "ax"], ["ax", "axx"]));
    CollisionFirstStep();
    CollisionSecondStep();
    assert ["a", "ax"][1..] == ["ax"] && ["ax"][1..] == [];
    assert RenameEach(State(d, NoBatch), ["a", "ax"], rule) == RenameEach(s1, ["ax"], rule);
    assert RenameEach(s1, ["ax"], rule) == RenameEach(s2, [], rule);
  }

  /** The undo half of the collision example: only "axx" is still there, so
      the second pair moves it back to "ax" and the first pair is skipped. */
  lemma CollisionUndo()
    ensures UndoEach(map["axx" := File([1])], ["a", "ax"], ["ax", "axx"]) == map["ax" := File([1])]
  {
    var d1 := map["ax" := File([1])];
    var d2 := map["axx" := File([1])];
    assert |"ax"| == 2 && |"axx"| == 3;
    var d3 := Move(d2, "axx", "ax");
    assert d3 == d1 by {
      assert d3.Keys == d1.Keys;
    }
    assert ["a", "ax"][1..] == ["ax"] && ["ax", "axx"][1..] == ["axx"];
    assert "ax" !in d2;
    assert UndoEach(d2, ["a", "ax"], ["ax", "axx"]) == UndoEach(d2, ["ax"], ["axx"]);
    assert UndoEach(d2, ["ax"], ["axx"]) == UndoEach(d3, [], []);
  }

  /** Without the free-target condition the round trip fails: appending "x"
      to "a" and "ax" in that order overwrites the old "ax", and undo cannot
      bring back its content nor the name "a". */
  lemma CollisionLosesFile()
    ensures var d := map["a" := File([1]), "ax" := File([2])];
      var after := Undo(Rename(State(d, NoBatch), ["a", "ax"], Rule("x", false, true)));
      after.dir == map["ax" := File([1])] && after.dir != d
  {
    var d := map["a" := File([1]), "ax" := File([2])];
    CollisionRename();
    CollisionUndo();
    assert "a" in d && "a" !in map["ax" := File([1])];
  }

  /** First turn of the chain example: "ax" moves to the free name "axx". */
  lemma ChainFirstStep()
    ensures RenameStep(State(map["a" := File([1]), "ax" := File([2])], NoBatch), "ax", Rule("x", false, true))
      == State(map["a" := File([1]), "axx" := File([2])], Batch(["ax"], ["axx"]))
  {
    var d := map["a" := File([1]), "ax" := File([2])];
    assert |"a"| == 1 && |"ax"| == 2 && |"axx"| == 3;
    ShortNotExcluded("ax");
    assert Eligible(d, "ax");
    AppendXNames();
    var d1 := Move(d, "ax", "axx");
    assert d1.Keys == map["a" := File([1]), "axx" := File([2])].Keys;
  }

  /** Second turn of the chain example: "a" moves to "ax", which the first
      turn has just freed, so nothing is overwritten. */
  lemma ChainSecondStep()
    ensures RenameStep(State(map["a" := File([1]), "axx" := File([2])], Batch(["ax"], ["axx"])), "a", Rule("x", false, true))
      == State(map["axx" := File([2]), "ax" := File([1])], Batch(["ax", "a"], ["axx", "ax"]))
  {
    var rule := Rule("x", false, true);
    ShortNotExcluded("a");
    assert Changes(rule);
    AppendXNames();
    ChainSecondMove();
    assert ["ax"] + ["a"] == ["ax", "a"] && ["axx"] + ["ax"] == ["axx", "ax"];
  }

  /** The move of the second turn of the chain example. */
  lemma ChainSecondMove()
    ensures Move(map["a" := File([1]), "axx" := File([2])], "a", "ax") == map["axx" := File([2]), "ax" := File([1])]
  {
    var d1 := map["a" := File([1]), "axx" := File([2])];
    var d2 := map["axx" := File([2]), "ax" := File([1])];
    assert |"a"| == 1 && |"ax"| == 2 && |"axx"| == 3;
    var m := Move(d1, "a", "ax");
    assert "a" !in m && m["ax"] == File([1]) && m["axx"] == File([2]);
    assert m.Keys == d2.Keys;
  }

  /** The rename half of the chain example: listing "ax" before "a" renames
      both without overwriting anything. */
  lemma ChainRename()
    ensures Rename(State(map["a" := File([1]), "ax" := File([2])], NoBatch), ["ax", "a"], Rule("x", false, true))
      == State(map["axx" := File([2]), "ax" := File([1])], Batch(["ax", "a"], ["axx", "ax"]))
  {
    var d := map["a" := File([1]), "ax" := File([2])];
    var rule := Rule("x", false, true);
    var s1 := State(map["a" := File([1]), "axx" := File([2])], Batch(["ax"], ["axx"]));
    var s2 := State(map["axx" := File([2]), "ax" := File([1])], Batch(["ax", "a"], ["axx", "ax"]));
    ChainFirstStep();
    ChainSecondStep();
    assert ["ax", "a"][1..] == ["a"] && ["a"][1..] == [];
    assert RenameEach(State(d, NoBatch), ["ax", "a"], rule) == RenameEach(s1, ["a"], rule);
    assert RenameEach(s1, ["a"], rule) == RenameEach(s2, [], rule);
  }

  /** The undo half of the chain example: walking the batch front to back,
      the first pair moves "axx" back onto "ax", destroying the renamed "a",
      and the second pair then moves that file on to "a". */
  lemma ChainUndo()
    ensures UndoEach(map["axx" := File([2]), "ax" := File([1])], ["ax", "a"], ["axx", "ax"]) == map["a" := File([2])]
  {
    var d2 := map["axx" := File([2]), "ax" := File([1])];
    assert |"a"| == 1 && |"ax"| == 2 && |"axx"| == 3;
    var d3 := Move(d2, "axx", "ax");
    assert d3 == map["ax" := File([2])] by {
      assert d3.Keys == map["ax" := File([2])].Keys;
    }
    var d4 := Move(d3, "ax", "a");
    assert d4 == map["a" := File([2])] by {
      assert d4.Keys == map["a" := File([2])].Keys;
    }
    assert ["ax", "a"][1..] == ["a"] && ["axx", "ax"][1..] == ["ax"];
    assert UndoEach(d2, ["ax", "a"], ["axx", "ax"]) == UndoEach(d3, ["a"], ["ax"]);
    assert UndoEach(d3, ["a"], ["ax"]) == UndoEach(d4, [], []);
  }

  /** The round trip also fails when no move overwrites anything: with "ax"
      listed before "a", appending "x" renames "ax" to "axx" and then "a" to
      the freed "ax", and the in-order undo ends with a single file "a" that
      holds the old content of "ax"; the content of "a" is lost. */
  lemma ChainUndoLosesFile()
    ensures var d := map["a" := File([1]), "ax" := File([2])];
      var after := Undo(Rename(State(d, NoBatch), ["ax", "a"], Rule("x", false, true)));
      after.dir == map["a" := File([2])] && after.dir != d
  {
    var d := map["a" := File([1]), "ax" := File([2])];
    ChainRename();
    ChainUndo();
    assert "ax" in d && "ax" !in map["a" := File([2])];
  }
}

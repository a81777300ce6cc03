/**
 The rename and undo logic of the file renamer as pure functions over a
 state made of the directory and the last batch of renames.

 `os.listdir()` is the `listing` parameter: the entry names in the order the
 operating system returned them, read once before the loop starts.
 */
module RenameEngine {
  import opened FileSystem
  import opened NewNames

  /** The tool's own script and executable, never renamed. */
  const Excluded: set<Name> := {"file_renamer.py", "file_renamer.exe"}

  /** The last batch: two parallel lists, `original[i]` renamed to `renamed[i]`. */
  datatype Batch = Batch(original: seq<Name>, renamed: seq<Name>) {
    predicate Valid() {
      |original| == |renamed|
    }
  }

  const NoBatch: Batch := Batch([], [])

  /** The directory and the batch that the Undo button would reverse. */
  datatype State = State(dir: Directory, batch: Batch)

  /** A listing entry the loop renames: a regular file that is not excluded. */
  predicate Eligible(d: Directory, name: Name) {
    name in d && d[name].File? && name !in Excluded
  }

  /** Pair `i` of a batch was recorded by `rule`: the old name is not
      excluded, and the new name is the old one's new name and differs from it. */
  predicate Recorded(b: Batch, i: int, rule: Rule)
    requires b.Valid() && 0 <= i < |b.original|
  {
    && b.original[i] !in Excluded
    && b.renamed[i] == NewName(b.original[i], rule)
    && b.renamed[i] != b.original[i]
  }

  /** One pass of the rename loop, for the listing entry `name`: an entry
      that is not an eligible file, or a rule that changes no name, leaves the
      state alone; otherwise the file moves to its new name and the pair is
      appended to the batch. */
  function RenameStep(s: State, name: Name, rule: Rule): (r: State)
    ensures !Eligible(s.dir, name) || !Changes(rule) ==> r == s
    ensures Eligible(s.dir, name) && Changes(rule) ==>
      && r.dir == Move(s.dir, name, NewName(name, rule))
      && r.batch.original == s.batch.original + [name]
      && r.batch.renamed == s.batch.renamed + [NewName(name, rule)]
  {
    if !Eligible(s.dir, name) then s
    else
      var newName := NewName(name, rule);
      if newName == name then s
      else State(Move(s.dir, name, newName),
                 Batch(s.batch.original + [name], s.batch.renamed + [newName]))
  }

  /** The two names on the exclusion list are skipped by the loop whatever
      the directory and the rule: nothing moves and nothing is recorded. */
  lemma ExcludedSkipped(s: State, name: Name, rule: Rule)
    ensures name == "file_renamer.py" || name == "file_renamer.exe" ==> RenameStep(s, name, rule) == s
  {
  }

  /** The rename loop over the whole listing, first entry first; the batch
      only grows. */
  function RenameEach(s: State, listing: seq<Name>, rule: Rule): (r: State)
    requires s.batch.Valid()
    ensures r.batch.Valid()
    ensures |s.batch.original| <= |r.batch.original|
    decreases |listing|
  {
    if listing == [] then s
    else RenameEach(RenameStep(s, listing[0], rule), listing[1..], rule)
  }

  /** The rename loop only appends to the batch, and an excluded entry stays
      where it is. */
  lemma {:induction false} RenameEachExtends(s: State, listing: seq<Name>, rule: Rule)
    requires s.batch.Valid()
    ensures |s.batch.original| <= |RenameEach(s, listing, rule).batch.original|
    ensures RenameEach(s, listing, rule).batch.original[..|s.batch.original|] == s.batch.original
    ensures RenameEach(s, listing, rule).batch.renamed[..|s.batch.renamed|] == s.batch.renamed
    ensures forall x :: x in Excluded && x in s.dir ==> x in RenameEach(s, listing, rule).dir
    decreases |listing|
  {
    if listing != [] {
      var s1 := RenameStep(s, listing[0], rule);
      var r := RenameEach(s1, listing[1..], rule);
      assert r == RenameEach(s, listing, rule);
      RenameEachExtends(s1, listing[1..], rule);
      assert r.batch.original[..|s.batch.original|] == r.batch.original[..|s1.batch.original|][..|s.batch.original|];
      assert r.batch.renamed[..|s.batch.renamed|] == r.batch.renamed[..|s1.batch.renamed|][..|s.batch.renamed|];
    }
  }

  /** The rename loop touches only the names it records: a name that is
      neither an original nor a new name of an appended pair keeps its entry,
      or stays absent. */
  lemma {:induction false} RenameEachFrame(s: State, listing: seq<Name>, rule: Rule)
    requires s.batch.Valid()
    ensures var r := RenameEach(s, listing, rule);
      forall x :: x !in r.batch.original[|s.batch.original|..] && x !in r.batch.renamed[|s.batch.renamed|..] ==>
        SameEntry(r.dir, s.dir, x)
    decreases |listing|
  {
    if listing != [] {
      var s1 := RenameStep(s, listing[0], rule);
      var r := RenameEach(s1, listing[1..], rule);
      assert r == RenameEach(s, listing, rule);
      RenameEachFrame(s1, listing[1..], rule);
      RenameEachExtends(s1, listing[1..], rule);
      var o, n := |s.batch.original|, |s1.batch.original|;
      assert r.batch.original[n..] == r.batch.original[o..][n - o..];
      assert r.batch.renamed[n..] == r.batch.renamed[o..][n - o..];
      forall x | x !in r.batch.original[o..] && x !in r.batch.renamed[o..]
        ensures SameEntry(r.dir, s.dir, x)
      {
        assert SameEntry(r.dir, s1.dir, x);
        if n != o {
          assert r.batch.original[o] == s1.batch.original[o] == listing[0];
          assert r.batch.renamed[o] == s1.batch.renamed[o] == NewName(listing[0], rule);
          assert r.batch.original[o..][0] == listing[0];
          assert r.batch.renamed[o..][0] == NewName(listing[0], rule);
        }
      }
    }
  }

  /** Every pair the rename loop appends was recorded by `rule` for an entry
      of the listing. */
  lemma {:induction false} RenameEachRecords(s: State, listing: seq<Name>, rule: Rule)
    requires s.batch.Valid()
    ensures forall i :: |s.batch.original| <= i < |RenameEach(s, listing, rule).batch.original| ==>
      RenameEach(s, listing, rule).batch.original[i] in listing && Recorded(RenameEach(s, listing, rule).batch, i, rule)
    decreases |listing|
  {
    if listing != [] {
      var s1 := RenameStep(s, listing[0], rule);
      var r := RenameEach(s1, listing[1..], rule);
      RenameEachRecords(s1, listing[1..], rule);
      RenameEachExtends(s1, listing[1..], rule);
      assert r == RenameEach(s, listing, rule);
      forall i | |s.batch.original| <= i < |r.batch.original|
        ensures r.batch.original[i] in listing && Recorded(r.batch, i, rule)
      {
        if i < |s1.batch.original| {
          assert i == |s.batch.original|;
          assert r.batch.original[i] == s1.batch.original[i] == listing[0];
          assert r.batch.renamed[i] == s1.batch.renamed[i];
        } else {
          assert |s1.batch.original| <= i < |r.batch.original|;
          assert r.batch.original[i] in listing[1..] && Recorded(r.batch, i, rule);
        }
      }
    }
  }

  /** The Start Renaming button (`rename_files`). With no text or no position
      it changes nothing, not even the stored batch; otherwise it starts a
      fresh batch and runs the loop. */
  function Rename(s: State, listing: seq<Name>, rule: Rule): (r: State)
    ensures rule.text == [] ==> r == s
    ensures !rule.before && !rule.after ==> r == s
    ensures Changes(rule) ==> r.batch.Valid()
    ensures Changes(rule) ==> forall i :: 0 <= i < |r.batch.original| ==>
      r.batch.original[i] in listing && Recorded(r.batch, i, rule)
    ensures forall x :: x in Excluded && x in s.dir ==> x in r.dir
    ensures Changes(rule) ==> forall x :: x !in r.batch.original && x !in r.batch.renamed ==>
      SameEntry(r.dir, s.dir, x)
  {
    if rule.text == [] then s
    else if !(rule.before || rule.after) then s
    else
      RenameEachRecords(State(s.dir, NoBatch), listing, rule);
      RenameEachExtends(State(s.dir, NoBatch), listing, rule);
      RenameEachFrame(State(s.dir, NoBatch), listing, rule);
      var r := RenameEach(State(s.dir, NoBatch), listing, rule);
      assert r.batch.original[0..] == r.batch.original && r.batch.renamed[0..] == r.batch.renamed;
      RenameEach(State(s.dir, NoBatch), listing, rule)
  }

  /** A name-changing rename forgets the stored batch: what it computes does
      not depend on the batch it starts from. */
  lemma RenameDropsBatch(d: Directory, b1: Batch, b2: Batch, listing: seq<Name>, rule: Rule)
    requires Changes(rule)
    ensures Rename(State(d, b1), listing, rule) == Rename(State(d, b2), listing, rule)
  {
  }

  /** The undo loop: each recorded pair, in order, is moved back when its new
      name still exists and skipped otherwise. Names outside the batch are
      left alone, and when none of the new names exists nothing moves. */
  function UndoEach(d: Directory, original: seq<Name>, renamed: seq<Name>): (r: Directory)
    requires |original| == |renamed|
    ensures forall x :: x !in original && x !in renamed ==>
      (x in r <==> x in d) && (x in r ==> r[x] == d[x])
    ensures (forall i :: 0 <= i < |renamed| ==> renamed[i] !in d) ==> r == d
    decreases |renamed|
  {
    if renamed == [] then d
    else
      var d' := if renamed[0] in d then Move(d, renamed[0], original[0]) else d;
      UndoEach(d', original[1..], renamed[1..])
  }

  /** The Undo button (`undo_rename`): reverse the stored batch as far as it
      can, then forget it, whether or not every pair was moved back. */
  function Undo(s: State): (r: State)
    requires s.batch.Valid()
    ensures r.batch == NoBatch
    ensures forall x :: x !in s.batch.original && x !in s.batch.renamed ==>
      (x in r.dir <==> x in s.dir) && (x in r.dir ==> r.dir[x] == s.dir[x])
    ensures (forall i :: 0 <= i < |s.batch.renamed| ==> s.batch.renamed[i] !in s.dir) ==> r.dir == s.dir
  {
    State(UndoEach(s.dir, s.batch.original, s.batch.renamed), NoBatch)
  }
}

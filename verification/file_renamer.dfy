/**
 The two button handlers of the renamer, `rename_files` and `undo_rename`,
 written as the loops they are and proved to compute the functional
 `Rename` and `Undo`.
 */
module FileRenamer {
  import opened FileSystem
  import opened PathSplit
  import opened NewNames
  import opened RenameEngine

  /** `rename_files`: with no text or no position ticked, return at once;
      otherwise start a fresh batch and, for each listed entry that is a
      regular file and not excluded, build the new name piece by piece and
      move the file when the name changes. */
  method RenameFiles(s: State, listing: seq<Name>, rule: Rule) returns (t: State)
    ensures t == Rename(s, listing, rule)
    ensures !Changes(rule) ==> t == s
    ensures Changes(rule) ==> t.batch.Valid() && forall i :: 0 <= i < |t.batch.original| ==>
      t.batch.original[i] in listing && Recorded(t.batch, i, rule)
  {
    if rule.text == [] {
      return s;
    }
    if !(rule.before || rule.after) {
      return s;
    }
    var dir := s.dir;
    var original: seq<Name> := [];
    var renamed: seq<Name> := [];
    var i := 0;
    while i < |listing|
      invariant 0 <= i <= |listing|
      invariant |original| == |renamed|
      invariant RenameEach(State(dir, Batch(original, renamed)), listing[i..], rule)
             == RenameEach(State(s.dir, NoBatch), listing, rule)
    {
      var filename := listing[i];
      RenameEachUnfold(State(dir, Batch(original, renamed)), listing, i, rule);
      if filename in dir && dir[filename].File? && filename !in Excluded {
        var newFilename := ComposeName(filename, rule);
        if newFilename != filename {
          original := original + [filename];
          renamed := renamed + [newFilename];
          dir := Move(dir, filename, newFilename);
        }
      }
      i := i + 1;
    }
    t := State(dir, Batch(original, renamed));
  }

  /** The loop body's name computation: split off the extension, put the
      text in front of and/or after the stem, and glue the extension back. */
  method ComposeName(filename: Name, rule: Rule) returns (newFilename: Name)
    ensures newFilename == NewName(filename, rule)
    ensures newFilename != filename <==> Changes(rule)
    ensures var ext := SplitExt(filename).1;
      && (rule.before ==> newFilename[..|rule.text|] == rule.text)
      && newFilename[|newFilename| - |ext|..] == ext
      && (rule.after ==> newFilename[|newFilename| - |ext| - |rule.text|..|newFilename| - |ext|] == rule.text)
  {
    var (name, ext) := SplitExt(filename);
    var newName := name;
    if rule.before {
      newName := rule.text + newName;
    }
    if rule.after {
      newName := newName + rule.text;
    }
    assert newName == Prefix(rule) + (name + Suffix(rule));
    newFilename := newName + ext;
    AppendAssoc(Prefix(rule), name + Suffix(rule), ext);
    assert newFilename == Prefix(rule) + (name + Suffix(rule) + ext);
    NewNamePieces(filename, rule);
    PiecesInPlace(Prefix(rule), name, Suffix(rule), ext);
  }

  /** `undo_rename`: walk the batch in order, move each new name that still
      exists back to its old name, then forget the batch. */
  method UndoRename(s: State) returns (t: State)
    requires s.batch.Valid()
    ensures t == Undo(s)
    ensures t.batch == NoBatch
    ensures (forall i :: 0 <= i < |s.batch.renamed| ==> s.batch.renamed[i] !in s.dir) ==> t.dir == s.dir
  {
    var original, renamed := s.batch.original, s.batch.renamed;
    var dir := s.dir;
    var i := 0;
    while i < |renamed|
      invariant 0 <= i <= |renamed|
      invariant UndoEach(dir, original[i..], renamed[i..]) == UndoEach(s.dir, original, renamed)
    {
      UndoEachUnfold(dir, original, renamed, i);
      if renamed[i] in dir {
        dir := Move(dir, renamed[i], original[i]);
      }
      i := i + 1;
    }
    t := State(dir, NoBatch);
  }

  /** One turn of the rename loop is one `RenameStep`. */
  lemma RenameEachUnfold(s: State, listing: seq<Name>, i: int, rule: Rule)
    requires s.batch.Valid() && 0 <= i < |listing|
    ensures RenameEach(s, listing[i..], rule) == RenameEach(RenameStep(s, listing[i], rule), listing[i + 1..], rule)
  {
    assert listing[i..][1..] == listing[i + 1..];
  }

  /** One turn of the undo loop moves pair `i` back when its new name exists. */
  lemma UndoEachUnfold(d: Directory, original: seq<Name>, renamed: seq<Name>, i: int)
    requires |original| == |renamed| && 0 <= i < |renamed|
    ensures UndoEach(d, original[i..], renamed[i..]) ==
      UndoEach(if renamed[i] in d then Move(d, renamed[i], original[i]) else d, original[i + 1..], renamed[i + 1..])
  {
    assert original[i..][1..] == original[i + 1..] && renamed[i..][1..] == renamed[i + 1..];
  }
}

# File renamer — rename and undo core in Dafny

The file renamer is a small desktop tool that renames every regular file of
one directory by putting a piece of text in front of each file's stem, after
it, or both, keeping the extension. It remembers the last batch of renames as
two parallel lists, `original_files` and `renamed_files`, so that an Undo
button can move the files back. The tool's own script and executable
(`file_renamer.py`, `file_renamer.exe`) are never renamed; another file whose
new name is one of these names is still moved onto it and overwrites it.

This project models that core as pure functions over a `State` made of the
directory and the last batch, plus two loop methods that mirror the two
button handlers and are proved to compute those functions.

- `PathSplit` — Python's `os.path.splitext` on POSIX, with a declarative
  reading of "has an extension" proved to agree with it.
- `NewNames` — the rename rule (text, before, after) and the new name it
  gives one file; the new name differs from the old one exactly when the
  rule has text and a position, and for a fixed rule different names get
  different new names.
- `FileSystem` — the directory as a finite map from names to entries, and
  `shutil.move` as a map update.
- `RenameEngine` — the exclusion list, the batch, the rename loop and the
  undo loop as recursive functions.
- `RenameLaws` — what the rename loop does when no new name is taken, the
  round trip rename-then-undo, undo being idempotent, which files a rename
  records when names collide, and two concrete cases that break the round
  trip.
- `FileRenamer` — `rename_files` and `undo_rename` as `while` loops.

The directory listing (`os.listdir()`) is a parameter: the sequence of names
in the order the operating system returns them. The round trip needs it to
be an actual listing of the directory (no name twice, every name present).

## Model

| member | source | states |
|---|---|---|
| PathSplit.RFind | file_renamer.py:111 | the index returned holds the searched character and no later index does, or -1 when none does; this is the search `splitext` uses for the last separator and the last dot |
| PathSplit.LastBefore | file_renamer.py:111 | the index returned is the last position below the bound that holds the character, or -1 when no such position exists |
| PathSplit.SplitExt | file_renamer.py:111 | stem and extension concatenate back to the name, and the extension is empty or a dot followed by neither dots nor separators |
| PathSplit.SplitExtMatchesHasExt | file_renamer.py:111 | the extension is non-empty exactly when some dot of the last component follows a non-dot character of that component, and then the stem keeps such a character |
| PathSplit.ExtIsVisible | file_renamer.py:111 | whenever a name has an extension in the declarative sense, the last dot lies after the last separator with a non-dot character between them |
| PathSplit.NoDotNoExt | file_renamer.py:111 | a name without a dot is all stem |
| NewNames.NewName | file_renamer.py:111-119 | the new name differs from the old one exactly when the text is non-empty and a position is ticked, and it is longer by the text once per ticked position |
| NewNames.NewNameLayout | file_renamer.py:111-119 | the text opens the new name when `before` is set, the old extension closes it, and the text sits right in front of that extension when `after` is set |
| NewNames.NewNameInjective | file_renamer.py:111-119 | for one rule, two names get the same new name if and only if they are the same name |
| NewNames.StemExtCancel | file_renamer.py:111-119 | stem and extension are recovered from `stem + text + ext` when both sides are splits as `splitext` makes them |
| NewNames.HiddenExt | file_renamer.py:111 | a stem that ends in text equal to another stem's text followed by an extension must itself contain an extension, so `splitext` would have split it |
| NewNames.SameCharsAsExt | file_renamer.py:111 | when `x + t` equals `t + e` for an extension `e`, the piece `x` holds a dot and no separator |
| NewNames.ExtSuffixUnique | file_renamer.py:111 | two extension-shaped suffixes of one string are the same suffix |
| FileSystem.Move | file_renamer.py:124 | after a move the destination holds the source's entry, the source name is gone unless it is the destination, and every other name is unchanged |
| FileSystem.MoveBack | file_renamer.py:124-131 | a move into a free name is undone by the move back |
| FileSystem.MoveCommute | file_renamer.py:124 | moves between four different names can be done in either order |
| RenameEngine.Eligible | file_renamer.py:104-109 | the entry the loop acts on: present in the directory as it stands at that turn, a regular file, and not on the exclusion list |
| RenameEngine.RenameStep | file_renamer.py:104-124 | an entry that is not a regular, non-excluded file, or a rule that changes no name, leaves directory and batch alone; otherwise the file is moved to its new name and the pair is appended to both lists |
| RenameEngine.ExcludedSkipped | file_renamer.py:20 | the two names on the exclusion list, `file_renamer.py` and `file_renamer.exe`, are skipped by the loop whatever the directory and rule: nothing moves, nothing is recorded |
| RenameEngine.RenameEach | file_renamer.py:103-124 | the loop keeps the two lists of the batch the same length and never shortens them |
| RenameEngine.RenameEachFrame | file_renamer.py:103-124 | a name that is neither an original nor a new name of a pair the loop appends keeps its entry, or stays absent: listed sub-directories, excluded files and unlisted names survive, whatever the collisions |
| RenameEngine.RenameEachExtends | file_renamer.py:103-124 | the loop only appends to the batch, leaving the pairs already there in place, and never removes an excluded entry |
| RenameEngine.RenameEachRecords | file_renamer.py:103-124 | every pair the loop appends comes from the listing, has a non-excluded original and a renamed name that is the original's new name and differs from it |
| RenameEngine.Rename | file_renamer.py:89-126 | empty text or no ticked position leaves directory and stored batch unchanged; otherwise the batch's lists stay paired, every pair in it is a listed, non-excluded file renamed to its new name with a change of name, and every name outside the batch keeps its entry, or stays absent |
| RenameEngine.RenameDropsBatch | file_renamer.py:89-101 | with text and a ticked position the stored batch is discarded: the rename gives the same directory and batch whatever batch it starts from |
| RenameEngine.UndoEach | file_renamer.py:129-131 | names outside the batch keep their entries, and when none of the new names exists nothing moves |
| RenameEngine.Undo | file_renamer.py:128-134 | the batch is empty afterwards; names outside the batch are untouched; a batch whose new names are all gone leaves the directory as it was |
| RenameLaws.EligibleNames | file_renamer.py:103-109 | a name is kept exactly when it is listed, is a regular file and is not excluded; a listing without repeats gives a result without repeats |
| RenameLaws.EligibleInListingOrder | file_renamer.py:103-109 | the kept names are the listing's entries at strictly increasing positions, so they come in listing order, the order in which the loop visits them |
| RenameLaws.MoveAll | file_renamer.py:121-124 | carrying out a plan of moves leaves every name outside the plan untouched |
| RenameLaws.MoveAllMoves | file_renamer.py:121-124 | after a plan every target holds its source's content and every source name is gone |
| RenameLaws.MoveAfterAll | file_renamer.py:124 | a move between names outside a plan commutes with the whole plan |
| RenameLaws.UndoReversesMoves | file_renamer.py:128-131 | the undo loop applied to the pairs of a plan restores the directory the plan started from |
| RenameLaws.EligibleNamesAgree | file_renamer.py:104-109 | which listed names are eligible depends only on those names' entries |
| RenameLaws.RenameHeadKeepsRest | file_renamer.py:103-124 | renaming the first eligible listed file keeps the rest of the listing a clash-free listing with the same eligible files |
| RenameLaws.PlanCons | file_renamer.py:121-124 | a clash-free move in front of a plan is again a plan, carried out by doing that move first |
| RenameLaws.RenameEachMovesEligible | file_renamer.py:103-124 | when no new name is taken, the loop moves exactly the eligible files, in listing order, to their new names and appends exactly those pairs |
| RenameLaws.RenameThenUndo | file_renamer.py:89-134 | when no new name is taken, undo right after a name-changing rename restores the directory exactly and leaves an empty batch |
| RenameLaws.StepKeepsEligible | file_renamer.py:103-124 | renaming the first eligible listed file, even onto an existing file, leaves the rest a listing of the directory with the same eligible files |
| RenameLaws.RenameEachRecordsEligible | file_renamer.py:103-124 | whatever the collisions, as long as no new name is a sub-directory, the loop appends exactly the eligible listed files, in listing order, each paired with its new name |
| RenameLaws.RenameRecordsEligible | file_renamer.py:89-126 | a name-changing rename over a listing of the directory, where no new name is a sub-directory, records exactly the listed regular files that are not excluded, in listing order, with their new names, and a name is recorded if and only if it is such a file |
| RenameLaws.UndoTwice | file_renamer.py:133-134 | a second undo changes nothing |
| RenameLaws.CollisionRename | file_renamer.py:103-124 | appending `x` to `a` and `ax`, in that order, leaves only `axx` with `a`'s content and records the pairs `a`→`ax`, `ax`→`axx` |
| RenameLaws.CollisionUndo | file_renamer.py:128-131 | undoing that batch moves `axx` back to `ax` and skips the pair whose new name `ax` no longer exists when it is reached |
| RenameLaws.CollisionLosesFile | file_renamer.py:121-131 | renaming `a` and `ax` by appending `x` overwrites the old `ax`, and undo leaves only `ax` with `a`'s content, not the starting directory |
| RenameLaws.ChainRename | file_renamer.py:103-124 | appending `x` with `ax` listed before `a` renames `ax` to `axx` and then `a` to the freed `ax`, overwriting nothing |
| RenameLaws.ChainUndo | file_renamer.py:128-131 | undoing that batch front to back moves `axx` onto `ax`, destroying the renamed `a`, and then `ax` to `a` |
| RenameLaws.ChainUndoLosesFile | file_renamer.py:103-131 | with no overwrite during the rename, the in-order undo still ends with a single file `a` holding the old content of `ax`, not the starting directory |
| FileRenamer.RenameFiles | file_renamer.py:89-126 | the loop computes `Rename`: no-op without text or position, otherwise a paired batch of recorded, listed renames |
| FileRenamer.ComposeName | file_renamer.py:111-119 | the name built piece by piece differs from the old one exactly when there is text and a ticked position; it opens with the text when `before` is set, ends with the old extension, and has the text right in front of that extension when `after` is set |
| FileRenamer.UndoRename | file_renamer.py:128-135 | the loop computes `Undo`: the batch is cleared and, when no new name exists any more, the directory is unchanged |

## Left out

- The Qt window, its widgets and `update_file_list` (lines 24-74, 83-87,
  126, 135): display only, no effect on which files are renamed.
- Choosing a folder (`select_folder`, lines 76-81): both handlers are
  modelled on one fixed working directory that the batch belongs to. The
  code's `os.chdir` switches the directory the listing, the file tests and
  the moves work in without clearing the batch, so an Undo after choosing
  another folder replays the old batch in the new folder; that case is not
  modelled.
- Failures of the real file system (permissions, a file vanishing between
  the listing and the move, a name too long): a move is modelled as always
  succeeding.
- `shutil.move` onto an existing sub-directory moves the file into it; the
  model treats every move as replacing the destination entry. A rule text
  containing `/` would likewise move files into other directories; names are
  flat keys here.
- Windows path rules (`ntpath.splitext`, `\` as separator, case-insensitive
  names): `SplitExt` follows the POSIX flavour.
- The order `os.listdir()` returns is not modelled; the listing is an
  arbitrary sequence given by the caller.
- The code has no remove mode, no preview and no status messages: text is
  only put in front of or after the stem, and nothing is reported per file.
  Undo walks the batch front to back, and so does the model.
- RenameLaws.RenameThenUndo: the round trip is proved only when no
  eligible file's new name is taken before the rename; `CollisionLosesFile`
  (an overwrite) and `ChainUndoLosesFile` (no overwrite, but undo runs
  front to back) show it failing otherwise, as the code does.
- RenameLaws.RenameRecordsEligible: which files are recorded is stated only
  when no new name is a sub-directory of the listed directory; a file moved
  onto a listed sub-directory's name would make that entry a file that the
  loop later renames too.

/** The directory organiser of pdf_bookmark_splitter.py:
    `create_top_level_directories`, `organize_sub_level_files` and
    `move_top_level_files_to_directories`, run against an abstract working
    directory.

    The pipeline runs its stages in a fixed order: classify the outline,
    split by top-level bookmarks, create the top-level directories, split by
    sub-level bookmarks, move the sub-level files, move the top-level files;
    an empty outline stops it before the first stage. */
module Organizer {
  import opened Outline
  import opened Sanitize
  import opened Ranges
  import opened Wrappers

  // ----- The containment table of `organize_sub_level_files` -----

  /** One row `(start_page, end_page, title)`; the last row's end is
      unbounded (the source's `float('inf')`). */
  datatype TopRange = TopRange(start: int, end: Option<int>, title: string)

  /** `start_page <= page <= end_page` */
  predicate Contains(r: TopRange, page: int) {
    r.start <= page && (r.end.None? || page <= r.end.value)
  }

  /** Row `i` of the table, built from the raw top-level bookmarks. */
  function RangeRow(top: seq<Entry>, i: nat): TopRange
    requires i < |top|
  {
    TopRange(top[i].page, if i + 1 < |top| then Some(top[i + 1].page - 1) else None, top[i].title)
  }

  function RangeTable(top: seq<Entry>): seq<TopRange> {
    seq(|top|, i requires 0 <= i < |top| => RangeRow(top, i))
  }

  /** A row contains a page exactly when the page lies in the raw range the
      split computes for that bookmark, except that the last row has no
      upper bound where the split stops at the page count. */
  lemma RangeRowMatchesSplit(top: seq<Entry>, i: nat, page: int, pageCount: int)
    requires i < |top|
    ensures Contains(RangeRow(top, i), page) <==>
            top[i].page <= page && (i + 1 < |top| ==> page <= RawEnd(top, i, pageCount))
  {
  }

  /** The loop that fills `top_level_ranges`: one row per top-level
      bookmark, skipped ones included. */
  method BuildRangeTable(top: seq<Entry>) returns (table: seq<TopRange>)
    ensures table == RangeTable(top)
  {
    table := [];
    for i := 0 to |top|
      invariant |table| == i
      invariant forall j :: 0 <= j < i ==> table[j] == RangeRow(top, j)
    {
      var endPage := if i + 1 < |top| then Some(top[i + 1].page - 1) else None;
      var row := TopRange(top[i].page, endPage, top[i].title);
      assert row == RangeRow(top, i);
      table := table + [row];
    }
    assert forall j :: 0 <= j < |top| ==> table[j] == RangeTable(top)[j];
  }

  /** The first row from index `i` on that contains `page`, if any. */
  function FirstFrom(table: seq<TopRange>, page: int, i: nat): (k: Option<nat>)
    requires i <= |table|
    ensures k.None? ==> forall j :: i <= j < |table| ==> !Contains(table[j], page)
    ensures k.Some? ==> i <= k.value < |table| && Contains(table[k.value], page) &&
                        forall j :: i <= j < k.value ==> !Contains(table[j], page)
    decreases |table| - i
  {
    if i == |table| then None
    else if Contains(table[i], page) then Some(i)
    else FirstFrom(table, page, i + 1)
  }

  /** `f"_{title}"`: the directory of a top-level section. */
  function DirName(cleanTitle: string): string {
    "_" + cleanTitle
  }

  /** The directory a sub-level page belongs in: that of the first row
      containing it, or none. */
  function TargetDir(table: seq<TopRange>, page: int): Option<string> {
    match FirstFrom(table, page, 0)
    case None => None
    case Some(k) => Some(DirName(CleanFilename(table[k].title)))
  }

  /** The inner `for ... break` search of `organize_sub_level_files`. */
  method FindTarget(table: seq<TopRange>, page: int) returns (target: Option<string>)
    ensures target == TargetDir(table, page)
  {
    target := None;
    for i := 0 to |table|
      invariant FirstFrom(table, page, 0) == FirstFrom(table, page, i)
    {
      var row := table[i];
      if row.start <= page && (row.end.None? || page <= row.end.value) {
        target := Some(DirName(CleanFilename(row.title)));
        break;
      }
    }
  }

  /** With strictly increasing top-level pages, a page from bookmark `k`'s
      start up to (not including) the next bookmark's start goes to
      bookmark `k`'s directory and to no other. */
  lemma SortedPlacement(top: seq<Entry>, page: int, k: nat)
    requires StrictlyIncreasing(top)
    requires k < |top| && top[k].page <= page
    requires k + 1 < |top| ==> page < top[k + 1].page
    ensures TargetDir(RangeTable(top), page) == Some(DirName(CleanFilename(top[k].title)))
  {
    var t := RangeTable(top);
    assert Contains(t[k], page);
    forall j | 0 <= j < k ensures !Contains(t[j], page) {
      if j + 1 < k { assert top[j + 1].page < top[k].page; }
    }
  }

  /** A page before the first top-level bookmark has no target directory. */
  lemma BeforeFirstSection(top: seq<Entry>, page: int)
    requires StrictlyIncreasing(top)
    requires 0 < |top| ==> page < top[0].page
    ensures TargetDir(RangeTable(top), page) == None
  {
    var t := RangeTable(top);
    forall j | 0 <= j < |t| ensures !Contains(t[j], page) {
      if 0 < j { assert top[0].page < top[j].page; }
    }
  }

  // ----- The working directory -----

  /** Where a file is: in the working directory itself or in one of its
      directories. */
  datatype Location = Cwd | InDir(dir: string)

  datatype FilePath = FilePath(loc: Location, name: string)

  /** The directories of the working directory and the files it holds. */
  datatype FsState = FsState(dirs: set<string>, files: set<FilePath>)

  /** Every file sits in the working directory or in one of its directories,
      and no name is both a directory and a file of the working directory. */
  predicate WellFormed(st: FsState) {
    (forall p :: p in st.files && p.loc.InDir? ==> p.loc.dir in st.dirs) &&
    (forall d :: d in st.dirs ==> FilePath(Cwd, d) !in st.files)
  }

  /** `os.path.exists(name)`: true for a directory and for a file alike. */
  predicate Exists(st: FsState, name: string) {
    name in st.dirs || FilePath(Cwd, name) in st.files
  }

  /** `shutil.move(name, os.path.join(dir, name))` inside `try`/`except`:
      the file moves when it is in the working directory and `dir` is a
      directory (replacing a file of that name there); otherwise the move
      raises, the handler reports it, and nothing changes. */
  function MoveFile(st: FsState, name: string, dir: string): FsState {
    var src := FilePath(Cwd, name);
    if dir in st.dirs && src in st.files
    then FsState(st.dirs, st.files - {src} + {FilePath(InDir(dir), name)})
    else st
  }

  /** One planned move: a file name and the directory it should go to, if any. */
  datatype Move = Move(name: string, target: Option<string>)

  /** `if target_dir and os.path.exists(target_dir): move`, else leave the
      file where it is. */
  function MoveStep(st: FsState, m: Move): FsState {
    if m.target.Some? && Exists(st, m.target.value) then MoveFile(st, m.name, m.target.value) else st
  }

  /** The moves of a plan, carried out one after the other. */
  function ApplyMoves(st: FsState, plan: seq<Move>): FsState {
    if plan == [] then st else MoveStep(ApplyMoves(st, plan[..|plan| - 1]), plan[|plan| - 1])
  }

  /** The moves `organize_sub_level_files` attempts: each sub-level file
      towards the directory of the first top-level range containing its
      raw page. */
  function SubPlan(subFiles: seq<SubFile>, top: seq<Entry>): seq<Move> {
    seq(|subFiles|, i requires 0 <= i < |subFiles| =>
          Move(subFiles[i].filename, TargetDir(RangeTable(top), subFiles[i].page)))
  }

  /** The moves `move_top_level_files_to_directories` attempts: each
      top-level file towards the directory of its own clean title. */
  function TopPlan(topFiles: seq<TopFile>): seq<Move> {
    seq(|topFiles|, i requires 0 <= i < |topFiles| =>
          Move(topFiles[i].filename, Some(DirName(topFiles[i].title))))
  }

  function ToSet(s: seq<string>): set<string> {
    set x | x in s
  }

  /** The directory names of the top-level files, in order. */
  function DirNames(topFiles: seq<TopFile>): seq<string> {
    seq(|topFiles|, i requires 0 <= i < |topFiles| => DirName(topFiles[i].title))
  }

  /** The list `create_top_level_directories` returns: each `_title` name
      that does not exist yet when its turn comes. */
  function MissingDirs(st: FsState, topFiles: seq<TopFile>): seq<string> {
    if topFiles == [] then []
    else
      var prev := MissingDirs(st, topFiles[..|topFiles| - 1]);
      var d := DirName(topFiles[|topFiles| - 1].title);
      if Exists(FsState(st.dirs + ToSet(prev), st.files), d) then prev else prev + [d]
  }

  /** The working directory after `create_top_level_directories`. */
  function AfterCreate(st: FsState, topFiles: seq<TopFile>): FsState {
    FsState(st.dirs + ToSet(MissingDirs(st, topFiles)), st.files)
  }

  // ----- What the organiser's operations promise -----

  /** The directories created are exactly the `_title` names that did not
      exist before, each named once. */
  lemma {:induction false} MissingDirsExactly(st: FsState, topFiles: seq<TopFile>)
    ensures forall i, j :: 0 <= i < j < |MissingDirs(st, topFiles)| ==>
              MissingDirs(st, topFiles)[i] != MissingDirs(st, topFiles)[j]
    ensures forall d :: d in MissingDirs(st, topFiles) <==> d in DirNames(topFiles) && !Exists(st, d)
  {
    if topFiles != [] {
      var init := topFiles[..|topFiles| - 1];
      MissingDirsExactly(st, init);
      assert DirNames(topFiles) == DirNames(init) + [DirName(topFiles[|topFiles| - 1].title)];
    }
  }

  /** After `create_top_level_directories` every `_title` name exists, and
      the working directory has gained only directories. */
  lemma CreateMakesAllExist(st: FsState, topFiles: seq<TopFile>)
    requires WellFormed(st)
    ensures WellFormed(AfterCreate(st, topFiles))
    ensures AfterCreate(st, topFiles).files == st.files
    ensures st.dirs <= AfterCreate(st, topFiles).dirs
    ensures forall i :: 0 <= i < |topFiles| ==> Exists(AfterCreate(st, topFiles), DirName(topFiles[i].title))
  {
    MissingDirsExactly(st, topFiles);
    forall i | 0 <= i < |topFiles| ensures Exists(AfterCreate(st, topFiles), DirName(topFiles[i].title)) {
      assert DirNames(topFiles)[i] == DirName(topFiles[i].title);
    }
  }

  /** When every `_title` name exists already, no directory is created. */
  lemma {:induction false} NothingMissing(st: FsState, topFiles: seq<TopFile>)
    requires forall i :: 0 <= i < |topFiles| ==> Exists(st, DirName(topFiles[i].title))
    ensures MissingDirs(st, topFiles) == []
  {
    if topFiles != [] {
      NothingMissing(st, topFiles[..|topFiles| - 1]);
    }
  }

  /** Running `create_top_level_directories` a second time creates and
      returns nothing. */
  lemma CreateDirsIdempotent(st: FsState, topFiles: seq<TopFile>)
    requires WellFormed(st)
    ensures MissingDirs(AfterCreate(st, topFiles), topFiles) == []
    ensures AfterCreate(AfterCreate(st, topFiles), topFiles) == AfterCreate(st, topFiles)
  {
    var st1 := AfterCreate(st, topFiles);
    CreateMakesAllExist(st, topFiles);
    NothingMissing(st1, topFiles);
  }

  lemma {:induction false} ApplyMovesAppend(st: FsState, a: seq<Move>, b: seq<Move>)
    ensures ApplyMoves(st, a + b) == ApplyMoves(ApplyMoves(st, a), b)
    decreases |b|
  {
    if b == [] {
      assert a + b == a;
    } else {
      assert (a + b)[..|a + b| - 1] == a + b[..|b| - 1];
      ApplyMovesAppend(st, a, b[..|b| - 1]);
    }
  }

  /** Moving files never creates or removes a directory. */
  lemma {:induction false} ApplyMovesKeepsDirs(st: FsState, plan: seq<Move>)
    ensures ApplyMoves(st, plan).dirs == st.dirs
  {
    if plan != [] {
      ApplyMovesKeepsDirs(st, plan[..|plan| - 1]);
    }
  }

  /** Moves keep every file inside an existing directory. */
  lemma {:induction false} ApplyMovesWellFormed(st: FsState, plan: seq<Move>)
    requires WellFormed(st)
    ensures WellFormed(ApplyMoves(st, plan))
  {
    if plan != [] {
      ApplyMovesWellFormed(st, plan[..|plan| - 1]);
    }
  }

  /** A file no planned move names is where it was. */
  lemma {:induction false} ApplyMovesUntouched(st: FsState, plan: seq<Move>, p: FilePath)
    requires forall j :: 0 <= j < |plan| ==> plan[j].name != p.name
    ensures p in ApplyMoves(st, plan).files <==> p in st.files
  {
    if plan != [] {
      ApplyMovesUntouched(st, plan[..|plan| - 1], p);
    }
  }

  /** Moves only take files out of the working directory, never put one in. */
  lemma {:induction false} ApplyMovesAddsNoRootFile(st: FsState, plan: seq<Move>, name: string)
    ensures FilePath(Cwd, name) in ApplyMoves(st, plan).files ==> FilePath(Cwd, name) in st.files
  {
    if plan != [] {
      ApplyMovesAddsNoRootFile(st, plan[..|plan| - 1], name);
    }
  }

  /** A file already moved into a directory stays there. */
  lemma {:induction false} ApplyMovesKeepsPlaced(st: FsState, plan: seq<Move>, dir: string, name: string)
    ensures FilePath(InDir(dir), name) in st.files ==> FilePath(InDir(dir), name) in ApplyMoves(st, plan).files
  {
    if plan != [] {
      ApplyMovesKeepsPlaced(st, plan[..|plan| - 1], dir, name);
    }
  }

  /** A planned move towards an existing directory, of a file that is in
      the working directory and that no earlier move names, puts the file
      in that directory and takes it out of the working directory. */
  lemma ApplyMovesPlaces(st: FsState, plan: seq<Move>, k: nat, dir: string)
    requires k < |plan| && plan[k].target == Some(dir)
    requires dir in st.dirs && FilePath(Cwd, plan[k].name) in st.files
    requires forall j :: 0 <= j < k ==> plan[j].name != plan[k].name
    ensures FilePath(InDir(dir), plan[k].name) in ApplyMoves(st, plan).files
    ensures FilePath(Cwd, plan[k].name) !in ApplyMoves(st, plan).files
  {
    var name := plan[k].name;
    var pre := plan[..k];
    var post := plan[k + 1..];
    assert plan == (pre + [plan[k]]) + post;
    ApplyMovesAppend(st, pre + [plan[k]], post);
    assert (pre + [plan[k]])[..k] == pre;
    var mid := ApplyMoves(st, pre);
    ApplyMovesUntouched(st, pre, FilePath(Cwd, name));
    ApplyMovesKeepsDirs(st, pre);
    var moved := MoveStep(mid, plan[k]);
    assert moved == ApplyMoves(st, pre + [plan[k]]);
    assert FilePath(InDir(dir), name) in moved.files && FilePath(Cwd, name) !in moved.files;
    ApplyMovesKeepsPlaced(moved, post, dir, name);
    ApplyMovesAddsNoRootFile(moved, post, name);
  }

  /** A file whose every planned move has no target, or a target that is
      not a directory, stays exactly where it is. */
  lemma {:induction false} ApplyMovesLeavesUnplaceable(st: FsState, plan: seq<Move>, p: FilePath)
    requires forall j :: 0 <= j < |plan| && plan[j].name == p.name ==>
               plan[j].target.None? || plan[j].target.value !in st.dirs
    ensures p in ApplyMoves(st, plan).files <==> p in st.files
  {
    if plan != [] {
      ApplyMovesLeavesUnplaceable(st, plan[..|plan| - 1], p);
      ApplyMovesKeepsDirs(st, plan[..|plan| - 1]);
    }
  }

  /** Stages "create directories" then "move top-level files": a top-level
      file present in the working directory, whose `_title` name is not
      taken by a file and that no earlier top-level file shares its name
      with, ends up inside its own directory. */
  lemma TopFileReachesItsDirectory(st: FsState, topFiles: seq<TopFile>, k: nat)
    requires WellFormed(st)
    requires k < |topFiles|
    requires FilePath(Cwd, topFiles[k].filename) in st.files
    requires FilePath(Cwd, DirName(topFiles[k].title)) !in st.files
    requires forall j :: 0 <= j < k ==> topFiles[j].filename != topFiles[k].filename
    ensures FilePath(InDir(DirName(topFiles[k].title)), topFiles[k].filename)
              in ApplyMoves(AfterCreate(st, topFiles), TopPlan(topFiles)).files
    ensures FilePath(Cwd, topFiles[k].filename)
              !in ApplyMoves(AfterCreate(st, topFiles), TopPlan(topFiles)).files
  {
    CreateMakesAllExist(st, topFiles);
    ApplyMovesPlaces(AfterCreate(st, topFiles), TopPlan(topFiles), k, DirName(topFiles[k].title));
  }

  /** The working directory, held as a directory set and a file set that
      the organiser's operations update in place. */
  class Workspace {
    var dirs: set<string>
    var files: set<FilePath>

    function State(): FsState
      reads this
    {
      FsState(dirs, files)
    }

    ghost predicate Valid()
      reads this
    {
      WellFormed(State())
    }

    constructor (st: FsState)
      requires WellFormed(st)
      ensures Valid() && State() == st
    {
      dirs := st.dirs;
      files := st.files;
    }

    /** `os.path.exists(name)`. */
    method PathExists(name: string) returns (b: bool)
      ensures b == Exists(State(), name)
    {
      b := name in dirs || FilePath(Cwd, name) in files;
    }

    /** `shutil.move(name, os.path.join(dir, name))` with its exception
        handler. */
    method MoveInto(name: string, dir: string) returns (moved: bool)
      requires Valid()
      modifies this
      ensures Valid()
      ensures moved <==> dir in old(dirs) && FilePath(Cwd, name) in old(files)
      ensures State() == MoveFile(old(State()), name, dir)
    {
      var src := FilePath(Cwd, name);
      moved := dir in dirs && src in files;
      if moved {
        files := files - {src} + {FilePath(InDir(dir), name)};
      }
    }

    /** One iteration of either move loop: move only when a target was found
        and it exists. */
    method MoveIfTargetExists(m: Move)
      requires Valid()
      modifies this
      ensures Valid()
      ensures State() == MoveStep(old(State()), m)
    {
      if m.target.Some? {
        var present := PathExists(m.target.value);
        if present {
          var moved := MoveInto(m.name, m.target.value);
        }
      }
    }

    /** `create_top_level_directories`: makes each missing `_title`
        directory and returns the names it made. */
    method CreateTopLevelDirectories(topFiles: seq<TopFile>) returns (created: seq<string>)
      requires Valid()
      modifies this
      ensures Valid()
      ensures created == MissingDirs(old(State()), topFiles)
      ensures State() == AfterCreate(old(State()), topFiles)
    {
      ghost var st0 := State();
      created := [];
      for i := 0 to |topFiles|
        invariant Valid()
        invariant created == MissingDirs(st0, topFiles[..i])
        invariant State() == FsState(st0.dirs + ToSet(created), st0.files)
      {
        assert topFiles[..i + 1][..i] == topFiles[..i];
        var dirName := DirName(topFiles[i].title);
        var present := PathExists(dirName);
        if !present {
          dirs := dirs + {dirName};
          created := created + [dirName];
        }
      }
      assert topFiles[..|topFiles|] == topFiles;
    }

    /** `organize_sub_level_files`: builds the containment table from the
        raw top-level bookmarks, then moves each sub-level file into the
        directory of the first range containing its page, when that
        directory exists. */
    method OrganizeSubLevelFiles(subFiles: seq<SubFile>, top: seq<Entry>)
      requires Valid()
      modifies this
      ensures Valid()
      ensures State() == ApplyMoves(old(State()), SubPlan(subFiles, top))
    {
      ghost var st0 := State();
      var table := BuildRangeTable(top);
      ghost var plan := SubPlan(subFiles, top);
      for i := 0 to |subFiles|
        invariant Valid()
        invariant State() == ApplyMoves(st0, plan[..i])
      {
        assert plan[..i + 1][..i] == plan[..i];
        var target := FindTarget(table, subFiles[i].page);
        MoveIfTargetExists(Move(subFiles[i].filename, target));
      }
      assert plan[..|subFiles|] == plan;
    }

    /** `move_top_level_files_to_directories`: moves each top-level file
        into its `_title` directory, when that exists. */
    method MoveTopLevelFilesToDirectories(topFiles: seq<TopFile>)
      requires Valid()
      modifies this
      ensures Valid()
      ensures State() == ApplyMoves(old(State()), TopPlan(topFiles))
    {
      ghost var st0 := State();
      ghost var plan := TopPlan(topFiles);
      for i := 0 to |topFiles|
        invariant Valid()
        invariant State() == ApplyMoves(st0, plan[..i])
      {
        assert plan[..i + 1][..i] == plan[..i];
        MoveIfTargetExists(Move(topFiles[i].filename, Some(DirName(topFiles[i].title))));
      }
      assert plan[..|topFiles|] == plan;
    }
  }
}

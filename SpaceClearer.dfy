/**
 The SpaceClearer window's state and the handlers that change it: the page
 start, the chosen directory and the in-memory file list. The value-level
 functions below say what each handler does to the three fields; the class
 Session holds the fields and its methods are proved to follow them.
 */
module SpaceClearer {
  import opened Wrappers
  import opened Lists
  import opened FileLister
  import opened FileActions
  import Paging

  type Dir = string

  /** The fields start, file and paths; None stands for Java's null. */
  datatype SessionState = SessionState(start: int, file: Option<Dir>, paths: Option<seq<Path>>)

  /** The fields before the first directory dialog: start is 0, file and paths are null. */
  const Launch := SessionState(0, None, None)

  /**
   What every handler keeps: the page start is a non-negative multiple of the
   page size, there is a list exactly when a directory is selected, and the
   list has no duplicate paths.
   */
  predicate Invariant(v: SessionState)
  {
    && Paging.Aligned(v.start)
    && (v.file.None? <==> v.paths.None?)
    && (v.paths.Some? ==> Distinct(v.paths.value))
  }

  datatype RemoveMode = Recycle | PermanentDelete

  /** A button the user presses, with what the outside world answers. */
  datatype Action =
    | NextPage
    | PreviousPage
    | RemoveFile(mode: RemoveMode, current: Path, call: PlatformCall)
    | ChangeFile(choice: Option<Dir>, walk: Walk)

  /** One line of the rendered pane: a file row for this list index, or the "File is Empty" label. */
  datatype Row = FileRow(index: nat) | EmptyLabel

  /** Next Page: start += 5. Taken when offered, it keeps the invariant and lands on a page with rows. */
  function AfterNext(v: SessionState): (w: SessionState)
    ensures w.file == v.file && w.paths == v.paths
    ensures Invariant(v) && v.paths.Some? && Paging.HasNext(v.start, |v.paths.value|) ==>
      Invariant(w) && Paging.VisibleRange(w.start, |w.paths.value|).Length() > 0
  {
    v.(start := Paging.Advance(v.start))
  }

  /** Previous Page: start -= 5. Taken when offered, it keeps the invariant and moves to an earlier page. */
  function AfterPrev(v: SessionState): (w: SessionState)
    ensures w.file == v.file && w.paths == v.paths && w.start < v.start
    ensures Invariant(v) && Paging.HasPrev(v.start) ==> Invariant(w)
  {
    v.(start := Paging.Retreat(v.start))
  }

  /**
   Recycle or Perm Delete: paths.remove(current), whatever the platform call
   did. start and file stay; an absent path changes nothing; on a valid state
   the path is gone afterwards and the invariant holds.
   */
  function AfterRemove(v: SessionState, current: Path): (w: SessionState)
    requires v.paths.Some?
    ensures w.start == v.start && w.file == v.file && w.paths.Some?
    ensures current !in v.paths.value ==> w == v
    ensures Invariant(v) ==> Invariant(w) && current !in w.paths.value
  {
    assert Invariant(v) ==> Distinct(RemoveFirst(v.paths.value, current)) && current !in RemoveFirst(v.paths.value, current) by {
      if Invariant(v) { RemoveFirstKeepsDistinct(v.paths.value, current); }
    }
    v.(paths := Some(RemoveFirst(v.paths.value, current)))
  }

  /**
   fileSelect: a cancelled dialog changes nothing; a chosen directory is stored
   and scanned, and a failed scan nulls both the list and the directory.
   start is never touched.
   */
  function AfterSelect(v: SessionState, choice: Option<Dir>, walk: Walk): (w: SessionState)
    ensures w.start == v.start
    ensures choice.None? ==> w == v
    ensures choice.Some? ==> (w.paths.None? <==> walk.WalkFailed?) && w.file == (if walk.Walked? then choice else None)
    ensures Invariant(v) && WalkListsOnce(walk) ==> Invariant(w)
  {
    match choice
    case None => v
    case Some(d) =>
      var listed := GetFilesInDirectory(walk);
      assert WalkListsOnce(walk) && walk.Walked? ==> Distinct(listed.value) by {
        if WalkListsOnce(walk) && walk.Walked? { FileArraySorterDistinct(walk.files, walk.size); }
      }
      if listed.None? then v.(file := None, paths := None) else v.(file := Some(d), paths := listed)
  }

  /**
   fileSelect ends the process when the dialog is cancelled and no directory
   was ever kept; on a valid state that happens only while there is no list.
   */
  predicate Exits(v: SessionState, choice: Option<Dir>): (b: bool)
    ensures b ==> choice.None? && forall walk :: AfterSelect(v, choice, walk) == v
    ensures Invariant(v) && b ==> v.paths.None?
  {
    choice.None? && v.file.None?
  }

  /** The alert, if any, that the chosen file operation shows. */
  function ReportOf(mode: RemoveMode, call: PlatformCall): (r: Report)
  {
    match mode
    case Recycle => RecycleFile(call)
    case PermanentDelete => PermanentlyDelete(call)
  }

  /** The path is one of the rows of the rendered page, so its buttons are on screen. */
  predicate OnPage(v: SessionState, p: Path)
    requires v.paths.Some?
  {
    exists i :: 0 <= i < |v.paths.value| && Paging.VisibleRange(v.start, |v.paths.value|).Contains(i) && v.paths.value[i] == p
  }

  /**
   The action's button is on the pane rendered from v: the page buttons and
   the file buttons exist only on a rendered list, and a file button belongs
   to an entry of the list. Change File is on every scene, including the
   one left on screen after a failed scan.
   */
  predicate Offered(v: SessionState, a: Action): (b: bool)
    ensures b && !a.ChangeFile? ==> v.paths.Some?
    ensures b && a.RemoveFile? ==> a.current in v.paths.value
    ensures b && a.NextPage? ==> Paging.VisibleRange(v.start, |v.paths.value|).Length() == Paging.PageSize
    ensures a.ChangeFile? ==> b
  {
    match a
    case NextPage => v.paths.Some? && Paging.HasNext(v.start, |v.paths.value|)
    case PreviousPage => v.paths.Some? && Paging.HasPrev(v.start)
    case RemoveFile(_, p, _) => v.paths.Some? && OnPage(v, p)
    case ChangeFile(_, _) => true
  }

  /** The action ends the process: a cancelled dialog with no directory kept. */
  predicate Terminates(v: SessionState, a: Action)
  {
    a.ChangeFile? && Exits(v, a.choice)
  }

  function Step(v: SessionState, a: Action): (w: SessionState)
    requires Offered(v, a)
  {
    match a
    case NextPage => AfterNext(v)
    case PreviousPage => AfterPrev(v)
    case RemoveFile(_, p, _) => AfterRemove(v, p)
    case ChangeFile(choice, walk) => AfterSelect(v, choice, walk)
  }

  /** What the file system can hand to an action: a walk lists each regular file once. */
  predicate FromFileSystem(a: Action)
  {
    a.ChangeFile? ==> WalkListsOnce(a.walk)
  }

  /**
   Every action of the sequence is offered when it is taken, its walk comes
   from the file system, and nothing follows an exit.
   */
  predicate Allowed(v: SessionState, actions: seq<Action>)
    decreases actions
  {
    || actions == []
    || (&& Offered(v, actions[0])
        && FromFileSystem(actions[0])
        && (Terminates(v, actions[0]) ==> |actions| == 1)
        && Allowed(Step(v, actions[0]), actions[1..]))
  }

  function Run(v: SessionState, actions: seq<Action>): (w: SessionState)
    requires Allowed(v, actions)
    decreases actions
  {
    if actions == [] then v else Run(Step(v, actions[0]), actions[1..])
  }

  /** Each offered action keeps the invariant. */
  lemma StepKeepsInvariant(v: SessionState, a: Action)
    requires Invariant(v) && Offered(v, a) && FromFileSystem(a)
    ensures Invariant(Step(v, a))
  {
    match a
    case NextPage =>
    case PreviousPage =>
    case RemoveFile(_, p, _) =>
      RemoveFirstKeepsDistinct(v.paths.value, p);
    case ChangeFile(choice, walk) =>
      if choice.Some? && walk.Walked? {
        FileArraySorterDistinct(walk.files, walk.size);
      }
  }

  /** Any sequence of offered actions keeps the invariant. */
  lemma {:induction false} RunKeepsInvariant(v: SessionState, actions: seq<Action>)
    requires Invariant(v) && Allowed(v, actions)
    ensures Invariant(Run(v, actions))
    decreases actions
  {
    if actions != [] {
      StepKeepsInvariant(v, actions[0]);
      RunKeepsInvariant(Step(v, actions[0]), actions[1..]);
    }
  }

  /**
   start begins at 0, and whatever the user does with the buttons on screen,
   start stays a non-negative multiple of 5.
   */
  lemma LaunchKeepsStartAligned(actions: seq<Action>)
    requires Allowed(Launch, actions)
    ensures Paging.Aligned(Run(Launch, actions).start)
    ensures Run(Launch, actions).paths.Some? ==> Run(Launch, actions).file.Some?
  {
    RunKeepsInvariant(Launch, actions);
  }

  /**
   Removing an entry of the list drops exactly that entry: the list is one
   shorter, the other entries keep their order, the path is gone, and start
   and file are unchanged. The platform call's outcome plays no part.
   */
  lemma RemoveIsExact(v: SessionState, mode: RemoveMode, p: Path, call: PlatformCall, k: nat)
    requires Invariant(v) && v.paths.Some? && OnPage(v, p)
    requires k < |v.paths.value| && v.paths.value[k] == p
    ensures Step(v, RemoveFile(mode, p, call)).paths.value == v.paths.value[..k] + v.paths.value[k + 1..]
    ensures |Step(v, RemoveFile(mode, p, call)).paths.value| == |v.paths.value| - 1
    ensures p !in Step(v, RemoveFile(mode, p, call)).paths.value
    ensures Step(v, RemoveFile(mode, p, call)).start == v.start
    ensures Step(v, RemoveFile(mode, p, call)).file == v.file
  {
    RemoveFirstDistinct(v.paths.value, p, k);
  }

  /** Removal keeps the list largest-first for the size snapshot it was sorted by. */
  lemma RemoveKeepsLargestFirst(v: SessionState, p: Path, size: Path -> nat)
    requires Invariant(v) && v.paths.Some? && NonIncreasing(v.paths.value, size)
    ensures NonIncreasing(AfterRemove(v, p).paths.value, size)
  {
    var s := v.paths.value;
    if p in s {
      var k :| 0 <= k < |s| && s[k] == p;
      RemoveFirstDistinct(s, p, k);
      SpliceNonIncreasing(s, k, size);
    }
  }

  /**
   The three outcomes of the directory dialog. A cancel with a directory
   already kept changes nothing; a chosen directory whose walk succeeds
   replaces the list with the walk sorted largest-first and keeps start; a
   failed walk nulls the directory and the list.
   */
  lemma SelectOutcomes(v: SessionState, d: Dir, walk: Walk)
    requires Invariant(v)
    ensures v.file.Some? ==> AfterSelect(v, None, walk) == v && !Exits(v, None)
    ensures walk.Walked? ==>
      var w := AfterSelect(v, Some(d), walk);
      && w.file == Some(d) && w.start == v.start
      && multiset(w.paths.value) == multiset(walk.files)
      && NonIncreasing(w.paths.value, walk.size)
    ensures walk.WalkFailed? ==> AfterSelect(v, Some(d), walk) == SessionState(v.start, None, None)
  {
  }

  /**
   start is not reset when a new directory is scanned: if the old start lies
   at or past the end of the new list, the first page shown for it is empty,
   Next is not offered, and only Previous leads back to the files.
   */
  lemma RescanKeepsStaleStart(v: SessionState, d: Dir, files: seq<Path>, size: Path -> nat)
    requires Invariant(v) && v.start >= |files| && v.start > 0
    ensures
      var w := AfterSelect(v, Some(d), Walked(files, size));
      && w.start == v.start
      && Paging.VisibleRange(w.start, |w.paths.value|).Length() == 0
      && !Paging.HasNext(w.start, |w.paths.value|)
      && Paging.HasPrev(w.start)
  {
    var w := AfterSelect(v, Some(d), Walked(files, size));
    assert |w.paths.value| == |files| by {
      assert multiset(w.paths.value) == multiset(files);
      assert |multiset(w.paths.value)| == |multiset(files)|;
    }
    assert Paging.Aligned(w.start);
    Paging.HasPrevIffNotFirstPage(w.start);
  }

  /** A removal whose platform call failed still drops the entry, as a successful one does. */
  lemma FailedRemovalStillRemoves(v: SessionState, mode: RemoveMode, p: Path, call: PlatformCall)
    requires Invariant(v) && v.paths.Some? && OnPage(v, p) && call != Returned(true)
    ensures ReportOf(mode, call).Alerted?
    ensures Step(v, RemoveFile(mode, p, call)) == Step(v, RemoveFile(mode, p, Returned(true)))
    ensures p !in Step(v, RemoveFile(mode, p, call)).paths.value
  {
    RemoveFirstKeepsDistinct(v.paths.value, p);
  }

  /** Removing the only row of the last page leaves start on a page with no rows. */
  lemma RemovalCanEmptyThePage()
    ensures
      var v := SessionState(5, Some("dir"), Some(["a", "b", "c", "d", "e", "f"]));
      && Invariant(v) && Offered(v, RemoveFile(Recycle, "f", Returned(true)))
      && var w := Step(v, RemoveFile(Recycle, "f", Returned(true)));
      && w.start == 5 && |w.paths.value| == 5
      && Paging.VisibleRange(w.start, |w.paths.value|).Length() == 0
      && Paging.HasPrev(w.start)
  {
    var v := SessionState(5, Some("dir"), Some(["a", "b", "c", "d", "e", "f"]));
    assert v.paths.value[5] == "f";
    assert OnPage(v, "f");
    assert Distinct(v.paths.value);
  }

  /**
   The window's fields. Its handlers assume the pane on screen was rendered
   from the current fields, so a page button is pressed only when offered.
   */
  class Session {
    var start: int
    var file: Option<Dir>
    var paths: Option<seq<Path>>

    function State(): SessionState
      reads this
    {
      SessionState(start, file, paths)
    }

    ghost predicate Valid()
      reads this
    {
      Invariant(State())
    }

    constructor ()
      ensures Valid() && State() == Launch
    {
      start := 0;
      file := None;
      paths := None;
    }

    /** The Next Page button is on the pane: only below a full page, and only if another page has rows. */
    function HasNext(): (b: bool)
      reads this
      requires paths.Some?
      ensures b == Paging.HasNext(start, |paths.value|)
      ensures b ==> VisibleRange().Length() == Paging.PageSize
    {
      Paging.HasNext(start, |paths.value|)
    }

    /** The Previous Page button is on the pane: on an aligned start, on every page but the first. */
    function HasPrev(): (b: bool)
      reads this
      ensures b == Paging.HasPrev(start)
      ensures Paging.Aligned(start) ==> (b <==> start != 0)
    {
      Paging.HasPrev(start)
    }

    /** The indices the pane renders: from start, at most a page, and inside the list. */
    function VisibleRange(): (r: Paging.Range)
      reads this
      requires paths.Some?
      ensures r == Paging.VisibleRange(start, |paths.value|)
      ensures r.lo == start && 0 <= r.Length() <= Paging.PageSize
      ensures start >= 0 ==> forall i :: r.Contains(i) ==> 0 <= i < |paths.value|
    {
      Paging.VisibleRange(start, |paths.value|)
    }

    method Next()
      requires Valid() && paths.Some? && HasNext()
      modifies this
      ensures Valid() && State() == AfterNext(old(State()))
    {
      start := start + Paging.PageSize;
    }

    method Prev()
      requires Valid() && HasPrev()
      modifies this
      ensures Valid() && State() == AfterPrev(old(State()))
    {
      start := start - Paging.PageSize;
    }

    /** The Recycle / Perm Delete handler after the confirmation: the file action, then paths.remove. */
    method Remove(mode: RemoveMode, current: Path, call: PlatformCall) returns (report: Report)
      requires Valid() && paths.Some?
      modifies this
      ensures Valid() && State() == AfterRemove(old(State()), current)
      ensures report == ReportOf(mode, call)
    {
      match mode {
        case Recycle => report := RecycleFile(call);
        case PermanentDelete => report := PermanentlyDelete(call);
      }
      RemoveFirstKeepsDistinct(paths.value, current);
      paths := Some(RemoveFirst(paths.value, current));
    }

    /** fileSelect, given what the dialog returned and what walking the directory gave. */
    method SelectOutcome(choice: Option<Dir>, walk: Walk) returns (exits: bool)
      requires Valid() && WalkListsOnce(walk)
      modifies this
      ensures Valid()
      ensures exits == Exits(old(State()), choice)
      ensures State() == AfterSelect(old(State()), choice, walk)
    {
      match choice
      case None =>
        exits := file.None?;
      case Some(d) =>
        exits := false;
        file := choice;
        paths := GetFilesInDirectory(walk);
        if paths.None? {
          file := None;
        } else {
          FileArraySorterDistinct(walk.files, walk.size);
        }
    }

    /**
     The row loop of paneCreator. From a non-negative start it renders one
     file row per index of the visible range and never the "File is Empty"
     label. From a negative start (possible only on an empty list, since a
     negative index into a non-empty list throws) it renders that label once.
     An unset directory stops it before the first row.
     */
    method Render() returns (rows: seq<Row>)
      requires paths.Some? && (start >= 0 || |paths.value| == 0)
      ensures file.None? ==> rows == []
      ensures start >= 0 && file.Some? ==> |rows| == VisibleRange().Length()
      ensures |rows| <= Paging.PageSize
      ensures start >= 0 ==> forall k :: 0 <= k < |rows| ==> rows[k] == FileRow(start + k) && start + k < |paths.value|
      ensures start >= 0 ==> EmptyLabel !in rows
      ensures start < 0 && file.Some? ==> rows == [EmptyLabel]
    {
      var ps := paths.value;
      rows := [];
      var i := start;
      while i < start + Paging.PageSize && i < |ps|
        invariant start <= i <= start + Paging.PageSize
        invariant i == start || i <= |ps|
        invariant |rows| == i - start
        invariant start >= 0 ==> forall k :: 0 <= k < |rows| ==> rows[k] == FileRow(start + k) && start + k < |ps|
        invariant file.None? ==> rows == []
        invariant start < 0 && file.Some? ==> i == start && rows == []
        decreases start + Paging.PageSize - i
      {
        if file.None? {
          break;
        } else if |ps| == 0 {
          rows := rows + [EmptyLabel];
          break;
        }
        rows := rows + [FileRow(i)];
        i := i + 1;
      }
    }
  }
}

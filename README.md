# SpaceClearer, modelled in Dafny

SpaceClearer is a JavaFX utility. It lists the regular files under a chosen
directory, largest first, five to a page. The user pages through the list and
recycles or permanently deletes files one at a time. This project models the
non-graphical logic of `SpaceClearer.java` and proves properties of it:

- the window's three fields: the page start `start`, the chosen directory
  `file` and the in-memory list `paths`;
- the row loop that decides which list entries the pane shows;
- the guards and updates of the Next Page and Previous Page buttons;
- list removal after a recycle or permanent delete;
- the three outcomes of the directory dialog;
- `FileLister.fileArraySorter`: a stable ascending sort by size, then a reverse;
- the success/failure decision of `FileActions.recycleFile` and `permanentlyDelete`.

Modules:

- `Wrappers`: `Option`, standing for a Java reference that may be null.
- `Lists`: the `java.util` list operations the program uses.
  `Reverse` is `Collections.reverse`. `RemoveFirst` is `List.remove(Object)`.
  `Having` is the sub-list of entries with a given size; it is used to state stability.
- `FileLister`: `SortAscending` is a reference definition of the stable
  `List.sort`. `FileArraySorter` and `GetFilesInDirectory` are built on it.
- `FileActions`: the two file operations. The platform's answer is an input:
  it returned true, returned false, or threw.
- `Paging`: the page arithmetic, with page size 5. It gives the visible row
  range, when Next and Previous are offered, and the two cursor moves.
- `SpaceClearer`: `SessionState` holds the three fields as a value.
  `AfterNext`, `AfterPrev`, `AfterRemove` and `AfterSelect` say what each
  handler does to it. `Step` and `Run` apply a sequence of button presses.
  The class `Session` has the fields `start`, `file` and `paths`. Its methods
  `Next`, `Prev`, `Remove` and `SelectOutcome` are proved to follow those
  functions and to keep `Valid()`. `Render` emits exactly the rows of the
  visible range (`VisibleRange`).

Inputs from outside the program are parameters:

- the directory dialog's answer: `Option<Dir>`, with `None` for cancel;
- the directory walk: `Walk`, either the regular files found plus a size
  snapshot `Path -> nat`, or a failure;
- the platform file call: `PlatformCall`.

`paths` is an `Option<seq<Path>>`, not a plain sequence. The Java field
becomes `null` after a failed scan, and the invariant
`file.None? <==> paths.None?` depends on that.

## Where the code departs from its intended behaviour

The model follows the code. In these places the code does something other
than what its purpose suggests (one pass of paging, removal and rescanning
over a largest-first list); each place is stated by a lemma:

- `start` is not reset to 0 when a new directory is scanned
  (`SpaceClearer.java:60`), although the new list should open on its first
  page. `RescanKeepsStaleStart` shows that the first page of the new
  directory can be empty, with only Previous offered.
- A list entry is removed even when the recycle or delete failed. The
  failure only shows an alert (`:228-231`, `:239-242`), and `paths.remove`
  runs anyway (`:119`, `:131`), although a file that is still on disk should
  stay in the list. `FailedRemovalStillRemoves` proves the failed and
  successful removals leave the same state.
- `start` is not pulled back after a removal empties the last page, although
  the pane should then show the new last page. `RemovalCanEmptyThePage`
  gives an example.
- A failed scan sets both `paths` and `file` to null (`:60-66`) instead of
  keeping the previous selection and list. See `SelectOutcomes`.
- Previous does `start -= 5` with no clamp (`:164`). It is safe only because
  the button is shown just when `start >= 5` (`:181`). `Session.Prev`
  therefore requires `HasPrev()`. A negative start with a non-empty list makes
  `paths.get` throw. With an empty list and the directory set, the loop runs
  once and shows the "File is Empty" label (`:84-89`): `Session.Render`
  states this, and `NegativeStartVisitsEmptyList` shows the loop guard that
  lets it through. From a non-negative start that label is never shown.
- Files of equal size come out in the reverse of their walk order, because
  the stable sort is followed by a reverse (`FileArraySorterTies`). Only the
  largest-first order by size is promised, so this is allowed.
- "Next is hidden exactly when the visible range ends at the list's end"
  holds only while `start <= |paths|` (`HasNextIffRowsBeyondPage`). Past the
  end it fails (`NextHiddenPastTheEnd`).

## Model

| member | source | states |
|---|---|---|
| Lists.Reverse | src/main/java/com/dow/spaceclearer/SpaceClearer.java:216 | `Collections.reverse`: same length; the entry at position k is the input's entry at position n-1-k |
| Lists.ReverseMultiset | src/main/java/com/dow/spaceclearer/SpaceClearer.java:216 | reversing keeps exactly the same entries (a permutation) |
| Lists.HavingReverse | src/main/java/com/dow/spaceclearer/SpaceClearer.java:216 | reversing reverses the relative order of the entries of each size |
| Lists.RemoveFirst | src/main/java/com/dow/spaceclearer/SpaceClearer.java:119 | `List.remove(Object)`: an absent path leaves the list unchanged; a present one makes it one shorter |
| Lists.RemoveFirstMultiset | src/main/java/com/dow/spaceclearer/SpaceClearer.java:131 | removal takes out one occurrence of the path and keeps every other entry |
| Lists.RemoveFirstSplices | src/main/java/com/dow/spaceclearer/SpaceClearer.java:119 | removal cuts out exactly the entry at the first occurrence; the other entries keep their order |
| Lists.RemoveFirstDistinct | src/main/java/com/dow/spaceclearer/SpaceClearer.java:131 | on a duplicate-free list, removal cuts out position k, leaves the list duplicate-free, and the path no longer occurs |
| FileLister.SortAscending | src/main/java/com/dow/spaceclearer/SpaceClearer.java:206-213 | `List.sort` by `Files.size`: a permutation of the input, ascending by size |
| FileLister.SortAscendingStable | src/main/java/com/dow/spaceclearer/SpaceClearer.java:206-213 | the sort is stable: the entries of each size keep their input order |
| FileLister.FileArraySorter | src/main/java/com/dow/spaceclearer/SpaceClearer.java:204-218 | `fileArraySorter` returns a permutation of its input with non-increasing sizes |
| FileLister.FileArraySorterTies | src/main/java/com/dow/spaceclearer/SpaceClearer.java:206-217 | files of equal size come out in the reverse of their input order |
| FileLister.FileArraySorterDistinct | src/main/java/com/dow/spaceclearer/SpaceClearer.java:195-196 | a duplicate-free walk gives a duplicate-free display list |
| FileLister.GetFilesInDirectory | src/main/java/com/dow/spaceclearer/SpaceClearer.java:192-202 | null exactly when the walk threw; otherwise the walk's files, permuted largest-first |
| FileActions.Attempt | src/main/java/com/dow/spaceclearer/SpaceClearer.java:224-242 | the shared try block: success exactly when the call returned true; otherwise the given alert text |
| FileActions.RecycleFile | src/main/java/com/dow/spaceclearer/SpaceClearer.java:223-232 | success exactly when `moveToTrash` returned true; a false return or an exception shows the recycle alert and is not propagated |
| FileActions.PermanentlyDelete | src/main/java/com/dow/spaceclearer/SpaceClearer.java:234-243 | success exactly when `delete` returned true; a false return or an exception shows the delete alert and is not propagated |
| Paging.VisibleRange | src/main/java/com/dow/spaceclearer/SpaceClearer.java:79 | index i is in the range exactly when the row loop visits it; the range starts at `start`, holds at most 5 rows, and a non-empty range ends within the list |
| Paging.HasNextIffRowsBeyondPage | src/main/java/com/dow/spaceclearer/SpaceClearer.java:178-180 | with `start` within the list, Next is offered exactly when entries lie beyond the rendered rows |
| Paging.NextHiddenPastTheEnd | src/main/java/com/dow/spaceclearer/SpaceClearer.java:178-180 | past the end of the list Next is hidden, yet the rendered range does not end at the list's end |
| Paging.HasNext | src/main/java/com/dow/spaceclearer/SpaceClearer.java:178 | Next is offered exactly when the page after this one would render at least one row |
| Paging.HasPrev | src/main/java/com/dow/spaceclearer/SpaceClearer.java:181 | Previous is offered exactly when going back a page keeps `start` non-negative |
| Paging.Advance | src/main/java/com/dow/spaceclearer/SpaceClearer.java:158 | the Next handler moves `start` forward, and keeps an aligned `start` aligned |
| Paging.Retreat | src/main/java/com/dow/spaceclearer/SpaceClearer.java:164 | the Previous handler moves `start` back; aligned when the old `start` was at least 5, negative when it was on the first page |
| Paging.HasPrevIffNotFirstPage | src/main/java/com/dow/spaceclearer/SpaceClearer.java:181-183 | on an aligned `start`, Previous is offered exactly when the page is not the first |
| Paging.MovesKeepAligned | src/main/java/com/dow/spaceclearer/SpaceClearer.java:156-183 | an offered Next or Previous keeps `start` a non-negative multiple of 5 |
| Paging.EmptyListRendersNoRows | src/main/java/com/dow/spaceclearer/SpaceClearer.java:79-89 | with an empty list and a non-negative start, no row is rendered and Next is hidden |
| Paging.NegativeStartVisitsEmptyList | src/main/java/com/dow/spaceclearer/SpaceClearer.java:79-89 | for every negative `start`, the row loop guard admits index `start` of an empty list, so the loop body runs |
| Paging.TwelveFiles | src/main/java/com/dow/spaceclearer/SpaceClearer.java:156-183 | twelve files: pages of 5, 5 and 2 rows; after two Next presses `start` is 10, and Next is hidden while Previous is shown |
| SpaceClearer.AfterNext | src/main/java/com/dow/spaceclearer/SpaceClearer.java:158 | Next changes only `start`; from an offered Next on a valid state, the state stays valid and the new page has rows |
| SpaceClearer.AfterPrev | src/main/java/com/dow/spaceclearer/SpaceClearer.java:164 | Previous changes only `start`, moving it back; an offered Previous keeps the invariant |
| SpaceClearer.AfterRemove | src/main/java/com/dow/spaceclearer/SpaceClearer.java:119-131 | removal changes only `paths`; an absent path leaves the state as it is; on a valid state the invariant holds afterwards and the path is gone |
| SpaceClearer.AfterSelect | src/main/java/com/dow/spaceclearer/SpaceClearer.java:50-69 | keeps `start`; a cancel changes nothing; after a choice, `paths` is null exactly when the walk failed, and `file` is the choice exactly when it did not; the invariant is kept for a duplicate-free walk |
| SpaceClearer.Exits | src/main/java/com/dow/spaceclearer/SpaceClearer.java:67-68 | the process exits only on a cancel, which leaves the state unchanged whatever the walk; on a valid state that is only while there is no list |
| SpaceClearer.Offered | src/main/java/com/dow/spaceclearer/SpaceClearer.java:178-185 | the page and file buttons exist only on a rendered list; a file button's path is in the list; Next is offered only on a full page; Change File is offered on every scene |
| SpaceClearer.StepKeepsInvariant | src/main/java/com/dow/spaceclearer/SpaceClearer.java:113-183 | every offered button press keeps `start` aligned, keeps "list present iff directory set", and keeps the list duplicate-free |
| SpaceClearer.RunKeepsInvariant | src/main/java/com/dow/spaceclearer/SpaceClearer.java:113-183 | any sequence of offered button presses keeps the invariant |
| SpaceClearer.LaunchKeepsStartAligned | src/main/java/com/dow/spaceclearer/SpaceClearer.java:28-30 | `start` begins at 0 and stays a non-negative multiple of 5; while there is a list, `file` is set, so the `file == null` break in the row loop never fires |
| SpaceClearer.RemoveIsExact | src/main/java/com/dow/spaceclearer/SpaceClearer.java:117-121 | removing an on-screen path cuts out exactly its entry: one shorter, others in order, path gone, `start` and `file` unchanged |
| SpaceClearer.RemoveKeepsLargestFirst | src/main/java/com/dow/spaceclearer/SpaceClearer.java:129-133 | removal keeps the list largest-first |
| SpaceClearer.SelectOutcomes | src/main/java/com/dow/spaceclearer/SpaceClearer.java:50-69 | cancel with a directory kept changes nothing; a successful scan commits the directory, installs the sorted walk, and keeps `start`; a failed scan nulls `file` and `paths` |
| SpaceClearer.RescanKeepsStaleStart | src/main/java/com/dow/spaceclearer/SpaceClearer.java:60 | after a rescan, a `start` at or past the new list's end renders an empty page with only Previous offered |
| SpaceClearer.FailedRemovalStillRemoves | src/main/java/com/dow/spaceclearer/SpaceClearer.java:117-121 | a failed recycle or delete shows an alert, yet leaves the same state as a successful one: the path is gone from the list |
| SpaceClearer.RemovalCanEmptyThePage | src/main/java/com/dow/spaceclearer/SpaceClearer.java:129-133 | removing the only row of the last page leaves `start` on a page with no rows and Previous shown |
| SpaceClearer.Session.constructor | src/main/java/com/dow/spaceclearer/SpaceClearer.java:28-30 | `start` is 0 and `file` and `paths` are null |
| SpaceClearer.Session.HasNext | src/main/java/com/dow/spaceclearer/SpaceClearer.java:178 | the Next test on the fields: it is `Paging.HasNext`, and it holds only on a full page |
| SpaceClearer.Session.HasPrev | src/main/java/com/dow/spaceclearer/SpaceClearer.java:181 | the Previous test on the fields: it is `Paging.HasPrev`, and on an aligned `start` it holds exactly off the first page |
| SpaceClearer.Session.VisibleRange | src/main/java/com/dow/spaceclearer/SpaceClearer.java:79 | the rows the fields render: from `start`, at most 5, and inside the list when `start` is non-negative |
| SpaceClearer.Session.Next | src/main/java/com/dow/spaceclearer/SpaceClearer.java:157-160 | when Next is offered, adds 5 to `start` and changes nothing else, keeping the invariant |
| SpaceClearer.Session.Prev | src/main/java/com/dow/spaceclearer/SpaceClearer.java:163-166 | when Previous is offered, subtracts 5 from `start` and changes nothing else, keeping the invariant |
| SpaceClearer.Session.Remove | src/main/java/com/dow/spaceclearer/SpaceClearer.java:113-134 | reports the file action's outcome and removes the path from `paths` whatever the outcome |
| SpaceClearer.Session.SelectOutcome | src/main/java/com/dow/spaceclearer/SpaceClearer.java:46-70 | performs the dialog outcome of `AfterSelect`, keeping the invariant; reports an exit exactly when the dialog was cancelled with no directory kept |
| SpaceClearer.Session.Render | src/main/java/com/dow/spaceclearer/SpaceClearer.java:79-98 | from a non-negative `start`, one file row for each index of the visible range, in order, each in the list, and never the "File is Empty" label; at most 5 rows; nothing when `file` is null; from a negative `start` over an empty list, exactly that label |

## Left out

- JavaFX presentation is not modelled. That covers the panes, labels, buttons,
  fonts, the "Loading..." stage, the confirmation and error alerts, and scene
  switching. `Session.Remove` models the YES answer of the confirmation; the
  NO answer does nothing.
- Files.walk, Files::isRegularFile and Files.size are file-system I/O. They
  are the `Walk` input: the files found, in walk order, and a size snapshot.
  Symbolic links follow whatever `Files.walk` does by default; that is outside
  the model.
- Desktop.moveToTrash and File.delete are foreign calls. Their outcome is the
  `PlatformCall` input.
- The Open button (`:136-145`) calls Desktop.open, a foreign call. It changes
  no state. An IOException shows an alert (`:140`); any other exception from
  Desktop propagates out of the handler with no alert. It is not modelled.
- The "MB" size label (`:108-109`) is floating-point display only.
- System.exit (`:68`) is a terminal outcome. `Exits` and the `exits` result of
  `Session.SelectOutcome` state when it happens. `Allowed` admits no action
  after an exiting one, so `Run` never steps past it.
- The comparator returns null when Files.size throws (`:209-212`), which would
  fail on unboxing. The model assumes every size is available. For the same
  reason the IOException catch in the row loop (`:94-97`) never fires.
- Session.Render requires `paths` to be non-null, and a non-negative `start`
  unless the list is empty. Otherwise `paths.size()` throws a
  NullPointerException, or `paths.get` with a negative index throws an
  IndexOutOfBoundsException that the loop's catch (`:94`) does not name. Both
  are crashes, not specified behaviour.
- After a render crashes on a null `paths`, the previous scene stays on screen
  and its buttons stay live. For the page and file buttons the model assumes
  the pane was rendered from the current fields, which is what `Offered`
  states, so those presses on a stale scene are not modelled, including a
  Previous that would take `start` below 0. Change File is the exception:
  `Offered` allows it on any state, so a Change File pressed on the stale
  scene after a failed rescan is modelled, and it is the only way a failed
  rescan reaches System.exit (`:67-68`).
- A failed first scan is not the end of a trace. There `start()` (`:39-40`)
  calls `paneCreator` with a null `paths`, which throws and ends the
  application, yet `Allowed` admits further actions after it. So `Run`
  over-approximates the program's traces; the invariant lemmas hold on the
  larger set.
- `FromFileSystem` (wrapping `WalkListsOnce`) is an assumption about the
  environment, not a button condition: each walk lists a regular file once.
  `Allowed` requires it of every Change File.
- FileActions catches `Exception` only. A `java.lang.Error` from the platform
  call would propagate; it is not modelled.
- `List.sort` is the library's merge sort. The model defines it by a stable
  insertion sort. Both are stable ascending sorts by size, so they produce the
  same list.
- Path equality (`Path.equals`, used by `List.remove`) is taken as string
  equality on the path text. On Windows `Path.equals` ignores case, so the
  model assumes no two entries of a walk are equal under `Path.equals`; that
  is what `Distinct` on the walk's files stands for.

/**
 FileLister: turns the result of walking a directory into the display list,
 largest file first. The walk itself (Files.walk filtered to regular files)
 and the size query (Files.size) are file-system I/O; they enter the model as
 a Walk value: the regular files found, in walk order, and a snapshot of
 their sizes.
 */
module FileLister {
  import opened Wrappers
  import opened Lists

  type Path = string

  /** What walking the chosen directory produced: its regular files and their sizes, or an exception. */
  datatype Walk = Walked(files: seq<Path>, size: Path -> nat) | WalkFailed

  /** The walk visits each regular file once, so its list has no duplicates. */
  predicate WalkListsOnce(walk: Walk)
  {
    walk.Walked? ==> Distinct(walk.files)
  }

  predicate Ascending(s: seq<Path>, size: Path -> nat)
  {
    forall i, j :: 0 <= i < j < |s| ==> size(s[i]) <= size(s[j])
  }

  predicate NonIncreasing(s: seq<Path>, size: Path -> nat)
  {
    forall i, j :: 0 <= i < j < |s| ==> size(s[i]) >= size(s[j])
  }

  /** Cutting one entry out of a largest-first list leaves it largest-first. */
  lemma SpliceNonIncreasing(s: seq<Path>, k: nat, size: Path -> nat)
    requires NonIncreasing(s, size) && k < |s|
    ensures NonIncreasing(s[..k] + s[k + 1..], size)
  {
    var r := s[..k] + s[k + 1..];
    SpliceAt(s, k);
    forall i, j | 0 <= i < j < |r| ensures size(r[i]) >= size(r[j]) {
      assert Skip(i, k) < Skip(j, k) < |s|;
      assert r[i] == s[Skip(i, k)] && r[j] == s[Skip(j, k)];
    }
  }

  /** Places x before the first entry of s that is at least as large. */
  function Insert(x: Path, s: seq<Path>, size: Path -> nat): (r: seq<Path>)
    ensures multiset(r) == multiset(s) + multiset{x}
  {
    if s == [] || size(x) <= size(s[0]) then
      [x] + s
    else
      assert s == [s[0]] + s[1..];
      [s[0]] + Insert(x, s[1..], size)
  }

  /** Every entry of the sequence is at least m in size. */
  predicate AtLeast(s: seq<Path>, size: Path -> nat, m: nat)
  {
    forall i :: 0 <= i < |s| ==> m <= size(s[i])
  }

  lemma {:induction false} InsertAtLeast(x: Path, s: seq<Path>, size: Path -> nat, m: nat)
    requires AtLeast(s, size, m) && m <= size(x)
    ensures AtLeast(Insert(x, s, size), size, m)
  {
    if !(s == [] || size(x) <= size(s[0])) {
      InsertAtLeast(x, s[1..], size, m);
    }
  }

  lemma {:induction false} InsertAscending(x: Path, s: seq<Path>, size: Path -> nat)
    requires Ascending(s, size)
    ensures Ascending(Insert(x, s, size), size)
  {
    if !(s == [] || size(x) <= size(s[0])) {
      var t := Insert(x, s[1..], size);
      assert Ascending(t, size) by {
        InsertAscending(x, s[1..], size);
      }
      assert AtLeast(t, size, size(s[0])) by {
        InsertAtLeast(x, s[1..], size, size(s[0]));
      }
      var r := [s[0]] + t;
      assert Insert(x, s, size) == r;
      forall i, j | 0 <= i < j < |r| ensures size(r[i]) <= size(r[j]) {
        assert r[j] == t[j - 1];
        if i > 0 {
          assert r[i] == t[i - 1];
        }
      }
    }
  }

  /**
   List.sort with Comparator.comparing(size): ascending by size and, as the
   Java library promises, stable. This insertion sort is the reference
   definition of that library call.
   */
  function SortAscending(s: seq<Path>, size: Path -> nat): (r: seq<Path>)
    ensures multiset(r) == multiset(s)
    ensures Ascending(r, size)
  {
    if s == [] then []
    else
      assert s == [s[0]] + s[1..];
      InsertAscending(s[0], SortAscending(s[1..], size), size);
      Insert(s[0], SortAscending(s[1..], size), size)
  }

  /**
   Insertion moves x past an entry smaller than x: the two never share a
   size, so each size class still reads as x's (if any) followed by s's.
   */
  lemma InsertHavingPast(x: Path, s: seq<Path>, size: Path -> nat, k: nat)
    requires s != [] && size(s[0]) < size(x)
    requires Having(Insert(x, s[1..], size), size, k) == Having([x], size, k) + Having(s[1..], size, k)
    ensures Having(Insert(x, s, size), size, k) == Having([x], size, k) + Having(s, size, k)
  {
    var t := Insert(x, s[1..], size);
    var hx, h0, h1 := Having([x], size, k), Having([s[0]], size, k), Having(s[1..], size, k);
    calc {
      Having(Insert(x, s, size), size, k);
    == { assert Insert(x, s, size) == [s[0]] + t; }
      Having([s[0]] + t, size, k);
    == { HavingAppend([s[0]], t, size, k); }
      h0 + Having(t, size, k);
    ==
      h0 + (hx + h1);
    == { HavingSingleton(x, size, k); HavingSingleton(s[0], size, k); ConcatSwap(hx, h0, h1); }
      hx + (h0 + h1);
    == { HavingAppend([s[0]], s[1..], size, k); assert [s[0]] + s[1..] == s; }
      hx + Having(s, size, k);
    }
  }

  /** Insertion puts x ahead of every entry of its own size: it passes only smaller entries. */
  lemma {:induction false} InsertHaving(x: Path, s: seq<Path>, size: Path -> nat, k: nat)
    ensures Having(Insert(x, s, size), size, k) == Having([x], size, k) + Having(s, size, k)
  {
    if s == [] || size(x) <= size(s[0]) {
      HavingAppend([x], s, size, k);
    } else {
      InsertHaving(x, s[1..], size, k);
      InsertHavingPast(x, s, size, k);
    }
  }

  /** One insertion step of the sort keeps every size class in input order. */
  lemma InsertKeepsOrder(x: Path, s: seq<Path>, t: seq<Path>, size: Path -> nat, k: nat)
    requires Having(t, size, k) == Having(s, size, k)
    ensures Having(Insert(x, t, size), size, k) == Having([x] + s, size, k)
  {
    InsertHaving(x, t, size, k);
    HavingAppend([x], s, size, k);
  }

  /** Stability: the entries of any one size keep their input order. */
  lemma {:induction false} SortAscendingStable(s: seq<Path>, size: Path -> nat, k: nat)
    ensures Having(SortAscending(s, size), size, k) == Having(s, size, k)
  {
    if s != [] {
      SortAscendingStable(s[1..], size, k);
      InsertKeepsOrder(s[0], s[1..], SortAscending(s[1..], size), size, k);
      assert [s[0]] + s[1..] == s;
    }
  }

  lemma {:induction false} InsertDistinct(x: Path, s: seq<Path>, size: Path -> nat)
    requires Distinct(s) && x !in s
    ensures Distinct(Insert(x, s, size))
  {
    if !(s == [] || size(x) <= size(s[0])) {
      assert s == [s[0]] + s[1..];
      InsertDistinct(x, s[1..], size);
      var rest := Insert(x, s[1..], size);
      assert s[0] !in rest by {
        assert s[0] != x && s[0] !in s[1..];
        assert s[0] !in multiset(s[1..]) + multiset{x};
      }
    }
  }

  lemma {:induction false} SortAscendingDistinct(s: seq<Path>, size: Path -> nat)
    requires Distinct(s)
    ensures Distinct(SortAscending(s, size))
  {
    if s != [] {
      assert s == [s[0]] + s[1..];
      SortAscendingDistinct(s[1..], size);
      assert s[0] !in multiset(SortAscending(s[1..], size));
      InsertDistinct(s[0], SortAscending(s[1..], size), size);
    }
  }

  /**
   fileArraySorter: sorts the list ascending by size, then reverses it in
   place. The result is a permutation of the walk, largest file first.
   */
  function FileArraySorter(paths: seq<Path>, size: Path -> nat): (r: seq<Path>)
    ensures multiset(r) == multiset(paths)
    ensures NonIncreasing(r, size)
  {
    var sorted := SortAscending(paths, size);
    ReverseMultiset(sorted);
    ReverseOfAscending(sorted, size);
    Reverse(sorted)
  }

  lemma ReverseOfAscending(s: seq<Path>, size: Path -> nat)
    requires Ascending(s, size)
    ensures NonIncreasing(Reverse(s), size)
  {
    var r := Reverse(s);
    forall i, j | 0 <= i < j < |r| ensures size(r[i]) >= size(r[j]) {
      assert r[i] == s[|s| - 1 - i] && r[j] == s[|s| - 1 - j];
    }
  }

  /** Files of equal size appear in the reverse of their walk order. */
  lemma FileArraySorterTies(paths: seq<Path>, size: Path -> nat, k: nat)
    ensures Having(FileArraySorter(paths, size), size, k) == Reverse(Having(paths, size, k))
  {
    HavingReverse(SortAscending(paths, size), size, k);
    SortAscendingStable(paths, size, k);
  }

  /** A duplicate-free walk gives a duplicate-free display list. */
  lemma FileArraySorterDistinct(paths: seq<Path>, size: Path -> nat)
    requires Distinct(paths)
    ensures Distinct(FileArraySorter(paths, size))
  {
    SortAscendingDistinct(paths, size);
    ReverseDistinct(SortAscending(paths, size));
  }

  /** getFilesInDirectory: the sorted walk, or null when the walk threw. */
  function GetFilesInDirectory(walk: Walk): (r: Option<seq<Path>>)
    ensures r.None? <==> walk.WalkFailed?
    ensures r.Some? ==> multiset(r.value) == multiset(walk.files) && NonIncreasing(r.value, walk.size)
  {
    match walk
    case WalkFailed => None
    case Walked(files, size) => Some(FileArraySorter(files, size))
  }
}

/**
 The operations of java.util.List and java.util.Collections that the program
 uses on its file list, as functions over sequences, with the facts the rest
 of the model needs about them.
 */
module Lists {

  /** No element occurs twice (a list produced by one directory walk). */
  predicate Distinct<T(==)>(s: seq<T>)
  {
    forall i, j :: 0 <= i < j < |s| ==> s[i] != s[j]
  }

  /** Collections.reverse: the element at position k moves to |s| - 1 - k. */
  function Reverse<T>(s: seq<T>): (r: seq<T>)
    ensures |r| == |s|
    ensures forall k :: 0 <= k < |s| ==> r[k] == s[|s| - 1 - k]
  {
    if s == [] then [] else Reverse(s[1..]) + [s[0]]
  }

  lemma {:induction false} ReverseMultiset<T>(s: seq<T>)
    ensures multiset(Reverse(s)) == multiset(s)
  {
    if s != [] {
      ReverseMultiset(s[1..]);
      assert s == [s[0]] + s[1..];
    }
  }

  lemma ReverseDistinct<T>(s: seq<T>)
    requires Distinct(s)
    ensures Distinct(Reverse(s))
  {
    var r := Reverse(s);
    forall i, j | 0 <= i < j < |r| ensures r[i] != r[j] {
      assert r[i] == s[|s| - 1 - i] && r[j] == s[|s| - 1 - j];
    }
  }

  lemma ReverseAppend<T>(a: seq<T>, b: seq<T>)
    ensures Reverse(a + b) == Reverse(b) + Reverse(a)
  {
    var l, r := Reverse(a + b), Reverse(b) + Reverse(a);
    assert |l| == |r|;
    forall k | 0 <= k < |l| ensures l[k] == r[k] {
      if k < |b| {
        assert r[k] == b[|b| - 1 - k] == (a + b)[|a + b| - 1 - k];
      } else {
        assert r[k] == Reverse(a)[k - |b|] == a[|a| - 1 - (k - |b|)];
      }
    }
  }

  /** The elements of s whose key is k, in the order they have in s. */
  function Having<T>(s: seq<T>, key: T -> nat, k: nat): (r: seq<T>)
  {
    if s == [] then []
    else (if key(s[0]) == k then [s[0]] else []) + Having(s[1..], key, k)
  }

  /** Two sequences of which one is empty may be written in either order. */
  lemma ConcatSwap<T>(a: seq<T>, b: seq<T>, c: seq<T>)
    requires a == [] || b == []
    ensures b + (a + c) == a + (b + c)
  {
    if a == [] {
      assert a + c == c && a + (b + c) == b + c;
    } else {
      assert b + (a + c) == a + c && b + c == c;
    }
  }

  lemma HavingSingleton<T>(x: T, key: T -> nat, k: nat)
    ensures Having([x], key, k) == if key(x) == k then [x] else []
  {
    assert [x][1..] == [];
  }

  lemma {:induction false} HavingAppend<T>(a: seq<T>, b: seq<T>, key: T -> nat, k: nat)
    ensures Having(a + b, key, k) == Having(a, key, k) + Having(b, key, k)
  {
    if a == [] {
      assert a + b == b;
    } else {
      var head := if key(a[0]) == k then [a[0]] else [];
      assert (a + b) != [] && (a + b)[0] == a[0];
      assert (a + b)[1..] == a[1..] + b;
      HavingAppend(a[1..], b, key, k);
      calc {
        Having(a + b, key, k);
        head + Having((a + b)[1..], key, k);
        head + Having(a[1..] + b, key, k);
        head + (Having(a[1..], key, k) + Having(b, key, k));
        (head + Having(a[1..], key, k)) + Having(b, key, k);
        Having(a, key, k) + Having(b, key, k);
      }
    }
  }

  /** Reversing a list reverses the order among the entries of each key. */
  lemma {:induction false} HavingReverse<T>(s: seq<T>, key: T -> nat, k: nat)
    ensures Having(Reverse(s), key, k) == Reverse(Having(s, key, k))
  {
    if s != [] {
      var head := if key(s[0]) == k then [s[0]] else [];
      HavingReverse(s[1..], key, k);
      HavingAppend(Reverse(s[1..]), [s[0]], key, k);
      assert Having([s[0]], key, k) == head;
      ReverseAppend(head, Having(s[1..], key, k));
      assert Reverse(head) == head;
    }
  }

  /** List.remove(Object): drops the first element equal to x; no change when x is absent. */
  function RemoveFirst<T(==)>(s: seq<T>, x: T): (r: seq<T>)
    ensures x !in s ==> r == s
    ensures x in s ==> |r| == |s| - 1
  {
    if s == [] then []
    else if s[0] == x then
      assert s == [s[0]] + s[1..];
      s[1..]
    else
      assert s == [s[0]] + s[1..];
      [s[0]] + RemoveFirst(s[1..], x)
  }

  /** Removal takes out one occurrence of x and keeps every other entry. */
  lemma {:induction false} RemoveFirstMultiset<T>(s: seq<T>, x: T)
    ensures multiset(RemoveFirst(s, x)) == multiset(s) - multiset{x}
  {
    if s != [] {
      assert s == [s[0]] + s[1..];
      if s[0] != x {
        RemoveFirstMultiset(s[1..], x);
      }
    }
  }

  /** Removing x takes out exactly the entry at its first position k; the others keep their order. */
  lemma {:induction false} RemoveFirstSplices<T>(s: seq<T>, x: T, k: nat)
    requires k < |s| && s[k] == x && x !in s[..k]
    ensures RemoveFirst(s, x) == s[..k] + s[k + 1..]
  {
    if k == 0 {
      assert s[0] == x;
    } else {
      var t := s[1..];
      assert s[0] != x by { assert s[0] in s[..k]; }
      assert t[..k - 1] == s[1..k];
      assert x !in t[..k - 1] by {
        forall y | y in t[..k - 1] ensures y in s[..k] {
          assert s[..k] == [s[0]] + t[..k - 1];
        }
      }
      RemoveFirstSplices(t, x, k - 1);
      calc {
        RemoveFirst(s, x);
        [s[0]] + RemoveFirst(t, x);
        [s[0]] + (t[..k - 1] + t[k..]);
        { assert s[..k] == [s[0]] + t[..k - 1]; assert s[k + 1..] == t[k..]; }
        s[..k] + s[k + 1..];
      }
    }
  }

  /** On a duplicate-free list, removing a present x drops exactly the entry at x's position. */
  lemma RemoveFirstDistinct<T>(s: seq<T>, x: T, k: nat)
    requires Distinct(s) && k < |s| && s[k] == x
    ensures RemoveFirst(s, x) == s[..k] + s[k + 1..]
    ensures forall i :: 0 <= i < |s| - 1 ==> RemoveFirst(s, x)[i] == s[Skip(i, k)]
    ensures Distinct(RemoveFirst(s, x))
    ensures x !in RemoveFirst(s, x)
  {
    assert x !in s[..k] by {
      forall i | 0 <= i < k ensures s[..k][i] != x { assert s[i] != s[k]; }
    }
    RemoveFirstSplices(s, x, k);
    var r := s[..k] + s[k + 1..];
    SpliceAt(s, k);
    forall i, j | 0 <= i < j < |r| ensures r[i] != r[j] {
      assert Skip(i, k) < Skip(j, k) < |s|;
      assert r[i] == s[Skip(i, k)] && r[j] == s[Skip(j, k)];
    }
    forall i | 0 <= i < |r| ensures r[i] != x {
      assert r[i] == s[Skip(i, k)] && Skip(i, k) != k;
    }
  }

  /** Entry i of s with position k cut out is entry Skip(i, k) of s. */
  lemma SpliceAt<T>(s: seq<T>, k: nat)
    requires k < |s|
    ensures |s[..k] + s[k + 1..]| == |s| - 1
    ensures forall i :: 0 <= i < |s| - 1 ==> (s[..k] + s[k + 1..])[i] == s[Skip(i, k)]
  {
    var r := s[..k] + s[k + 1..];
    forall i | 0 <= i < |r| ensures r[i] == s[Skip(i, k)] {
      if i < k { assert r[i] == s[..k][i]; } else { assert r[i] == s[k + 1..][i - k]; }
    }
  }

  /** The position in s of entry i of s with position k taken out. */
  function Skip(i: nat, k: nat): (j: nat)
  {
    if i < k then i else i + 1
  }

  /** On a duplicate-free list, removal leaves a duplicate-free list in which x does not occur. */
  lemma RemoveFirstKeepsDistinct<T>(s: seq<T>, x: T)
    requires Distinct(s)
    ensures Distinct(RemoveFirst(s, x))
    ensures x !in RemoveFirst(s, x)
  {
    if x in s {
      var k :| 0 <= k < |s| && s[k] == x;
      RemoveFirstDistinct(s, x, k);
    }
  }
}

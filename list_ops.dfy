/**
 * The .NET list operations the window-list code relies on: `Remove` deletes the first
 * occurrence only, and `Contains` is plain membership.
 */
module ListOps {

  lemma ConcatAssoc<T>(a: seq<T>, b: seq<T>, c: seq<T>)
    ensures (a + b) + c == a + (b + c)
  {
  }

  /** The position of the first occurrence of `x` in `s`. */
  function FirstIndex<T(==)>(s: seq<T>, x: T): (i: nat)
    requires x in s
    ensures i < |s| && s[i] == x
    ensures forall j :: 0 <= j < i ==> s[j] != x
  {
    if s[0] == x then 0 else 1 + FirstIndex(s[1..], x)
  }

  /** `List<T>.Remove`: deletes the first element equal to `x`, if any. */
  function RemoveFirst<T(==)>(s: seq<T>, x: T): (r: seq<T>)
    ensures x !in s ==> r == s
    ensures |r| == if x in s then |s| - 1 else |s|
  {
    if s == [] then []
    else if s[0] == x then s[1..]
    else [s[0]] + RemoveFirst(s[1..], x)
  }

  /** `Remove` takes away exactly one copy of `x` when there is one. */
  lemma {:induction false} RemoveFirstMultiset<T>(s: seq<T>, x: T)
    requires x in s
    ensures multiset(RemoveFirst(s, x)) == multiset(s) - multiset{x}
  {
    assert s == [s[0]] + s[1..];
    if s[0] != x {
      RemoveFirstMultiset(s[1..], x);
    }
  }

  /**
   * Behind a prefix without `x`, `Remove` deletes the `x` right after that prefix: the first
   * occurrence goes, everything before and after it stays in order.
   */
  lemma {:induction false} RemoveAfterPrefix<T>(a: seq<T>, x: T, b: seq<T>)
    requires x !in a
    ensures RemoveFirst(a + [x] + b, x) == a + b
    decreases |a|
  {
    var s := a + [x] + b;
    if a == [] {
      assert s == [x] + b;
    } else {
      assert s[0] == a[0];
      assert s[1..] == a[1..] + [x] + b;
      RemoveAfterPrefix(a[1..], x, b);
      ConcatAssoc([a[0]], a[1..], b);
      assert a == [a[0]] + a[1..];
    }
  }

  /** The elements of `s` that occur in `keep`, in their order in `s`. */
  function KeepIn<T(==)>(s: seq<T>, keep: seq<T>): (r: seq<T>)
    ensures forall i :: 0 <= i < |r| ==> r[i] in s && r[i] in keep
    ensures forall i :: 0 <= i < |s| && s[i] in keep ==> s[i] in r
    ensures |r| <= |s|
  {
    if s == [] then []
    else if s[|s| - 1] in keep then KeepIn(s[..|s| - 1], keep) + [s[|s| - 1]]
    else KeepIn(s[..|s| - 1], keep)
  }

  /** Keeping one more element extends the kept run at its end, or not at all. */
  lemma KeepInSnoc<T>(s: seq<T>, x: T, keep: seq<T>)
    ensures KeepIn(s + [x], keep) == if x in keep then KeepIn(s, keep) + [x] else KeepIn(s, keep)
  {
    assert (s + [x])[..|s + [x]| - 1] == s;
  }

  /** Every copy of a kept element survives, and no copy of any other element does. */
  lemma {:induction false} KeepInMultiset<T>(s: seq<T>, keep: seq<T>)
    ensures forall x :: multiset(KeepIn(s, keep))[x] == if x in keep then multiset(s)[x] else 0
    decreases |s|
  {
    if s != [] {
      var f := s[..|s| - 1];
      var y := s[|s| - 1];
      KeepInMultiset(f, keep);
      assert s == f + [y];
      assert multiset(s) == multiset(f) + multiset{y};
      if y in keep {
        assert multiset(KeepIn(s, keep)) == multiset(KeepIn(f, keep)) + multiset{y};
      }
    }
  }

  /** `t` is obtained from `s` by deleting elements, without reordering. */
  predicate IsSubsequence<T(==)>(t: seq<T>, s: seq<T>)
    decreases |s|
  {
    t == [] ||
    (s != [] &&
     ((t[|t| - 1] == s[|s| - 1] && IsSubsequence(t[..|t| - 1], s[..|s| - 1]))
      || IsSubsequence(t, s[..|s| - 1])))
  }

  /** Appending an element to the whole keeps a subsequence. */
  lemma SubsequenceExtend<T>(t: seq<T>, s: seq<T>, x: T)
    requires IsSubsequence(t, s)
    ensures IsSubsequence(t, s + [x])
  {
    assert (s + [x])[..|s|] == s;
  }

  /** Appending the same element to both keeps a subsequence. */
  lemma SubsequenceSnoc<T>(t: seq<T>, s: seq<T>, x: T)
    requires IsSubsequence(t, s)
    ensures IsSubsequence(t + [x], s + [x])
  {
    assert (t + [x])[..|t|] == t;
    assert (s + [x])[..|s|] == s;
  }

  lemma {:induction false} SubsequenceOfSelf<T>(s: seq<T>)
    ensures IsSubsequence(s, s)
    decreases |s|
  {
    if s != [] {
      SubsequenceOfSelf(s[..|s| - 1]);
    }
  }

  lemma {:induction false} SubsequenceTransitive<T>(a: seq<T>, b: seq<T>, c: seq<T>)
    requires IsSubsequence(a, b) && IsSubsequence(b, c)
    ensures IsSubsequence(a, c)
    decreases |c|
  {
    if a != [] {
      var fc := c[..|c| - 1];
      if IsSubsequence(b, fc) {
        SubsequenceTransitive(a, b, fc);
      } else if a[|a| - 1] == b[|b| - 1] && IsSubsequence(a[..|a| - 1], b[..|b| - 1]) {
        SubsequenceTransitive(a[..|a| - 1], b[..|b| - 1], fc);
      } else {
        SubsequenceTransitive(a, b[..|b| - 1], fc);
      }
    }
  }

  /** Every element of a subsequence occurs in the whole. */
  lemma {:induction false} SubsequenceElements<T>(t: seq<T>, s: seq<T>)
    requires IsSubsequence(t, s)
    ensures forall i :: 0 <= i < |t| ==> t[i] in s
    decreases |s|
  {
    if t != [] {
      var fs := s[..|s| - 1];
      if t[|t| - 1] == s[|s| - 1] && IsSubsequence(t[..|t| - 1], fs) {
        SubsequenceElements(t[..|t| - 1], fs);
        assert forall i :: 0 <= i < |t| - 1 ==> t[i] == t[..|t| - 1][i];
      } else {
        SubsequenceElements(t, fs);
      }
    }
  }

  /** Deleting one element leaves a subsequence. */
  lemma {:induction false} DeleteOneSubsequence<T>(a: seq<T>, x: T, c: seq<T>)
    ensures IsSubsequence(a + c, a + [x] + c)
    decreases |c|
  {
    if c == [] {
      SubsequenceOfSelf(a);
      SubsequenceExtend(a, a, x);
      assert a + c == a && a + [x] + c == a + [x];
    } else {
      var fc := c[..|c| - 1];
      var y := c[|c| - 1];
      DeleteOneSubsequence(a, x, fc);
      SubsequenceSnoc(a + fc, a + [x] + fc, y);
      assert c == fc + [y];
      ConcatAssoc(a, fc, [y]);
      ConcatAssoc(a + [x], fc, [y]);
    }
  }

  /** `Remove` leaves a subsequence of the list. */
  lemma RemoveFirstSubsequence<T>(s: seq<T>, x: T)
    ensures IsSubsequence(RemoveFirst(s, x), s)
  {
    if x in s {
      var i := FirstIndex(s, x);
      var a, b := s[..i], s[i + 1..];
      assert x !in a by {
        assert forall j :: 0 <= j < i ==> a[j] == s[j];
      }
      assert a + [x] + b == s;
      RemoveAfterPrefix(a, x, b);
      DeleteOneSubsequence(a, x, b);
    } else {
      SubsequenceOfSelf(s);
    }
  }

  /** The kept elements are a subsequence of the list. */
  lemma {:induction false} KeepInSubsequence<T>(s: seq<T>, keep: seq<T>)
    ensures IsSubsequence(KeepIn(s, keep), s)
    decreases |s|
  {
    if s != [] {
      var f := s[..|s| - 1];
      KeepInSubsequence(f, keep);
      assert s == f + [s[|s| - 1]];
      if s[|s| - 1] in keep {
        SubsequenceSnoc(KeepIn(f, keep), f, s[|s| - 1]);
      } else {
        SubsequenceExtend(KeepIn(f, keep), f, s[|s| - 1]);
      }
    }
  }

  /** No element occurs twice. */
  predicate NoDuplicates<T(==)>(s: seq<T>)
  {
    forall i, j :: 0 <= i < j < |s| ==> s[i] != s[j]
  }

  /** Appending an element not yet present keeps a list free of duplicates. */
  lemma NoDuplicatesSnoc<T>(s: seq<T>, x: T)
    requires NoDuplicates(s) && x !in s
    ensures NoDuplicates(s + [x])
  {
    var t := s + [x];
    forall i, j | 0 <= i < j < |t|
      ensures t[i] != t[j]
    {
      assert t[i] == s[i];
      if j < |s| {
        assert t[j] == s[j];
      }
    }
  }
}

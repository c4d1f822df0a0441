/** List comprehensions with a condition. */
module Lists {
  import opened Options
  import opened Sorting

  function Filter<T>(s: seq<T>, keep: T -> bool): seq<T> {
    if s == [] then []
    else
      var front := Filter(s[..|s| - 1], keep);
      if keep(s[|s| - 1]) then front + [s[|s| - 1]] else front
  }

  lemma {:induction false} FilterConcat<T>(a: seq<T>, b: seq<T>, keep: T -> bool)
    ensures Filter(a + b, keep) == Filter(a, keep) + Filter(b, keep)
  {
    if b == [] {
      assert a + b == a;
    } else {
      assert (a + b)[..|a + b| - 1] == a + b[..|b| - 1];
      FilterConcat(a, b[..|b| - 1], keep);
    }
  }

  lemma {:induction false} FilterElements<T>(s: seq<T>, keep: T -> bool, x: T)
    ensures x in Filter(s, keep) <==> x in s && keep(x)
  {
    if s != [] {
      FilterElements(s[..|s| - 1], keep, x);
      assert s == s[..|s| - 1] + [s[|s| - 1]];
    }
  }

  lemma {:induction false} FilterAll<T>(s: seq<T>, keep: T -> bool)
    requires forall x <- s :: keep(x)
    ensures Filter(s, keep) == s
  {
    if s != [] {
      FilterAll(s[..|s| - 1], keep);
    }
  }

  lemma {:induction false} FilterNone<T>(s: seq<T>, keep: T -> bool)
    requires forall x <- s :: !keep(x)
    ensures Filter(s, keep) == []
  {
    if s != [] {
      FilterNone(s[..|s| - 1], keep);
    }
  }

  /** Filtering neither adds nor duplicates, and leaves all copies of what it keeps. */
  lemma {:induction false} FilterCount<T>(s: seq<T>, keep: T -> bool, x: T)
    ensures multiset(Filter(s, keep))[x] == if keep(x) then multiset(s)[x] else 0
  {
    if s != [] {
      FilterCount(s[..|s| - 1], keep, x);
      assert s == s[..|s| - 1] + [s[|s| - 1]];
    }
  }

  /** A filter on one property leaves a filter that is independent of it unchanged. */
  lemma {:induction false} FilterKeeps<T>(s: seq<T>, keep: T -> bool, of: T -> bool)
    requires forall x <- s :: of(x) ==> keep(x)
    ensures Filter(Filter(s, keep), of) == Filter(s, of)
  {
    if s != [] {
      var front, x := s[..|s| - 1], s[|s| - 1];
      FilterKeeps(front, keep, of);
      FilterConcat(Filter(front, keep), [x], of);
      assert Filter([x], of) == if of(x) then [x] else [];
    }
  }

  lemma {:induction false} NeverChanges<T>(s: seq<T>, i: nat, j: nat)
    requires i <= j < |s| && forall k | i <= k < j :: s[k] == s[k + 1]
    ensures s[i] == s[j]
    decreases j
  {
    if i < j {
      NeverChanges(s, i, j - 1);
      assert s[j - 1] == s[j - 1 + 1];
    }
  }

  // ---- Comprehensions that also map

  function Each<T, U>(s: seq<T>, f: T -> U): (r: seq<U>)
    ensures |r| == |s| && forall i | 0 <= i < |s| :: r[i] == f(s[i])
  {
    seq(|s|, i requires 0 <= i < |s| => f(s[i]))
  }

  lemma EachConcat<T, U>(a: seq<T>, b: seq<T>, f: T -> U)
    ensures Each(a + b, f) == Each(a, f) + Each(b, f)
  {
  }

  lemma EachOne<T, U>(x: T, f: T -> U)
    ensures Each([x], f) == [f(x)]
  {
  }

  function Gather<T, U>(s: seq<T>, f: T -> Option<U>): seq<U> {
    if s == [] then []
    else Gather(s[..|s| - 1], f) + One(s[|s| - 1], f)
  }

  function One<T, U>(x: T, f: T -> Option<U>): seq<U> {
    if f(x).Some? then [f(x).value] else []
  }

  lemma {:induction false} GatherConcat<T, U>(a: seq<T>, b: seq<T>, f: T -> Option<U>)
    ensures Gather(a + b, f) == Gather(a, f) + Gather(b, f)
  {
    if b == [] {
      assert a + b == a;
    } else {
      assert (a + b)[..|a + b| - 1] == a + b[..|b| - 1];
      GatherConcat(a, b[..|b| - 1], f);
    }
  }

  lemma {:induction false} GatherElements<T, U>(s: seq<T>, f: T -> Option<U>, y: U)
    ensures y in Gather(s, f) <==> exists x :: x in s && f(x) == Some(y)
  {
    if s != [] {
      var front, last := s[..|s| - 1], s[|s| - 1];
      assert s == front + [last];
      GatherElements(front, f, y);
      if y in Gather(front, f) {
        var x :| x in front && f(x) == Some(y);
        assert x in s;
      } else if f(last) == Some(y) {
        assert last in s;
      }
    }
  }

  lemma GatherOne<T, U>(x: T, f: T -> Option<U>)
    ensures Gather([x], f) == One(x, f)
  {
    assert [x][..0] == [];
  }

  lemma GatherWithout<T, U>(a: seq<T>, x: T, b: seq<T>, f: T -> Option<U>)
    ensures multiset(Gather(a + [x] + b, f)) == multiset(Gather(a + b, f)) + multiset(One(x, f))
  {
    GatherConcat(a + [x], b, f);
    GatherConcat(a, [x], f);
    GatherConcat(a, b, f);
    GatherOne(x, f);
  }

  lemma Around<T>(t: seq<T>, x: T) returns (a: seq<T>, b: seq<T>)
    requires x in t
    ensures t == a + [x] + b
  {
    var i :| 0 <= i < |t| && t[i] == x;
    a, b := t[..i], t[i + 1..];
  }

  lemma SameFront<T>(front: seq<T>, x: T, a: seq<T>, b: seq<T>)
    requires multiset(front + [x]) == multiset(a + [x] + b)
    ensures multiset(front) == multiset(a + b)
  {
    assert multiset(front) == multiset(front + [x]) - multiset{x};
  }

  /** Listing the same things in another order gathers the same things. */
  lemma {:induction false} GatherForgetsOrder<T, U>(s: seq<T>, t: seq<T>, f: T -> Option<U>)
    requires multiset(s) == multiset(t)
    ensures multiset(Gather(s, f)) == multiset(Gather(t, f))
    decreases |s|
  {
    SameElements(s, t);
    if s != [] {
      var front, x := s[..|s| - 1], s[|s| - 1];
      assert s == front + [x];
      var a, b := Around(t, x);
      SameFront(front, x, a, b);
      GatherForgetsOrder(front, a + b, f);
      GatherWithout(a, x, b, f);
    }
  }
}

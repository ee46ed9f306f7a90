/** Filtering and mapping of sequences, and what it preserves. */
module Filtering {
  import opened Options

  function FilterMap<T, U>(s: seq<T>, f: T -> Option<U>): seq<U> {
    if s == [] then []
    else FilterMap(s[..|s| - 1], f) + (match f(s[|s| - 1]) case None => [] case Some(y) => [y])
  }

  lemma FilterMapAppend<T, U>(s: seq<T>, x: T, f: T -> Option<U>)
    ensures FilterMap(s + [x], f) == FilterMap(s, f) + (match f(x) case None => [] case Some(y) => [y])
  {
    assert (s + [x])[..|s|] == s;
  }

  lemma {:induction false} FilterMapConcat<T, U>(a: seq<T>, b: seq<T>, f: T -> Option<U>)
    ensures FilterMap(a + b, f) == FilterMap(a, f) + FilterMap(b, f)
  {
    if b == [] {
      assert a + b == a;
    } else {
      assert (a + b)[..|a + b| - 1] == a + b[..|b| - 1];
      FilterMapConcat(a, b[..|b| - 1], f);
    }
  }

  lemma {:induction false} FilterMapMembers<T, U>(s: seq<T>, f: T -> Option<U>, y: U)
    ensures y in FilterMap(s, f) <==> exists i :: 0 <= i < |s| && f(s[i]) == Some(y)
  {
    if s != [] {
      var front := s[..|s| - 1];
      FilterMapMembers(front, f, y);
      if i :| 0 <= i < |s| && f(s[i]) == Some(y) {
        if i < |front| {
          assert f(front[i]) == Some(y);
        }
      }
      if y in FilterMap(front, f) {
        var i :| 0 <= i < |front| && f(front[i]) == Some(y);
        assert f(s[i]) == Some(y);
      }
    }
  }

  /** A filter that keeps every element as it is. */
  lemma {:induction false} FilterMapIdentity<T>(s: seq<T>, f: T -> Option<T>)
    requires forall i | 0 <= i < |s| :: f(s[i]) == Some(s[i])
    ensures FilterMap(s, f) == s
  {
    if s != [] {
      FilterMapIdentity(s[..|s| - 1], f);
    }
  }

  lemma FilterMapSwap<T, U>(a: seq<T>, x: T, b: seq<T>, f: T -> Option<U>)
    ensures multiset(FilterMap(a + [x] + b, f)) == multiset(FilterMap([x] + (a + b), f))
  {
    FilterMapConcat(a + [x], b, f);
    FilterMapConcat(a, [x], f);
    FilterMapConcat([x], a + b, f);
    FilterMapConcat(a, b, f);
  }

  /** Filtering a permutation gives a permutation. */
  lemma {:induction false} FilterMapPermutes<T, U>(s: seq<T>, t: seq<T>, f: T -> Option<U>)
    requires multiset(s) == multiset(t)
    ensures multiset(FilterMap(s, f)) == multiset(FilterMap(t, f))
  {
    hide FilterMap;
    assert |s| == |multiset(s)| == |multiset(t)| == |t|;
    if s == [] {
      assert t == s;
    } else {
      var i := Locate(s, t);
      var rest := t[..i] + t[i + 1..];
      FilterMapPermutes(s[1..], rest, f);
      FilterMapSwap(t[..i], s[0], t[i + 1..], f);
      assert [s[0]] + s[1..] == s;
      FilterMapConcat([s[0]], s[1..], f);
      FilterMapConcat([s[0]], rest, f);
    }
  }

  /** The head of a sequence inside a permutation of it. */
  lemma Locate<T>(s: seq<T>, t: seq<T>) returns (i: nat)
    requires multiset(s) == multiset(t) && s != []
    ensures i < |t| && t[i] == s[0] && t == t[..i] + [s[0]] + t[i + 1..]
    ensures multiset(s[1..]) == multiset(t[..i] + t[i + 1..])
    ensures |t| == |s|
  {
    assert |s| == |multiset(s)| == |multiset(t)| == |t|;
    assert s[0] in multiset(t);
    i :| 0 <= i < |t| && t[i] == s[0];
    RemoveAt(t, i);
    RemoveAt(s, 0);
    assert s[..0] + s[1..] == s[1..];
  }

  lemma RemoveAt<T>(s: seq<T>, k: nat)
    requires k < |s|
    ensures s == s[..k] + [s[k]] + s[k + 1..]
    ensures multiset(s[..k] + s[k + 1..]) == multiset(s) - multiset{s[k]}
  {
    assert s == s[..k] + [s[k]] + s[k + 1..];
  }

  lemma DropEnds<T>(s: seq<T>, t: seq<T>)
    requires multiset(s) == multiset(t) && s != [] && t != [] && s[0] == t[|t| - 1]
    ensures multiset(s[1..]) == multiset(t[..|t| - 1])
  {
    RemoveAt(s, 0);
    RemoveAt(t, |t| - 1);
    assert s[..0] + s[1..] == s[1..];
    assert t[..|t| - 1] + t[|t|..] == t[..|t| - 1];
  }

  function Reversed<T>(s: seq<T>): (r: seq<T>)
    ensures |r| == |s|
  {
    if s == [] then [] else [s[|s| - 1]] + Reversed(s[..|s| - 1])
  }

  lemma ReversedAppend<T>(s: seq<T>, x: T)
    ensures Reversed(s + [x]) == [x] + Reversed(s)
  {
    assert (s + [x])[..|s|] == s;
  }

  lemma FilterMapOne<T, U>(x: T, f: T -> Option<U>)
    ensures FilterMap([x], f) == match f(x) case None => [] case Some(y) => [y]
  {
    assert [x][..0] == [];
  }

  lemma {:induction false} ReversedAt<T>(s: seq<T>, i: nat)
    requires i < |s|
    ensures Reversed(s)[i] == s[|s| - 1 - i]
  {
    if i > 0 {
      ReversedAt(s[..|s| - 1], i - 1);
    }
  }

  lemma {:induction false} ReversedTwice<T>(s: seq<T>)
    ensures Reversed(Reversed(s)) == s
  {
    forall i | 0 <= i < |s|
      ensures Reversed(Reversed(s))[i] == s[i]
    {
      ReversedAt(Reversed(s), i);
      ReversedAt(s, |s| - 1 - i);
    }
  }

  /** If only x becomes y, then y comes out as often as x goes in. */
  lemma {:induction false} FilterMapCount<T, U>(s: seq<T>, f: T -> Option<U>, x: T, y: U)
    requires forall z | z in s :: f(z) == Some(y) <==> z == x
    ensures multiset(FilterMap(s, f))[y] == multiset(s)[x]
  {
    if s == [] {
      assert FilterMap(s, f) == [];
    } else {
      var front, last := s[..|s| - 1], s[|s| - 1];
      FilterMapCount(front, f, x, y);
      CountOneMore(front, last, x);
      assert s == front + [last];
      FilterMapAppend(front, last, f);
      assert last in s;
      hide FilterMap;
      if f(last).Some? {
        CountOneMore(FilterMap(front, f), f(last).value, y);
      }
    }
  }

  lemma CountOneMore<T>(s: seq<T>, last: T, x: T)
    ensures multiset(s + [last])[x] == multiset(s)[x] + if last == x then 1 else 0
  {
  }
}

/** Sequences without repetition, and removing elements from a sequence. */
module Sequences {
  ghost predicate Distinct<T>(s: seq<T>) {
    forall i, j :: 0 <= i < j < |s| ==> s[i] != s[j]
  }

  /** Deletes every element of a set, keeping the order of the others. */
  function Without<T(==,!new)>(s: seq<T>, drop: set<T>): (r: seq<T>)
    ensures forall x :: x in r <==> x in s && x !in drop
  {
    if s == [] then [] else
    var n := |s| - 1;
    assert s == s[..n] + [s[n]];
    Without(s[..n], drop) + (if s[n] in drop then [] else [s[n]])
  }

  lemma WithoutSnoc<T(!new)>(s: seq<T>, x: T, drop: set<T>)
    ensures Without(s + [x], drop) == Without(s, drop) + (if x in drop then [] else [x])
  {
    assert (s + [x])[..|s|] == s;
  }

  lemma {:induction false} WithoutTwice<T(!new)>(s: seq<T>, a: set<T>, b: set<T>)
    ensures Without(Without(s, a), b) == Without(s, a + b)
  {
    if s != [] {
      var n := |s| - 1;
      var kept := Without(s[..n], a);
      WithoutTwice(s[..n], a, b);
      if s[n] in a {
        assert Without(s, a) == kept;
        assert s[n] in a + b;
      } else {
        WithoutSnoc(kept, s[n], b);
        assert s[n] in b <==> s[n] in a + b;
      }
    }
  }

  /** Only the elements that are there matter. */
  lemma {:induction false} WithoutSame<T(!new)>(s: seq<T>, a: set<T>, b: set<T>)
    requires forall x :: x in s ==> (x in a <==> x in b)
    ensures Without(s, a) == Without(s, b)
  {
    if s != [] {
      WithoutSame(s[..|s| - 1], a, b);
    }
  }

  lemma {:induction false} WithoutNone<T(!new)>(s: seq<T>, drop: set<T>)
    requires forall x :: x in s ==> x !in drop
    ensures Without(s, drop) == s
  {
    if s != [] {
      var n := |s| - 1;
      WithoutNone(s[..n], drop);
      assert s == s[..n] + [s[n]];
    }
  }

  lemma {:induction false} WithoutDistinct<T(!new)>(s: seq<T>, drop: set<T>)
    requires Distinct(s)
    ensures Distinct(Without(s, drop))
  {
    if s != [] {
      var n := |s| - 1;
      WithoutDistinct(s[..n], drop);
      var rest := Without(s[..n], drop);
      forall i | 0 <= i < |rest| ensures rest[i] != s[n] {
        assert rest[i] in s[..n];
      }
    }
  }
}

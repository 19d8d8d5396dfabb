/** Lists as the loops of the artifact checks fill them: repetition and reordering. */
module Lists {

  ghost predicate NoDup<T(!new)>(s: seq<T>) {
    forall i, j :: 0 <= i < j < |s| ==> s[i] != s[j]
  }

  lemma NoDupNext<T(!new)>(s: seq<T>, i: nat)
    requires i < |s| && NoDup(s[..i])
    ensures s[i] in s[..i] ==> !NoDup(s)
    ensures s[i] !in s[..i] ==> NoDup(s[..i + 1])
    ensures forall x :: x in s[..i + 1] <==> x in s[..i] || x == s[i]
  {
    var front := s[..i];
    assert s[..i + 1] == front + [s[i]];
    if s[i] in front {
      var j :| 0 <= j < i && front[j] == s[i];
      assert s[j] == s[i];
    } else {
      assert forall j :: 0 <= j < i ==> front[j] in front;
    }
  }

  function Map<T, U>(f: T -> U, s: seq<T>): (r: seq<U>)
    ensures |r| == |s| && forall i :: 0 <= i < |s| ==> r[i] == f(s[i])
  {
    seq(|s|, i requires 0 <= i < |s| => f(s[i]))
  }

  /** A list has no repeats exactly when nothing occurs in it twice. */
  lemma {:induction false} NoDupCounts<T(!new)>(s: seq<T>)
    ensures NoDup(s) <==> forall x :: multiset(s)[x] <= 1
  {
    if s != [] {
      var n := |s| - 1;
      NoDupCounts(s[..n]);
      assert s == s[..n] + [s[n]];
      if NoDup(s) {
        assert s[n] !in s[..n];
      }
      if forall x :: multiset(s)[x] <= 1 {
        assert forall x :: multiset(s[..n])[x] <= multiset(s)[x];
        assert multiset(s)[s[n]] == multiset(s[..n])[s[n]] + 1;
        assert s[n] !in multiset(s[..n]);
        assert s[n] !in s[..n];
        assert forall i :: 0 <= i < n ==> s[i] in s[..n];
      }
    }
  }

  lemma WithoutOne<T>(t: seq<T>, k: nat)
    requires k < |t|
    ensures multiset(t) == multiset{t[k]} + multiset(Without(t, k))
  {
    assert t == t[..k] + [t[k]] + t[k + 1..];
  }

  function Without<T>(t: seq<T>, k: nat): seq<T>
    requires k < |t|
  {
    t[..k] + t[k + 1..]
  }

  lemma MapWithout<T, U>(f: T -> U, t: seq<T>, k: nat)
    requires k < |t|
    ensures multiset(Map(f, t)) == multiset{f(t[k])} + multiset(Map(f, Without(t, k)))
  {
    WithoutOne(Map(f, t), k);
    assert Without(Map(f, t), k) == Map(f, Without(t, k));
  }

  lemma {:induction false} MapPermutes<T, U>(f: T -> U, s: seq<T>, t: seq<T>)
    requires multiset(s) == multiset(t)
    ensures multiset(Map(f, s)) == multiset(Map(f, t))
    decreases |s|
  {
    hide Map;
    SameElements(s, t);
    if s == [] {
      assert s == t;
    } else {
      assert s[0] in t;
      var k :| 0 <= k < |t| && t[k] == s[0];
      WithoutOne(s, 0);
      WithoutOne(t, k);
      SameRest(multiset{s[0]}, multiset(Without(s, 0)), multiset(Without(t, k)));
      MapPermutes(f, Without(s, 0), Without(t, k));
      MapWithout(f, s, 0);
      MapWithout(f, t, k);
    }
  }

  lemma SameRest<T>(a: multiset<T>, b: multiset<T>, c: multiset<T>)
    requires a + b == a + c
    ensures b == c
  {
    assert (a + b) - a == b && (a + c) - a == c;
  }

  /** Reordering keeps the image of a list free of repeats. */
  lemma NoDupPermutes<T, U(!new)>(f: T -> U, s: seq<T>, t: seq<T>)
    requires multiset(s) == multiset(t) && NoDup(Map(f, s))
    ensures NoDup(Map(f, t))
  {
    MapPermutes(f, s, t);
    NoDupCounts(Map(f, s));
    NoDupCounts(Map(f, t));
  }

  lemma SameElements<T>(s: seq<T>, t: seq<T>)
    requires multiset(s) == multiset(t)
    ensures |s| == |t| && forall x :: x in s <==> x in t
  {
    assert |multiset(s)| == |s| && |multiset(t)| == |t|;
    assert forall x :: x in s <==> x in multiset(s);
    assert forall x :: x in t <==> x in multiset(t);
  }

  function Elements<T>(s: seq<T>): set<T> {
    set x | x in s
  }

  /** What a loop that inserts the elements of s into a set learns at position i. */
  lemma InsertNext<T(!new)>(s: seq<T>, i: nat)
    requires i < |s| && NoDup(s[..i])
    ensures s[i] in Elements(s[..i]) ==> !NoDup(s)
    ensures s[i] !in Elements(s[..i]) ==> NoDup(s[..i + 1])
    ensures Elements(s[..i + 1]) == Elements(s[..i]) + {s[i]}
  {
    NoDupNext(s, i);
  }

  lemma InsertEnds<T(!new)>(s: seq<T>)
    ensures NoDup(s[..0]) && Elements(s[..0]) == {} && s[..|s|] == s
  {}
}

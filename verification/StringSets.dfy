/** Sets of strings as the sorted lists that Rust's BTreeSet<String> iterates over. */
module StringSets {
  import opened Text

  predicate StrictlySorted(s: seq<string>) {
    forall i, j :: 0 <= i < j < |s| ==> StrLess(s[i], s[j])
  }

  /** The key put in its place, unless it is there already. */
  function Insert(key: string, sorted: seq<string>): (r: seq<string>)
    requires StrictlySorted(sorted)
    ensures StrictlySorted(r)
    ensures forall k :: k in r <==> k == key || k in sorted
  {
    if sorted == [] then [key]
    else if key == sorted[0] then sorted
    else if StrLess(key, sorted[0]) then
      assert forall j :: 0 < j < |sorted| ==> StrLess(key, sorted[j]) by {
        forall j | 0 < j < |sorted| ensures StrLess(key, sorted[j]) {
          StrLessTransitive(key, sorted[0], sorted[j]);
        }
      }
      [key] + sorted
    else
      StrLessTotal(key, sorted[0]);
      var rest := Insert(key, sorted[1..]);
      assert sorted == [sorted[0]] + sorted[1..];
      assert forall j :: 0 <= j < |rest| ==> StrLess(sorted[0], rest[j]) by {
        forall j | 0 <= j < |rest| ensures StrLess(sorted[0], rest[j]) {
          assert rest[j] in rest;
        }
      }
      [sorted[0]] + rest
  }

  /** Sorting and removing duplicates. */
  function SortDedup(keys: seq<string>): (r: seq<string>)
    ensures StrictlySorted(r)
    ensures forall k :: k in r <==> k in keys
  {
    if keys == [] then []
    else
      assert keys == [keys[0]] + keys[1..];
      Insert(keys[0], SortDedup(keys[1..]))
  }

  /** A strictly sorted list is determined by its elements. */
  lemma {:induction false} SortedIsCanonical(a: seq<string>, b: seq<string>)
    requires StrictlySorted(a) && StrictlySorted(b)
    requires forall k :: k in a <==> k in b
    ensures a == b
  {
    assert (a != [] ==> a[0] in a) && (b != [] ==> b[0] in b);
    if a != [] && b != [] {
      FirstIsLeast(a, b);
      assert a == [a[0]] + a[1..] && b == [b[0]] + b[1..];
      StrLessIrreflexive(a[0]);
      forall k
        ensures k in a[1..] <==> k in b[1..]
      {
        assert k in a[1..] <==> k in a && k != a[0];
        assert k in b[1..] <==> k in b && k != b[0];
      }
      SortedIsCanonical(a[1..], b[1..]);
    }
  }

  lemma FirstIsLeast(a: seq<string>, b: seq<string>)
    requires StrictlySorted(a) && StrictlySorted(b) && a != [] && b != []
    requires forall k :: k in a <==> k in b
    ensures a[0] == b[0]
  {
    assert a[0] in b && b[0] in a;
    StrLessTotal(a[0], b[0]);
  }
}

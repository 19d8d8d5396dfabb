/** Strings as sequences of Unicode scalar values: the searching, cutting, joining,
  * ordering and printing that the modelled code takes from its standard library. */
module Text {
  import opened Wrappers

  // ---------- searching ----------

  predicate OccursAt(text: string, needle: string, i: int) {
    0 <= i <= |text| - |needle| && text[i..i + |needle|] == needle
  }

  predicate StartsWith(text: string, prefix: string) {
    prefix <= text
  }

  predicate EndsWith(text: string, suffix: string) {
    |suffix| <= |text| && text[|text| - |suffix|..] == suffix
  }

  /** The leftmost occurrence of needle at or after from. */
  function FindFrom(text: string, needle: string, from: nat): (r: Option<nat>)
    requires from <= |text|
    ensures r.Some? ==> from <= r.value && OccursAt(text, needle, r.value)
    ensures r.Some? ==> forall j :: from <= j < r.value ==> !OccursAt(text, needle, j)
    ensures r.None? ==> forall j :: from <= j ==> !OccursAt(text, needle, j)
    decreases |text| - from
  {
    if OccursAt(text, needle, from) then Some(from)
    else if from == |text| then None
    else FindFrom(text, needle, from + 1)
  }

  function Find(text: string, needle: string): (r: Option<nat>)
    ensures r.Some? ==> OccursAt(text, needle, r.value)
    ensures r.Some? ==> forall j :: 0 <= j < r.value ==> !OccursAt(text, needle, j)
    ensures r.None? ==> forall j :: !OccursAt(text, needle, j)
  {
    FindFrom(text, needle, 0)
  }

  /** A leftmost occurrence is the one Find reports. */
  lemma FindIs(text: string, needle: string, i: nat)
    requires OccursAt(text, needle, i)
    requires forall j :: 0 <= j < i ==> !OccursAt(text, needle, j)
    ensures Find(text, needle) == Some(i)
  {
    var r := Find(text, needle);
  }

  // ---------- cutting and joining ----------

  /** The pieces of s between occurrences of c; always at least one piece. */
  function Split(s: string, c: char): (parts: seq<string>)
    ensures |parts| >= 1 && (|parts| == 1 <==> c !in s)
    ensures forall i :: 0 <= i < |parts| ==> c !in parts[i]
    ensures Join(parts, [c]) == s
  {
    if s == "" then [""]
    else if s[0] == c then
      var parts := Split(s[1..], c);
      assert Join([""] + parts, [c]) == [c] + Join(parts, [c]) by {
        assert ([""] + parts)[1..] == parts;
      }
      [""] + parts
    else
      var parts := Split(s[1..], c);
      var grown := [[s[0]] + parts[0]] + parts[1..];
      assert Join(grown, [c]) == s by {
        JoinGrowsFirst(s[0], parts, [c]);
      }
      grown
  }

  function Join(parts: seq<string>, sep: string): string {
    if |parts| == 0 then ""
    else if |parts| == 1 then parts[0]
    else parts[0] + sep + Join(parts[1..], sep)
  }

  lemma JoinGrowsFirst(c: char, parts: seq<string>, sep: string)
    requires |parts| >= 1
    ensures Join([[c] + parts[0]] + parts[1..], sep) == [c] + Join(parts, sep)
  {
    var grown := [[c] + parts[0]] + parts[1..];
    assert grown[1..] == parts[1..];
    if |parts| == 1 {
      assert grown == [[c] + parts[0]];
    } else {
      assert [c] + (parts[0] + sep + Join(parts[1..], sep)) == ([c] + parts[0]) + sep + Join(parts[1..], sep);
    }
  }

  /** Cutting a joined list of c-free pieces gives the pieces back. */
  lemma {:induction false} SplitOfJoin(parts: seq<string>, c: char)
    requires |parts| >= 1
    requires forall i :: 0 <= i < |parts| ==> c !in parts[i]
    ensures Split(Join(parts, [c]), c) == parts
    decreases |parts|, |parts[0]|
  {
    var s := Join(parts, [c]);
    if parts[0] == "" {
      if |parts| > 1 {
        assert s == [c] + Join(parts[1..], [c]);
        assert s[1..] == Join(parts[1..], [c]);
        SplitOfJoin(parts[1..], c);
        assert [""] + parts[1..] == parts;
      } else {
        assert parts == [""];
      }
    } else {
      var rest := [parts[0][1..]] + parts[1..];
      JoinGrowsFirst(parts[0][0], rest, [c]);
      assert [parts[0][0]] + rest[0] == parts[0];
      assert rest[1..] == parts[1..];
      assert [[parts[0][0]] + rest[0]] + rest[1..] == parts;
      assert s == [parts[0][0]] + Join(rest, [c]);
      assert s[1..] == Join(rest, [c]);
      SplitOfJoin(rest, c);
    }
  }

  /** The text before and after the first c, if there is one. */
  function SplitOnce(s: string, c: char): (r: Option<(string, string)>)
    ensures r.Some? ==> s == r.value.0 + [c] + r.value.1 && c !in r.value.0
    ensures r.None? <==> c !in s
  {
    if s == "" then None
    else if s[0] == c then Some(("", s[1..]))
    else
      match SplitOnce(s[1..], c)
      case None => None
      case Some((before, after)) => Some(([s[0]] + before, after))
  }

  /** A c-free first half determines where SplitOnce cuts. */
  lemma {:induction false} SplitOnceOf(before: string, c: char, after: string)
    requires c !in before
    ensures SplitOnce(before + [c] + after, c) == Some((before, after))
  {
    var s := before + [c] + after;
    if before == "" {
      assert s[1..] == after;
    } else {
      assert s[1..] == before[1..] + [c] + after;
      SplitOnceOf(before[1..], c, after);
      assert [s[0]] + before[1..] == before;
    }
  }

  // ---------- order ----------

  /** Lexicographic order by code point, which is also the byte order of UTF-8. */
  predicate StrLess(a: string, b: string) {
    b != "" && (a == "" || a[0] < b[0] || (a[0] == b[0] && StrLess(a[1..], b[1..])))
  }

  lemma {:induction false} StrLessTotal(a: string, b: string)
    ensures StrLess(a, b) || a == b || StrLess(b, a)
    ensures !(StrLess(a, b) && StrLess(b, a)) && !StrLess(a, a)
  {
    if a != "" && b != "" {
      StrLessTotal(a[1..], b[1..]);
      if a[0] == b[0] && a[1..] == b[1..] {
        assert a == [a[0]] + a[1..] == b;
      }
    }
    if a != "" {
      StrLessIrreflexive(a);
    }
  }

  lemma {:induction false} StrLessIrreflexive(a: string)
    ensures !StrLess(a, a)
  {
    if a != "" {
      StrLessIrreflexive(a[1..]);
    }
  }

  lemma {:induction false} StrLessTransitive(a: string, b: string, c: string)
    requires StrLess(a, b) && StrLess(b, c)
    ensures StrLess(a, c)
  {
    if a != "" && a[0] == b[0] == c[0] {
      StrLessTransitive(a[1..], b[1..], c[1..]);
    }
  }

  /** Strings that start with pieces of one length compare piece by piece. */
  lemma {:induction false} StrLessAppend(a: string, a': string, b: string, b': string)
    requires |a| == |b|
    ensures StrLess(a + a', b + b') <==> StrLess(a, b) || (a == b && StrLess(a', b'))
  {
    if a == "" {
      assert a + a' == a' && b + b' == b';
    } else {
      assert (a + a')[1..] == a[1..] + a' && (b + b')[1..] == b[1..] + b';
      StrLessAppend(a[1..], a', b[1..], b');
      assert a == [a[0]] + a[1..] && b == [b[0]] + b[1..];
    }
  }

  // ---------- decimal numbers ----------

  predicate IsDigit(c: char) {
    '0' <= c <= '9'
  }

  predicate AllDigits(s: string) {
    forall i :: 0 <= i < |s| ==> IsDigit(s[i])
  }

  function Digit(n: nat): (c: char)
    requires n < 10
    ensures IsDigit(c) && DigitValue(c) == n
  {
    n as char + '0'
  }

  function DigitValue(c: char): (n: nat)
    requires IsDigit(c)
    ensures n < 10
  {
    (c - '0') as nat
  }

  /** The shortest decimal notation of n. */
  function Decimal(n: nat): (s: string)
    ensures |s| >= 1 && AllDigits(s)
    ensures n > 0 ==> s[0] != '0'
    ensures |s| > 1 ==> n >= 10
    ensures NumberOf(s) == n
  {
    if n < 10 then [Digit(n)]
    else
      var s := Decimal(n / 10) + [Digit(n % 10)];
      assert s[..|s| - 1] == Decimal(n / 10);
      s
  }

  /** The value of a digit string, most significant digit first. */
  function NumberOf(s: string): nat
    requires AllDigits(s)
  {
    if s == "" then 0 else 10 * NumberOf(s[..|s| - 1]) + DigitValue(s[|s| - 1])
  }

  /** A digit string without a leading zero is the shortest notation of its value. */
  lemma {:induction false} DecimalOfNumber(s: string)
    requires s != "" && AllDigits(s) && (|s| > 1 ==> s[0] != '0')
    ensures Decimal(NumberOf(s)) == s
  {
    var n := NumberOf(s);
    if |s| == 1 {
      assert s[..0] == "";
      assert s == [s[0]];
    } else {
      var front := s[..|s| - 1];
      DecimalOfNumber(front);
      assert front[0] == s[0];
      assert n / 10 == NumberOf(front) && n % 10 == DigitValue(s[|s| - 1]);
      assert s == front + [s[|s| - 1]];
    }
  }
}

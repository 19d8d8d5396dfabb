/** Sections 9 to 11 of SemVer 2.0.0: what an identifier is, and that precedence is an order. */
module SemVerOrder {
  import opened Wrappers
  import opened Text
  import opened SemVerGate

  // ---------- identifiers ----------

  /** The characters of an identifier: section 9. */
  predicate IsLetter(c: char) {
    '0' <= c <= '9' || 'A' <= c <= 'Z' || 'a' <= c <= 'z' || c == '-'
  }

  /** A prerelease identifier is written in the alphabet and, if it is a number, in the number's
    * shortest notation. */
  lemma IdentifierMeans(s: string)
    ensures IsIdentifier(s) <==> s != "" && forall i :: 0 <= i < |s| ==> IsLetter(s[i])
    ensures s != "" ==> (HasLeadingZero(s) <==> AllDigits(s) && s != Decimal(NumberOf(s)))
  {
    hide Decimal;
    if s != "" && AllDigits(s) {
      if HasLeadingZero(s) {
        ZeroLeads(s);
      } else {
        DecimalOfNumber(s);
      }
    }
  }

  lemma ZeroLeads(s: string)
    requires HasLeadingZero(s)
    ensures s != Decimal(NumberOf(s))
  {
    var d := Decimal(NumberOf(s));
    if NumberOf(s) == 0 {
      assert |d| == 1;
    } else {
      assert d[0] != '0';
    }
  }

  // ---------- precedence is an order ----------

  predicate IsNumeral(s: string) {
    s != "" && !HasLeadingZero(s)
  }

  lemma IdentifierTotal(a: string, b: string)
    requires IsNumeral(a) && IsNumeral(b)
    ensures IdentifierLess(a, b) || a == b || IdentifierLess(b, a)
    ensures !(IdentifierLess(a, b) && IdentifierLess(b, a)) && !IdentifierLess(a, a)
  {
    hide Decimal, StrLess;
    StrLessTotal(a, b);
    if AllDigits(a) && AllDigits(b) {
      DecimalOfNumber(a);
      DecimalOfNumber(b);
    }
  }

  lemma IdentifierTransitive(a: string, b: string, c: string)
    requires IdentifierLess(a, b) && IdentifierLess(b, c)
    ensures IdentifierLess(a, c)
  {
    hide StrLess, AllDigits, NumberOf;
    if StrLess(a, b) && StrLess(b, c) {
      StrLessTransitive(a, b, c);
    }
  }

  predicate AreNumerals(ids: seq<string>) {
    forall i :: 0 <= i < |ids| ==> IsNumeral(ids[i])
  }

  lemma {:induction false} PrereleaseTotal(a: seq<string>, b: seq<string>)
    requires AreNumerals(a) && AreNumerals(b)
    ensures PrereleaseLess(a, b) || a == b || PrereleaseLess(b, a)
    ensures !(PrereleaseLess(a, b) && PrereleaseLess(b, a))
  {
    hide IdentifierLess, IsNumeral;
    if a != [] && b != [] {
      if a[0] == b[0] {
        PrereleaseTotal(a[1..], b[1..]);
        assert a == [a[0]] + a[1..] && b == [b[0]] + b[1..];
      } else {
        IdentifierTotal(a[0], b[0]);
      }
    }
  }

  lemma {:induction false} PrereleaseTransitive(a: seq<string>, b: seq<string>, c: seq<string>)
    requires AreNumerals(a) && AreNumerals(b) && AreNumerals(c)
    requires PrereleaseLess(a, b) && PrereleaseLess(b, c)
    ensures PrereleaseLess(a, c)
  {
    hide IdentifierLess, IsNumeral;
    if a != [] {
      if a[0] == b[0] && b[0] == c[0] {
        PrereleaseTransitive(a[1..], b[1..], c[1..]);
      } else if a[0] != b[0] && b[0] != c[0] {
        IdentifierTransitive(a[0], b[0], c[0]);
        IdentifierTotal(a[0], c[0]);
      }
    }
  }

  lemma VersionNumerals(v: Version)
    requires WellFormed(v)
    ensures AreNumerals(v.prerelease)
  {
    hide HasLeadingZero;
    assert forall i :: 0 <= i < |v.prerelease| ==> v.prerelease[i] in v.prerelease;
  }

  /** Build metadata aside, of two versions exactly one precedes the other, unless they agree. */
  lemma PrecedesIsTotal(a: Version, b: Version)
    requires WellFormed(a) && WellFormed(b)
    ensures Precedes(a, b) || Precedes(b, a) ||
      (a.major == b.major && a.minor == b.minor && a.patch == b.patch && a.prerelease == b.prerelease)
    ensures !(Precedes(a, b) && Precedes(b, a))
  {
    hide PrereleaseLess, WellFormed, AreNumerals;
    VersionNumerals(a);
    VersionNumerals(b);
    PrereleaseTotal(a.prerelease, b.prerelease);
  }

  lemma PrecedesIsTransitive(a: Version, b: Version, c: Version)
    requires WellFormed(a) && WellFormed(b) && WellFormed(c) && Precedes(a, b) && Precedes(b, c)
    ensures Precedes(a, c)
  {
    hide PrereleaseLess, WellFormed, AreNumerals;
    VersionNumerals(a);
    VersionNumerals(b);
    VersionNumerals(c);
    if PrereleaseLess(a.prerelease, b.prerelease) && PrereleaseLess(b.prerelease, c.prerelease) {
      PrereleaseTransitive(a.prerelease, b.prerelease, c.prerelease);
    }
  }

  /** The chain of versions that section 11 gives as its example. */
  lemma SpecifiedChain(major: nat, minor: nat, patch: nat)
    ensures var v := (ids: seq<string>) => Version(major, minor, patch, ids, []);
      && Precedes(v(["alpha"]), v(["alpha", "1"])) && Precedes(v(["alpha", "1"]), v(["alpha", "beta"]))
      && Precedes(v(["alpha", "beta"]), v(["beta"])) && Precedes(v(["beta"]), v(["beta", "2"]))
      && Precedes(v(["beta", "2"]), v(["beta", "11"])) && Precedes(v(["beta", "11"]), v(["rc", "1"]))
      && Precedes(v(["rc", "1"]), v([]))
  {
    SharedFirst("alpha", [], ["1"]);
    SharedFirst("alpha", ["1"], ["beta"]);
    SharedFirst("beta", [], ["2"]);
    SharedFirst("beta", ["2"], ["11"]);
    Numbers();
  }

  lemma SharedFirst(id: string, a: seq<string>, b: seq<string>)
    ensures PrereleaseLess([id] + a, [id] + b) <==> PrereleaseLess(a, b)
  {
    assert ([id] + a)[1..] == a && ([id] + b)[1..] == b;
  }

  lemma Numbers()
    ensures IdentifierLess("1", "beta") && IdentifierLess("2", "11")
    ensures IdentifierLess("alpha", "beta") && IdentifierLess("beta", "rc")
  {
    assert AllDigits("1") && AllDigits("2") && AllDigits("11") && !IsDigit("beta"[0]) && !IsDigit("alpha"[0]) && !IsDigit("rc"[0]);
    assert "11"[..1] == "1" && "1"[..0] == "" && "2"[..0] == "";
    assert NumberOf("1") == 1 && NumberOf("11") == 11 && NumberOf("2") == 2;
  }
}

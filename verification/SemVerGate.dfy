/** Semantic versions and the producer-version gate:
  * xtask/src/advisory_artifacts.rs, lines 5728-5806. */
module SemVerGate {
  import opened Wrappers
  import opened Text

  const U64_LIMIT: nat := 0x1_0000_0000_0000_0000

  // ---------- the parser ----------

  predicate IsAlphanumeric(c: char) {
    IsDigit(c) || 'a' <= c <= 'z' || 'A' <= c <= 'Z'
  }

  predicate IsIdentifier(s: string) {
    s != "" && forall i :: 0 <= i < |s| ==> IsAlphanumeric(s[i]) || s[i] == '-'
  }

  predicate HasLeadingZero(s: string) {
    |s| > 1 && s[0] == '0' && AllDigits(s)
  }

  predicate ValidIdentifiers(value: string, rejectLeadingZero: bool) {
    value != "" && forall id :: id in Split(value, '.') ==>
      IsIdentifier(id) && !(rejectLeadingZero && HasLeadingZero(id))
  }

  function ParseNumeric(value: string): (r: Option<nat>)
    ensures r.Some? ==> r.value < U64_LIMIT && Decimal(r.value) == value
  {
    if value == "" || !AllDigits(value) || (|value| > 1 && value[0] == '0') then None
    else
      DecimalOfNumber(value);
      if NumberOf(value) < U64_LIMIT then Some(NumberOf(value)) else None
  }

  datatype Core = Core(major: nat, minor: nat, patch: nat, prerelease: bool)

  function ParseCore(core: string, prerelease: bool): Option<Core> {
    var parts := Split(core, '.');
    if |parts| != 3 then None
    else
      var major, minor, patch := ParseNumeric(parts[0]), ParseNumeric(parts[1]), ParseNumeric(parts[2]);
      if major.None? || minor.None? || patch.None? then None
      else Some(Core(major.value, minor.value, patch.value, prerelease))
  }

  function ParseSemver(value: string): Option<Core> {
    var cut := SplitOnce(value, '+');
    var versioned := if cut.Some? then cut.value.0 else value;
    if cut.Some? && !ValidIdentifiers(cut.value.1, false) then None
    else if '+' in versioned then None
    else
      match SplitOnce(versioned, '-')
      case None => ParseCore(versioned, false)
      case Some((core, prerelease)) => if ValidIdentifiers(prerelease, true) then ParseCore(core, true) else None
  }

  predicate Supported(value: string) {
    match ParseSemver(value)
    case None => false
    case Some(v) =>
      LexLess((0, 3, 8), (v.major, v.minor, v.patch)) ||
      ((v.major, v.minor, v.patch) == (0, 3, 8) && !v.prerelease)
  }

  predicate LexLess(a: (nat, nat, nat), b: (nat, nat, nat)) {
    a.0 < b.0 || (a.0 == b.0 && (a.1 < b.1 || (a.1 == b.1 && a.2 < b.2)))
  }

  // ---------- the grammar of sections 2, 9 and 10 of SemVer 2.0.0 ----------

  datatype Version = Version(major: nat, minor: nat, patch: nat, prerelease: seq<string>, build: seq<string>)

  predicate WellFormed(v: Version) {
    (forall id :: id in v.prerelease ==> IsIdentifier(id) && !HasLeadingZero(id)) &&
    (forall id :: id in v.build ==> IsIdentifier(id))
  }

  predicate FitsU64(v: Version) {
    v.major < U64_LIMIT && v.minor < U64_LIMIT && v.patch < U64_LIMIT
  }

  function PrintCore(v: Version): string {
    Decimal(v.major) + "." + (Decimal(v.minor) + "." + Decimal(v.patch))
  }

  function PrintVersioned(v: Version): string {
    PrintCore(v) + if v.prerelease == [] then "" else "-" + Join(v.prerelease, ".")
  }

  function Print(v: Version): string {
    PrintVersioned(v) + if v.build == [] then "" else "+" + Join(v.build, ".")
  }

  function CoreOf(v: Version): Core {
    Core(v.major, v.minor, v.patch, v.prerelease != [])
  }

  // ---------- printing, then parsing ----------

  lemma NoSeparator(s: string, c: char)
    requires AllDigits(s) || IsIdentifier(s)
    requires c == '+' || c == '.'
    ensures c !in s
  {}

  lemma DigitsNoHyphen(s: string)
    requires AllDigits(s)
    ensures '-' !in s
  {}

  lemma {:induction false} JoinAvoids(ids: seq<string>, sep: char, c: char)
    requires c != sep && forall i :: 0 <= i < |ids| ==> c !in ids[i]
    ensures c !in Join(ids, [sep])
  {
    if |ids| > 1 {
      JoinAvoids(ids[1..], sep, c);
    }
  }

  lemma JoinThree(a: string, b: string, c: string)
    ensures Join([a, b, c], ".") == a + "." + (b + "." + c)
  {
    assert [a, b, c][1..] == [b, c] && [b, c][1..] == [c];
    assert Join([b, c], ".") == b + "." + c;
  }

  lemma ParseOfPrintedCore(v: Version, prerelease: bool)
    ensures ParseCore(PrintCore(v), prerelease)
         == if FitsU64(v) then Some(Core(v.major, v.minor, v.patch, prerelease)) else None
    ensures '+' !in PrintCore(v) && '-' !in PrintCore(v)
  {
    hide Decimal, Split;
    var parts := [Decimal(v.major), Decimal(v.minor), Decimal(v.patch)];
    forall i | 0 <= i < 3
      ensures '.' !in parts[i] && '+' !in parts[i] && '-' !in parts[i]
    {
      NoSeparator(parts[i], '.');
      NoSeparator(parts[i], '+');
      DigitsNoHyphen(parts[i]);
    }
    JoinThree(parts[0], parts[1], parts[2]);
    SplitOfJoin(parts, '.');
    ParseNumericOf(v.major);
    ParseNumericOf(v.minor);
    ParseNumericOf(v.patch);
  }

  lemma ParseNumericOf(n: nat)
    ensures ParseNumeric(Decimal(n)) == if n < U64_LIMIT then Some(n) else None
  {}

  lemma ValidOfJoined(ids: seq<string>, rejectLeadingZero: bool)
    requires ids != [] && forall id :: id in ids ==> IsIdentifier(id) && !(rejectLeadingZero && HasLeadingZero(id))
    ensures ValidIdentifiers(Join(ids, "."), rejectLeadingZero)
    ensures '+' !in Join(ids, ".")
  {
    hide Split, HasLeadingZero;
    forall i | 0 <= i < |ids|
      ensures '.' !in ids[i] && '+' !in ids[i] && ids[i] != ""
    {
      assert ids[i] in ids;
      NoSeparator(ids[i], '.');
      NoSeparator(ids[i], '+');
    }
    SplitOfJoin(ids, '.');
    JoinAvoids(ids, '.', '+');
    assert Join(ids, ".") != "" by {
      assert ids[0] != "";
    }
  }

  /** Parsing a printed version gives its core numbers and whether it is a prerelease,
    * unless a number does not fit. */
  lemma ParseOfPrint(v: Version)
    requires WellFormed(v)
    ensures ParseSemver(Print(v)) == if FitsU64(v) then Some(CoreOf(v)) else None
  {
    hide ValidIdentifiers, ParseCore, PrintCore, IsIdentifier, HasLeadingZero, FitsU64;
    ParseOfPrintedCore(v, v.prerelease != []);
    var core, versioned := PrintCore(v), PrintVersioned(v);
    if v.prerelease != [] {
      var p := Join(v.prerelease, ".");
      ValidOfJoined(v.prerelease, true);
      assert versioned == core + ['-'] + p;
      SplitOnceOf(core, '-', p);
    } else {
      assert versioned == core;
    }
    assert '+' !in versioned;
    if v.build != [] {
      var b := Join(v.build, ".");
      ValidOfJoined(v.build, false);
      assert Print(v) == versioned + ['+'] + b;
      SplitOnceOf(versioned, '+', b);
    } else {
      assert Print(v) == versioned;
    }
  }

  // ---------- parsing, then printing ----------

  lemma PrintOfParsedCore(core: string, prerelease: bool) returns (v: Version)
    requires ParseCore(core, prerelease).Some?
    ensures v.prerelease == v.build == [] && PrintCore(v) == core && FitsU64(v)
    ensures ParseCore(core, prerelease) == Some(Core(v.major, v.minor, v.patch, prerelease))
  {
    var c := ParseCore(core, prerelease).value;
    v := Version(c.major, c.minor, c.patch, [], []);
    var parts := Split(core, '.');
    assert parts == [Decimal(c.major), Decimal(c.minor), Decimal(c.patch)];
    JoinThree(parts[0], parts[1], parts[2]);
    assert Join(parts, ['.']) == core;
  }

  lemma ValidPieces(value: string, rejectLeadingZero: bool)
    requires ValidIdentifiers(value, rejectLeadingZero)
    ensures var ids := Split(value, '.');
      && ids != [] && Join(ids, ".") == value
      && forall id :: id in ids ==> IsIdentifier(id) && (rejectLeadingZero ==> !HasLeadingZero(id))
  {
    hide IsIdentifier, HasLeadingZero;
    assert Join(Split(value, '.'), ['.']) == value;
  }

  lemma VersionOfParsed(value: string) returns (v: Version)
    requires ParseSemver(value).Some?
    ensures WellFormed(v) && FitsU64(v) && Print(v) == value && ParseSemver(value) == Some(CoreOf(v))
  {
    hide ParseCore, PrintCore, FitsU64, Split, IsIdentifier, HasLeadingZero, ValidIdentifiers, Join, SplitOnce;
    var cut := SplitOnce(value, '+');
    var versioned := if cut.Some? then cut.value.0 else value;
    var cut' := SplitOnce(versioned, '-');
    var core := if cut'.Some? then cut'.value.0 else versioned;
    var bare := PrintOfParsedCore(core, cut'.Some?);
    v := bare.(prerelease := if cut'.Some? then Split(cut'.value.1, '.') else [],
               build := if cut.Some? then Split(cut.value.1, '.') else []);
    SameCore(bare, v);
    if cut.Some? {
      ValidPieces(cut.value.1, false);
    }
    if cut'.Some? {
      ValidPieces(cut'.value.1, true);
    }
    assert PrintVersioned(v) == versioned;
    assert Print(v) == value;
  }

  lemma SameCore(a: Version, b: Version)
    requires a.major == b.major && a.minor == b.minor && a.patch == b.patch
    ensures PrintCore(a) == PrintCore(b) && FitsU64(a) == FitsU64(b)
  {}

  ghost predicate Denotes(value: string, v: Version) {
    WellFormed(v) && FitsU64(v) && Print(v) == value
  }

  /** The parser accepts exactly the versions of the grammar whose core numbers fit in 64
    * bits, and reports the core and prerelease of every version the text denotes. */
  lemma ParserIsExact(value: string, core: Core)
    ensures ParseSemver(value) == Some(core) <==> exists v :: Denotes(value, v) && CoreOf(v) == core
  {
    hide ParseSemver, Print, WellFormed, FitsU64;
    if ParseSemver(value) == Some(core) {
      var v := VersionOfParsed(value);
      assert Denotes(value, v);
    }
    if v :| Denotes(value, v) && CoreOf(v) == core {
      ParseOfPrint(v);
    }
  }

  // ---------- precedence, section 11 of SemVer 2.0.0 ----------

  predicate IdentifierLess(a: string, b: string) {
    if AllDigits(a) && AllDigits(b) then NumberOf(a) < NumberOf(b)
    else if AllDigits(a) != AllDigits(b) then AllDigits(a)
    else StrLess(a, b)
  }

  predicate PrereleaseLess(a: seq<string>, b: seq<string>) {
    if b == [] then false
    else if a == [] then true
    else if a[0] == b[0] then PrereleaseLess(a[1..], b[1..])
    else IdentifierLess(a[0], b[0])
  }

  /** The first version has lower precedence than the second; a version with a
    * prerelease comes before the same version without one. */
  predicate Precedes(a: Version, b: Version) {
    LexLess((a.major, a.minor, a.patch), (b.major, b.minor, b.patch)) ||
    ((a.major, a.minor, a.patch) == (b.major, b.minor, b.patch) && a.prerelease != [] &&
     (b.prerelease == [] || PrereleaseLess(a.prerelease, b.prerelease)))
  }

  const MINIMUM_PRODUCER := Version(0, 3, 8, [], [])

  /** The gate admits exactly the versions whose precedence is at least that of 0.3.8. */
  lemma GateIsPrecedence(value: string)
    ensures Supported(value) <==> exists v :: Denotes(value, v) && !Precedes(v, MINIMUM_PRODUCER)
  {
    hide ParseSemver, Print, WellFormed, FitsU64;
    if Supported(value) {
      var v := VersionOfParsed(value);
      assert Denotes(value, v);
    }
    if v :| Denotes(value, v) && !Precedes(v, MINIMUM_PRODUCER) {
      ParseOfPrint(v);
    }
  }
}

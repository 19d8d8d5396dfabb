/** Star patterns for file names: xtask/src/docs_automation_paths.rs. */
module Glob {
  import opened Wrappers
  import opened Text

  // ---------- what a pattern means ----------

  function StarCount(pattern: string): nat {
    if pattern == "" then 0
    else (if pattern[0] == '*' then 1 else 0) + StarCount(pattern[1..])
  }

  /** The pattern with its stars replaced, in order, by the given strings. */
  function Fill(pattern: string, fills: seq<string>): string
    requires |fills| == StarCount(pattern)
  {
    if pattern == "" then ""
    else if pattern[0] == '*' then fills[0] + Fill(pattern[1..], fills[1..])
    else [pattern[0]] + Fill(pattern[1..], fills)
  }

  /** Some choice of replacements for the stars yields exactly the value. */
  ghost predicate Accepts(pattern: string, value: string) {
    exists fills: seq<string> :: |fills| == StarCount(pattern) && Fill(pattern, fills) == value
  }

  // ---------- a structural form of the same meaning ----------

  ghost predicate Matches(pattern: string, value: string)
    decreases |pattern|
  {
    if pattern == "" then value == ""
    else if pattern[0] == '*' then exists k :: 0 <= k <= |value| && Matches(pattern[1..], value[k..])
    else value != "" && value[0] == pattern[0] && Matches(pattern[1..], value[1..])
  }

  lemma {:induction false} MatchesFilled(pattern: string, fills: seq<string>)
    requires |fills| == StarCount(pattern)
    ensures Matches(pattern, Fill(pattern, fills))
    decreases |pattern|
  {
    var value := Fill(pattern, fills);
    if pattern != "" {
      if pattern[0] == '*' {
        MatchesFilled(pattern[1..], fills[1..]);
        assert value[|fills[0]|..] == Fill(pattern[1..], fills[1..]);
      } else {
        MatchesFilled(pattern[1..], fills);
        assert value[1..] == Fill(pattern[1..], fills);
      }
    }
  }

  lemma {:induction false} FillsOfMatch(pattern: string, value: string) returns (fills: seq<string>)
    requires Matches(pattern, value)
    ensures |fills| == StarCount(pattern) && Fill(pattern, fills) == value
    decreases |pattern|
  {
    if pattern == "" {
      fills := [];
    } else if pattern[0] == '*' {
      var k :| 0 <= k <= |value| && Matches(pattern[1..], value[k..]);
      var rest := FillsOfMatch(pattern[1..], value[k..]);
      fills := [value[..k]] + rest;
      assert fills[1..] == rest;
    } else {
      fills := FillsOfMatch(pattern[1..], value[1..]);
      assert value == [value[0]] + value[1..];
    }
  }

  lemma MatchesIffAccepts(pattern: string, value: string)
    ensures Matches(pattern, value) <==> Accepts(pattern, value)
  {
    if Matches(pattern, value) {
      var fills := FillsOfMatch(pattern, value);
    }
    if Accepts(pattern, value) {
      var fills :| |fills| == StarCount(pattern) && Fill(pattern, fills) == value;
      MatchesFilled(pattern, fills);
    }
  }

  // ---------- why the leftmost choice is never worse ----------

  lemma {:induction false} LiteralFirst(literal: string, rest: string, value: string)
    requires '*' !in literal
    ensures Matches(literal + rest, value)
       <==> StartsWith(value, literal) && Matches(rest, value[|literal|..])
  {
    if literal == "" {
      assert literal + rest == rest && value[0..] == value;
    } else {
      var pattern := literal + rest;
      assert pattern[1..] == literal[1..] + rest;
      if value != "" && value[0] == literal[0] {
        LiteralFirst(literal[1..], rest, value[1..]);
        assert value == [value[0]] + value[1..] && literal == [literal[0]] + literal[1..];
        if StartsWith(value[1..], literal[1..]) {
          assert value[1..][|literal| - 1..] == value[|literal|..];
          assert value[..|literal|] == literal;
        }
        if StartsWith(value, literal) {
          assert value[1..][..|literal| - 1] == literal[1..];
        }
      }
    }
  }

  lemma StarFirst(rest: string, value: string)
    ensures Matches("*" + rest, value) <==> exists k :: 0 <= k <= |value| && Matches(rest, value[k..])
  {
    assert ("*" + rest)[1..] == rest;
  }

  /** A star can absorb more: what matches late also matches early. */
  lemma StarAbsorbs(rest: string, value: string, k: nat)
    requires k <= |value| && Matches("*" + rest, value[k..])
    ensures Matches("*" + rest, value)
  {
    StarFirst(rest, value[k..]);
    var j :| 0 <= j <= |value[k..]| && Matches(rest, value[k..][j..]);
    assert value[k..][j..] == value[k + j..];
    StarFirst(rest, value);
  }

  lemma LiteralAt(literal: string, rest: string, value: string, k: nat)
    requires '*' !in literal && k <= |value|
    ensures Matches(literal + rest, value[k..])
       <==> OccursAt(value, literal, k) && Matches(rest, value[k + |literal|..])
  {
    LiteralFirst(literal, rest, value[k..]);
    if k + |literal| <= |value| {
      assert value[k..][..|literal|] == value[k..k + |literal|];
      assert value[k..][|literal|..] == value[k + |literal|..];
    }
  }

  /** The exchange argument: after a star, taking the leftmost occurrence of a
    * literal that is followed by another star loses no match. */
  lemma LeftmostSuffices(literal: string, rest: string, value: string)
    requires '*' !in literal
    ensures Matches("*" + (literal + ("*" + rest)), value)
       <==> var at := Find(value, literal);
            at.Some? && Matches("*" + rest, value[at.value + |literal|..])
  {
    hide Matches, Find, FindFrom;
    var tail := literal + ("*" + rest);
    var at := Find(value, literal);
    StarFirst(tail, value);
    if k :| 0 <= k <= |value| && Matches(tail, value[k..]) {
      LiteralAt(literal, "*" + rest, value, k);
      assert OccursAt(value, literal, k);
      var from := at.value + |literal|;
      assert value[k + |literal|..] == value[from..][k - at.value..];
      StarAbsorbs(rest, value[from..], k - at.value);
    }
    if at.Some? {
      LiteralAt(literal, "*" + rest, value, at.value);
    }
  }

  /** What is still to be matched after a star: the given parts, with stars between. */
  ghost predicate MatchesParts(parts: seq<string>, value: string) {
    Matches("*" + Join(parts, "*"), value)
  }

  lemma JoinSteps(parts: seq<string>)
    requires |parts| > 1
    ensures Join(parts, "*") == parts[0] + ("*" + Join(parts[1..], "*"))
  {}

  lemma NextPart(parts: seq<string>, value: string)
    requires |parts| > 1 && '*' !in parts[0]
    ensures MatchesParts(parts, value)
       <==> var at := Find(value, parts[0]);
            at.Some? && MatchesParts(parts[1..], value[at.value + |parts[0]|..])
  {
    hide Matches, Find, FindFrom, OccursAt;
    JoinSteps(parts);
    LeftmostSuffices(parts[0], Join(parts[1..], "*"), value);
  }

  lemma FirstPart(parts: seq<string>, value: string)
    requires |parts| > 1 && '*' !in parts[0]
    ensures Matches(Join(parts, "*"), value)
       <==> StartsWith(value, parts[0]) && MatchesParts(parts[1..], value[|parts[0]|..])
  {
    hide Matches;
    JoinSteps(parts);
    LiteralFirst(parts[0], "*" + Join(parts[1..], "*"), value);
  }

  lemma NoStars(pattern: string, value: string)
    requires '*' !in pattern
    ensures Matches(pattern, value) <==> pattern == value
  {
    LiteralFirst(pattern, "", value);
    assert pattern + "" == pattern;
  }

  /** A star before the last literal asks only for a suffix. */
  lemma LastIsSuffix(literal: string, value: string)
    requires '*' !in literal
    ensures Matches("*" + literal, value) <==> EndsWith(value, literal)
  {
    StarFirst(literal, value);
    forall k | 0 <= k <= |value|
      ensures Matches(literal, value[k..]) <==> value[k..] == literal
    {
      LiteralFirst(literal, "", value[k..]);
      assert literal + "" == literal;
    }
  }

  lemma LastPart(last: string, value: string)
    requires '*' !in last
    ensures MatchesParts([last], value) <==> EndsWith(value, last)
  {
    LastIsSuffix(last, value);
  }

  // ---------- the greedy matcher ----------

  method WildcardMatch(pattern: string, value: string) returns (matched: bool)
    ensures matched <==> Accepts(pattern, value)
  {
    hide Matches, MatchesParts, Accepts, Join;
    MatchesIffAccepts(pattern, value);
    if '*' !in pattern {
      NoStars(pattern, value);
      return pattern == value;
    }
    var parts := Split(pattern, '*');
    var remainder := value;
    FirstPart(parts, value);
    if parts[0] != "" {
      if !StartsWith(remainder, parts[0]) {
        return false;
      }
      remainder := remainder[|parts[0]|..];
    }
    for i := 1 to |parts| - 1
      invariant Accepts(pattern, value) <==> MatchesParts(parts[i..], remainder)
    {
      NextPart(parts[i..], remainder);
      assert parts[i..][1..] == parts[i + 1..];
      if parts[i] == "" {
        FindIs(remainder, "", 0);
        assert remainder[0..] == remainder;
        continue;
      }
      var index := Find(remainder, parts[i]);
      if index.None? {
        return false;
      }
      remainder := remainder[index.value + |parts[i]|..];
    }
    var last := parts[|parts| - 1];
    assert parts[|parts| - 1..] == [last];
    LastPart(last, remainder);
    if last != "" {
      matched := EndsWith(remainder, last);
    } else {
      matched := true;
    }
  }
}

/** The literal-insensitive shape of a target_feature expression:
  * xtask/src/advisory_artifacts.rs, lines 8903-8924. */
module Shape {
  import opened Wrappers
  import opened Text
  import opened RustText

  // ---------- what the shape is ----------

  /** Every quoted literal replaced by a star; inside says whether s starts in a literal. */
  function Starred(s: string, inside: bool): string {
    if s == "" then ""
    else if s[0] == '"' then (if inside then "\"" else "\"*") + Starred(s[1..], !inside)
    else if inside then Starred(s[1..], inside)
    else [s[0]] + Starred(s[1..], inside)
  }

  function WordLength(s: string): (n: nat)
    ensures n <= |s| && NoWhitespace(s[..n]) && (n < |s| ==> IsWhitespace(s[n]))
  {
    if s == "" || IsWhitespace(s[0]) then 0
    else
      var n := 1 + WordLength(s[1..]);
      assert s[..n] == [s[0]] + s[1..][..n - 1];
      n
  }

  /** The maximal pieces without white space, in order. */
  function Words(s: string): (words: seq<string>)
    ensures forall w :: w in words ==> w != "" && NoWhitespace(w)
  {
    if s == "" then []
    else if IsWhitespace(s[0]) then Words(s[1..])
    else
      var n := WordLength(s);
      [s[..n]] + Words(s[n..])
  }

  function NormalizedShape(expression: string): string {
    Join(Words(Starred(expression, false)), " ")
  }

  method NormalizedTargetFeatureShape(expression: string) returns (r: string)
    ensures r == NormalizedShape(expression)
  {
    var shape := "";
    var inQuotes := false;
    for i := 0 to |expression|
      invariant Starred(expression, false) == shape + Starred(expression[i..], inQuotes)
    {
      var ch := expression[i];
      assert expression[i..][1..] == expression[i + 1..];
      if ch == '"' {
        inQuotes := !inQuotes;
        shape := shape + ['"'];
        if inQuotes {
          shape := shape + ['*'];
        }
        continue;
      }
      if inQuotes {
        continue;
      }
      shape := shape + [ch];
    }
    assert expression[|expression|..] == "";
    assert shape == Starred(expression, false);
    r := Join(Words(shape), " ");
  }

  // ---------- literals do not matter ----------

  /** Whether reading the text ends inside a literal. */
  function EndsInside(s: string, inside: bool): bool {
    if s == "" then inside else EndsInside(s[1..], if s[0] == '"' then !inside else inside)
  }

  lemma {:induction false} StarredAppend(a: string, b: string, inside: bool)
    ensures Starred(a + b, inside) == Starred(a, inside) + Starred(b, EndsInside(a, inside))
  {
    if a == "" {
      assert a + b == b;
    } else {
      assert (a + b)[1..] == a[1..] + b;
      StarredAppend(a[1..], b, if a[0] == '"' then !inside else inside);
    }
  }

  lemma {:induction false} LiteralVanishes(text: string)
    requires '"' !in text
    ensures Starred(text, true) == "" && EndsInside(text, true)
    ensures Starred(text, false) == text && !EndsInside(text, false)
  {
    if text != "" {
      LiteralVanishes(text[1..]);
      assert text == [text[0]] + text[1..];
    }
  }

  /** Changing what a literal says changes nothing, terminated or not. */
  lemma ShapeIgnoresLiterals(before: string, literal: string, literal': string, after: string)
    requires !EndsInside(before, false) && '"' !in literal && '"' !in literal'
    requires after == "" || after[0] == '"'
    ensures NormalizedShape(before + "\"" + literal + after) == NormalizedShape(before + "\"" + literal' + after)
  {
    hide Words;
    StarredLiteral(before, literal, after);
    StarredLiteral(before, literal', after);
  }

  lemma StarredLiteral(before: string, literal: string, after: string)
    requires !EndsInside(before, false) && '"' !in literal
    ensures Starred(before + "\"" + literal + after, false) == Starred(before, false) + "\"*" + Starred(after, true)
  {
    var quoted := "\"" + (literal + after);
    assert before + "\"" + literal + after == before + quoted;
    StarredAppend(before, quoted, false);
    assert quoted[1..] == literal + after;
    StarredAppend(literal, after, true);
    LiteralVanishes(literal);
  }

  // ---------- the amount of white space does not matter ----------

  lemma WordLengthIs(s: string, n: nat)
    requires n <= |s| && NoWhitespace(s[..n]) && (n < |s| ==> IsWhitespace(s[n]))
    ensures WordLength(s) == n
  {
    var m := WordLength(s);
    var p, q := s[..n], s[..m];
    assert forall i :: 0 <= i < n ==> p[i] == s[i];
    assert forall i :: 0 <= i < m ==> q[i] == s[i];
  }

  lemma {:induction false} WordsSkipGap(gap: string, rest: string)
    requires AllWhitespace(gap)
    ensures Words(gap + rest) == Words(rest)
  {
    if gap == "" {
      assert gap + rest == rest;
    } else {
      assert (gap + rest)[1..] == gap[1..] + rest;
      WordsSkipGap(gap[1..], rest);
    }
  }

  lemma {:induction false} WordsAcrossGap(a: string, gap: string, b: string)
    requires gap != "" && AllWhitespace(gap)
    ensures Words(a + (gap + b)) == Words(a) + Words(b)
    decreases |a|
  {
    hide Words;
    if a == "" {
      assert a + (gap + b) == gap + b;
      WordsSkipGap(gap, b);
      NoWords();
    } else {
      FirstWord(a, gap + b);
      if IsWhitespace(a[0]) {
        WordsAcrossGap(a[1..], gap, b);
      } else {
        WordsAcrossGap(a[WordLength(a)..], gap, b);
      }
    }
  }

  /** A part of a text has no more words than the text. */
  lemma WordsOfPart(front: string, part: string, back: string)
    ensures |Words(part)| <= |Words(front + part + back)|
  {
    hide Words;
    WordsOfFront(front + part, back);
    WordsOfBack(front, part);
  }

  lemma {:induction false} WordsOfBack(front: string, back: string)
    ensures |Words(back)| <= |Words(front + back)|
  {
    if front == "" {
      assert front + back == back;
    } else {
      var text := front + back;
      assert text[1..] == front[1..] + back;
      WordsOfBack(front[1..], back);
      OneMoreCharacter(text);
    }
  }

  lemma OneMoreCharacter(text: string)
    requires text != ""
    ensures |Words(text[1..])| <= |Words(text)|
  {
    hide IsWhitespace, NoWhitespace;
    if !IsWhitespace(text[0]) {
      var n, tail := WordLength(text), text[1..];
      if n == 1 {
        assert text[n..] == tail;
      } else {
        WordGoesOn(text);
        assert tail[n - 1..] == text[n..];
      }
    }
  }

  lemma WordGoesOn(text: string)
    requires text != "" && !IsWhitespace(text[0]) && WordLength(text) > 1
    ensures |text| > 1 && !IsWhitespace(text[1]) && WordLength(text[1..]) == WordLength(text) - 1
  {
    hide IsWhitespace;
    var n, tail := WordLength(text), text[1..];
    assert tail[..n - 1] == text[..n][1..];
    assert forall i :: 0 <= i < n ==> text[..n][i] == text[i];
    WordLengthIs(tail, n - 1);
  }

  lemma {:induction false} WordsOfFront(front: string, back: string)
    ensures |Words(front)| <= |Words(front + back)|
    decreases |front|
  {
    hide Words, IsWhitespace, NoWhitespace, WordLength;
    if front == "" {
      NoWords();
    } else {
      assert (front + back)[1..] == front[1..] + back;
      FirstWord(front, "");
      assert front + "" == front;
      if IsWhitespace(front[0]) {
        FirstBlank(front + back);
        WordsOfFront(front[1..], back);
      } else {
        var n := WordLength(front);
        if n == |front| {
          NoWords();
          SomeWord(front + back);
        } else {
          WordsOfFront(front[n..], back);
          SameFirstWord(front, back);
          assert (front + back)[n..] == front[n..] + back;
        }
      }
    }
  }

  lemma FirstBlank(text: string)
    requires text != "" && IsWhitespace(text[0])
    ensures Words(text) == Words(text[1..])
  {}

  lemma SomeWord(text: string)
    requires text != "" && !IsWhitespace(text[0])
    ensures |Words(text)| >= 1
  {}

  lemma SameFirstWord(front: string, back: string)
    requires front != "" && !IsWhitespace(front[0]) && WordLength(front) < |front|
    ensures var n := WordLength(front); Words(front + back) == [front[..n]] + Words((front + back)[n..])
  {
    hide IsWhitespace, NoWhitespace, Words;
    var n, text := WordLength(front), front + back;
    assert text[..n] == front[..n] && text[n] == front[n];
    WordLengthIs(text, n);
    FirstWord(text, "");
    assert text + "" == text;
  }

  lemma NoWords()
    ensures Words("") == []
  {}

  lemma FirstWord(a: string, tail: string)
    requires a != "" && (tail == "" || IsWhitespace(tail[0]))
    ensures IsWhitespace(a[0]) ==> Words(a) == Words(a[1..]) && Words(a + tail) == Words(a[1..] + tail)
    ensures !IsWhitespace(a[0]) ==>
      var n := WordLength(a);
      0 < n && Words(a) == [a[..n]] + Words(a[n..]) && Words(a + tail) == [a[..n]] + Words(a[n..] + tail)
  {
    hide IsWhitespace, WordLength, NoWhitespace;
    assert (a + tail)[1..] == a[1..] + tail;
    if !IsWhitespace(a[0]) {
      var n := WordLength(a);
      assert (a + tail)[..n] == a[..n] && (a + tail)[n..] == a[n..] + tail;
      WordLengthIs(a + tail, n);
    }
  }

  /** Outside literals one run of white space is as good as another, and at either end
    * of the expression it is as good as none. */
  lemma ShapeIgnoresGaps(before: string, gap: string, gap': string, after: string)
    requires !EndsInside(before, false) && AllWhitespace(gap) && AllWhitespace(gap')
    requires (gap != "" && gap' != "") || before == "" || after == ""
    ensures NormalizedShape(before + gap + after) == NormalizedShape(before + gap' + after)
  {
    hide Words;
    WordsOfGap(before, gap, after);
    WordsOfGap(before, gap', after);
  }

  lemma WordsOfGap(before: string, gap: string, after: string)
    requires !EndsInside(before, false) && AllWhitespace(gap)
    requires gap != "" || before == "" || after == ""
    ensures Words(Starred(before + gap + after, false)) == Words(Starred(before, false)) + Words(Starred(after, false))
  {
    hide Words;
    assert '"' !in gap;
    assert before + gap + after == before + (gap + after);
    StarredAppend(before, gap + after, false);
    StarredAppend(gap, after, false);
    LiteralVanishes(gap);
    NoWords();
    var b, a := Starred(before, false), Starred(after, false);
    if gap != "" {
      WordsAcrossGap(b, gap, a);
    } else {
      assert gap + a == a && (b == "" || a == "");
      assert b + a == if b == "" then a else b;
    }
  }

  // ---------- shapes are their own shapes ----------

  /** Every quote opens a literal holding just a star, closed or at the very end. */
  predicate Settled(t: string) {
    if t == "" then true
    else if t[0] != '"' then Settled(t[1..])
    else |t| >= 2 && t[1] == '*' && (|t| == 2 || (t[2] == '"' && Settled(t[3..])))
  }

  lemma {:induction false} StarredSettles(s: string)
    ensures Settled(Starred(s, false))
    ensures var u := Starred(s, true); u == "" || (u[0] == '"' && Settled(u[1..]))
  {
    if s != "" {
      StarredSettles(s[1..]);
      var t, u := Starred(s, false), Starred(s[1..], true);
      if s[0] == '"' {
        assert t == "\"*" + u;
        assert u != "" ==> t[3..] == u[1..];
        assert Starred(s, true)[1..] == Starred(s[1..], false);
      } else {
        assert t[1..] == Starred(s[1..], false);
      }
    }
  }

  lemma {:induction false} SettledIsStarred(t: string)
    requires Settled(t)
    ensures Starred(t, false) == t
    decreases |t|
  {
    if t != "" {
      if t[0] != '"' {
        SettledIsStarred(t[1..]);
        assert t == [t[0]] + t[1..];
      } else {
        var u := t[2..];
        assert t == "\"*" + u && t[1..] == "*" + u;
        assert Starred(t[1..], true) == Starred(u, true) by {
          assert t[1..][1..] == u;
        }
        if u != "" {
          assert u[1..] == t[3..] && u == "\"" + t[3..];
          SettledIsStarred(t[3..]);
        }
      }
    }
  }

  /** A word of a settled text can be followed by any settled continuation. */
  lemma {:induction false} SettledWord(w: string, rest: string, x: string)
    requires NoWhitespace(w) && Settled(w + rest) && (rest == "" || IsWhitespace(rest[0]))
    requires Settled(x) && (x == "" || IsWhitespace(x[0])) && (rest == "" ==> x == "")
    ensures Settled(rest) && Settled(w + x)
    decreases |w|
  {
    hide IsWhitespace;
    assert !IsWhitespace('"') && !IsWhitespace('*') by {
      QuoteAndStar();
    }
    if w == "" {
      assert w + rest == rest && w + x == x;
    } else if w[0] != '"' {
      assert (w + rest)[1..] == w[1..] + rest && (w + x)[1..] == w[1..] + x;
      SettledWord(w[1..], rest, x);
    } else {
      assert (w + rest)[1] == '*';
      if |w + rest| > 2 {
        assert (w + rest)[3..] == w[3..] + rest && (w + x)[3..] == w[3..] + x;
        SettledWord(w[3..], rest, x);
      } else {
        assert w + x == w + rest;
      }
    }
  }

  lemma QuoteAndStar()
    ensures !IsWhitespace('"') && !IsWhitespace('*')
  {}

  lemma {:induction false} JoinedWordsSettle(t: string)
    requires Settled(t)
    ensures Settled(Join(Words(t), " "))
    decreases |t|
  {
    if t != "" {
      if IsWhitespace(t[0]) {
        JoinedWordsSettle(t[1..]);
      } else {
        var n := WordLength(t);
        var rest := Words(t[n..]);
        var x := if rest == [] then "" else " " + Join(rest, " ");
        assert t == t[..n] + t[n..];
        SettledWord(t[..n], t[n..], "");
        JoinedWordsSettle(t[n..]);
        assert x != "" ==> x[1..] == Join(rest, " ");
        SettledWord(t[..n], t[n..], x);
        assert Join([t[..n]] + rest, " ") == t[..n] + x by {
          assert ([t[..n]] + rest)[1..] == rest;
        }
      }
    }
  }

  lemma OneWord(w: string)
    requires w != "" && NoWhitespace(w)
    ensures Words(w) == [w]
  {
    assert w[..|w|] == w;
    WordLengthIs(w, |w|);
    NoWords();
  }

  lemma {:induction false} WordsOfJoin(words: seq<string>)
    requires forall i :: 0 <= i < |words| ==> words[i] != "" && NoWhitespace(words[i])
    ensures Words(Join(words, " ")) == words
  {
    hide Words, NoWhitespace;
    NoWords();
    if |words| == 1 {
      OneWord(words[0]);
    } else if |words| > 1 {
      var w, rest := words[0], Join(words[1..], " ");
      assert Join(words, " ") == w + (" " + rest);
      WordsAcrossGap(w, " ", rest);
      OneWord(w);
      WordsOfJoin(words[1..]);
    }
  }

  lemma ShapeIsIdempotent(expression: string)
    ensures NormalizedShape(NormalizedShape(expression)) == NormalizedShape(expression)
  {
    hide Words, Starred, Settled;
    var words := Words(Starred(expression, false));
    StarredSettles(expression);
    JoinedWordsSettle(Starred(expression, false));
    SettledIsStarred(Join(words, " "));
    assert forall i :: 0 <= i < |words| ==> words[i] in words;
    WordsOfJoin(words);
  }
}

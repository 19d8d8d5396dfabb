/** Rust's notions of white space and line, as str::trim and str::lines use them. */
module RustText {
  import opened Text

  /** Unicode White_Space. */
  predicate IsWhitespace(c: char) {
    '\U{09}' <= c <= '\U{0D}' || c == ' ' || c == '\U{85}' || c == '\U{A0}' || c == '\U{1680}'
    || '\U{2000}' <= c <= '\U{200A}' || c == '\U{2028}' || c == '\U{2029}' || c == '\U{202F}' || c == '\U{205F}'
    || c == '\U{3000}'
  }

  /** The code points with the property White_Space, as the Unicode Character Database lists them. */
  lemma WhitespaceCodes(c: char)
    ensures IsWhitespace(c) <==> 0x9 <= c as int <= 0xD || c as int in {0x20, 0x85, 0xA0, 0x1680} || 0x2000 <= c as int <= 0x200A
                                 || c as int in {0x2028, 0x2029, 0x202F, 0x205F, 0x3000}
  {}

  predicate AllWhitespace(s: string) {
    forall i :: 0 <= i < |s| ==> IsWhitespace(s[i])
  }

  predicate NoWhitespace(s: string) {
    forall i :: 0 <= i < |s| ==> !IsWhitespace(s[i])
  }

  // ---------- trimming ----------

  function TrimStart(s: string): string {
    if s != "" && IsWhitespace(s[0]) then TrimStart(s[1..]) else s
  }

  function TrimEnd(s: string): string {
    if s != "" && IsWhitespace(s[|s| - 1]) then TrimEnd(s[..|s| - 1]) else s
  }

  function Trim(s: string): string {
    TrimEnd(TrimStart(s))
  }

  lemma {:induction false} TrimStartMeans(s: string) returns (front: string)
    ensures s == front + TrimStart(s) && AllWhitespace(front)
    ensures TrimStart(s) != "" ==> !IsWhitespace(TrimStart(s)[0])
  {
    hide IsWhitespace;
    if s != "" && IsWhitespace(s[0]) {
      front := TrimStartMeans(s[1..]);
      front := [s[0]] + front;
    } else {
      front := "";
    }
  }

  lemma {:induction false} TrimEndMeans(s: string) returns (back: string)
    ensures s == TrimEnd(s) + back && AllWhitespace(back)
    ensures var r := TrimEnd(s); r != "" ==> !IsWhitespace(r[|r| - 1])
  {
    hide IsWhitespace;
    if s != "" && IsWhitespace(s[|s| - 1]) {
      back := TrimEndMeans(s[..|s| - 1]);
      back := back + [s[|s| - 1]];
      assert s == s[..|s| - 1] + [s[|s| - 1]];
    } else {
      back := "";
    }
  }

  /** Trimming takes white space off both ends and leaves none there. */
  lemma TrimMeans(s: string) returns (front: string, back: string)
    ensures s == front + Trim(s) + back && AllWhitespace(front) && AllWhitespace(back)
    ensures var r := Trim(s); r != "" ==> !IsWhitespace(r[0]) && !IsWhitespace(r[|r| - 1])
  {
    hide IsWhitespace, TrimStart, TrimEnd, AllWhitespace;
    front := TrimStartMeans(s);
    back := TrimEndMeans(TrimStart(s));
    var r := Trim(s);
    assert r != "" ==> r[0] == TrimStart(s)[0];
  }

  /** A text without white space at its ends is what trimming leaves of it, whatever white space
    * is put around it. */
  predicate IsTrimmed(s: string) {
    s != "" ==> !IsWhitespace(s[0]) && !IsWhitespace(s[|s| - 1])
  }

  lemma {:induction false} TrimStartSkips(front: string, s: string)
    requires AllWhitespace(front)
    ensures TrimStart(front + s) == TrimStart(s)
  {
    hide IsWhitespace;
    if front == "" {
      assert front + s == s;
    } else {
      assert (front + s)[1..] == front[1..] + s;
      TrimStartSkips(front[1..], s);
    }
  }

  lemma {:induction false} TrimEndSkips(s: string, back: string)
    requires AllWhitespace(back)
    ensures TrimEnd(s + back) == TrimEnd(s)
  {
    hide IsWhitespace;
    if back == "" {
      assert s + back == s;
    } else {
      var n := |back| - 1;
      assert (s + back)[..|s + back| - 1] == s + back[..n];
      TrimEndSkips(s, back[..n]);
    }
  }

  lemma TrimAround(front: string, s: string, back: string)
    requires AllWhitespace(front) && AllWhitespace(back) && IsTrimmed(s)
    ensures Trim(front + s + back) == s
  {
    hide IsWhitespace, TrimStart, TrimEnd, AllWhitespace;
    assert front + s + back == front + (s + back);
    TrimStartSkips(front, s + back);
    if s == "" {
      assert s + back == back && back + "" == back;
      TrimStartSkips(back, "");
      Untrimmed("");
    } else {
      Untrimmed(s + back);
      TrimEndSkips(s, back);
      Untrimmed(s);
    }
  }

  lemma Untrimmed(s: string)
    ensures (s == "" || !IsWhitespace(s[0])) ==> TrimStart(s) == s
    ensures (s == "" || !IsWhitespace(s[|s| - 1])) ==> TrimEnd(s) == s
  {}

  // ---------- lines ----------

  /** A line without the carriage return that a line feed leaves behind. */
  function WithoutReturn(line: string): string {
    if EndsWith(line, "\r") then line[..|line| - 1] else line
  }

  lemma {:induction false} TrimStartBlankEnd(s: string, c: char)
    requires IsWhitespace(c)
    ensures TrimStart(s + [c]) == if TrimStart(s) == "" then "" else TrimStart(s) + [c]
  {
    hide IsWhitespace;
    if s == "" {
      assert s + [c] == [c] && [c][1..] == "";
    } else {
      assert (s + [c])[1..] == s[1..] + [c];
      if IsWhitespace(s[0]) {
        TrimStartBlankEnd(s[1..], c);
      }
    }
  }

  /** Trimming takes a carriage return at the end away in any case. */
  lemma ReturnIsTrimmed(line: string)
    ensures Trim(WithoutReturn(line)) == Trim(line)
  {
    hide IsWhitespace, TrimStart;
    if EndsWith(line, "\r") {
      var s := WithoutReturn(line);
      assert line[|line| - 1..] == "\r";
      assert line[|line| - 1] == line[|line| - 1..][0] == '\r';
      assert line == s + ['\r'];
      assert IsWhitespace('\r') by {
        ReturnIsWhitespace();
      }
      TrimStartBlankEnd(s, '\r');
      assert (TrimStart(s) + ['\r'])[..|TrimStart(s)|] == TrimStart(s);
    }
  }

  lemma ReturnIsWhitespace()
    ensures IsWhitespace('\r')
  {}

  /** The lines of pieces that line feeds separate: a final empty piece is no line, and only
    * a piece that a line feed ended can lose a carriage return. */
  function LinesOfPieces(pieces: seq<string>): seq<string>
    requires pieces != []
  {
    if |pieces| == 1 then (if pieces[0] == "" then [] else pieces)
    else [WithoutReturn(pieces[0])] + LinesOfPieces(pieces[1..])
  }

  function Lines(text: string): seq<string> {
    LinesOfPieces(Split(text, '\n'))
  }

  lemma {:induction false} PiecesConcat(a: seq<string>, b: seq<string>)
    requires a != [] && b != []
    ensures LinesOfPieces(a + b) == WithoutReturns(a) + LinesOfPieces(b)
  {
    hide WithoutReturn;
    assert (a + b)[1..] == a[1..] + b;
    if |a| == 1 {
      assert a[1..] + b == b;
      assert WithoutReturns(a) == [WithoutReturn(a[0])];
    } else {
      PiecesConcat(a[1..], b);
      assert WithoutReturns(a) == [WithoutReturn(a[0])] + WithoutReturns(a[1..]);
    }
  }

  function WithoutReturns(pieces: seq<string>): seq<string> {
    seq(|pieces|, i requires 0 <= i < |pieces| => WithoutReturn(pieces[i]))
  }

  lemma {:induction false} SplitAtBreak(a: string, b: string)
    ensures Split(a + "\n" + b, '\n') == Split(a, '\n') + Split(b, '\n')
  {
    JoinConcat(Split(a, '\n'), Split(b, '\n'));
    SplitOfJoin(Split(a, '\n') + Split(b, '\n'), '\n');
  }

  lemma {:induction false} JoinConcat(a: seq<string>, b: seq<string>)
    requires a != [] && b != []
    ensures Join(a + b, "\n") == Join(a, "\n") + "\n" + Join(b, "\n")
  {
    assert (a + b)[1..] == a[1..] + b;
    if |a| == 1 {
      assert a[1..] + b == b;
    } else {
      JoinConcat(a[1..], b);
      assert a[0] + "\n" + (Join(a[1..], "\n") + "\n" + Join(b, "\n"))
          == (a[0] + "\n" + Join(a[1..], "\n")) + "\n" + Join(b, "\n");
    }
  }

  lemma OnePiece(line: string)
    requires '\n' !in line
    ensures Split(line, '\n') == [line]
  {
    assert Join([line], "\n") == line;
    SplitOfJoin([line], '\n');
  }
}

/**
 * `getStringFrom2DimArray`: a grid written as text, one line per row, each
 * line its cells' tokens separated by single spaces and ended by a newline.
 * How a cell becomes a token (Swift's `String(Float)`) is the parameter
 * `show`. A reader, `Parse`, splits such text back into tokens.
 */
module GridText {

  /** The tokens joined with `sep` between neighbours (none before the first or after the last). */
  function Join(ts: seq<string>, sep: char): string {
    if |ts| == 0 then "" else if |ts| == 1 then ts[0] else ts[0] + [sep] + Join(ts[1..], sep)
  }

  /** Position of the first `c` in `s`, or `|s|` if there is none. */
  function FirstIndex(s: string, c: char): (i: nat)
    ensures i <= |s|
    ensures forall j :: 0 <= j < i ==> s[j] != c
    ensures i < |s| ==> s[i] == c
  {
    if s == [] then 0 else if s[0] == c then 0 else 1 + FirstIndex(s[1..], c)
  }

  /** The pieces of `s` between occurrences of `sep`; always at least one piece. */
  function Split(s: string, sep: char): (ts: seq<string>)
    ensures |ts| >= 1
    decreases |s|
  {
    var i := FirstIndex(s, sep);
    if i == |s| then [s] else [s[..i]] + Split(s[i + 1..], sep)
  }

  /** Each line followed by a newline. */
  function Lines(ls: seq<string>): string {
    if ls == [] then "" else ls[0] + "\n" + Lines(ls[1..])
  }

  /** Cuts text into newline-terminated lines; trailing text without a newline is a last line. */
  function SplitLines(s: string): seq<string>
    decreases |s|
  {
    if s == [] then []
    else
      var i := FirstIndex(s, '\n');
      if i == |s| then [s] else [s[..i]] + SplitLines(s[i + 1..])
  }

  predicate Free(t: string, c: char) {
    forall i :: 0 <= i < |t| ==> t[i] != c
  }

  lemma FirstIndexAfter(a: string, c: char, b: string)
    requires Free(a, c)
    ensures FirstIndex(a + [c] + b, c) == |a|
  {
    var s := a + [c] + b;
    var i := FirstIndex(s, c);
    assert s[|a|] == c;
    assert forall j :: 0 <= j < |a| ==> s[j] == a[j];
  }

  /** The two sides of a separator. */
  lemma Around(a: string, c: char, b: string)
    ensures (a + [c] + b)[..|a|] == a
    ensures (a + [c] + b)[|a| + 1..] == b
  {
  }

  lemma {:induction false} JoinFree(ts: seq<string>, sep: char, c: char)
    requires c != sep
    requires forall k :: 0 <= k < |ts| ==> Free(ts[k], c)
    ensures Free(Join(ts, sep), c)
    decreases |ts|
  {
    if |ts| > 1 {
      JoinFree(ts[1..], sep, c);
    }
  }

  /** Splitting undoes joining, provided no token contains the separator. */
  lemma {:induction false} SplitJoin(ts: seq<string>, sep: char)
    requires |ts| >= 1
    requires forall k :: 0 <= k < |ts| ==> Free(ts[k], sep)
    ensures Split(Join(ts, sep), sep) == ts
    decreases |ts|
  {
    var s := Join(ts, sep);
    if |ts| == 1 {
      assert FirstIndex(s, sep) == |s|;
    } else {
      var rest := Join(ts[1..], sep);
      FirstIndexAfter(ts[0], sep, rest);
      Around(ts[0], sep, rest);
      assert Split(s, sep) == [ts[0]] + Split(rest, sep);
      assert forall k :: 0 <= k < |ts[1..]| ==> ts[1..][k] == ts[k + 1];
      SplitJoin(ts[1..], sep);
      assert ts == [ts[0]] + ts[1..];
    }
  }

  /** Cutting into lines undoes `Lines`, provided no line contains a newline. */
  lemma {:induction false} SplitLinesOfLines(ls: seq<string>)
    requires forall k :: 0 <= k < |ls| ==> Free(ls[k], '\n')
    ensures SplitLines(Lines(ls)) == ls
    decreases |ls|
  {
    if ls != [] {
      var s, rest := Lines(ls), Lines(ls[1..]);
      assert s == ls[0] + ['\n'] + rest;
      FirstIndexAfter(ls[0], '\n', rest);
      Around(ls[0], '\n', rest);
      assert SplitLines(s) == [ls[0]] + SplitLines(rest);
      assert forall k :: 0 <= k < |ls[1..]| ==> ls[1..][k] == ls[k + 1];
      SplitLinesOfLines(ls[1..]);
      assert ls == [ls[0]] + ls[1..];
    }
  }

  lemma {:induction false} JoinSnoc(ts: seq<string>, t: string, sep: char)
    requires |ts| >= 1
    ensures Join(ts + [t], sep) == Join(ts, sep) + [sep] + t
    decreases |ts|
  {
    if |ts| > 1 {
      JoinSnoc(ts[1..], t, sep);
      assert (ts + [t])[1..] == ts[1..] + [t];
    } else {
      assert (ts + [t])[1..] == [t];
    }
  }

  lemma {:induction false} LinesSnoc(ls: seq<string>, l: string)
    ensures Lines(ls + [l]) == Lines(ls) + l + "\n"
    decreases |ls|
  {
    if ls == [] {
      assert Lines([l]) == l + "\n" + Lines([]);
    } else {
      LinesSnoc(ls[1..], l);
      assert (ls + [l])[1..] == ls[1..] + [l];
    }
  }

  /** The first `height` rows of `grid` hold at least `width` cells each. */
  predicate Covers<T>(grid: seq<seq<T>>, height: nat, width: nat) {
    |grid| >= height && forall y :: 0 <= y < height ==> |grid[y]| >= width
  }

  /** The tokens of the first `width` cells of a row. */
  function RowTokens<T>(row: seq<T>, width: nat, show: T -> string): (tk: seq<string>)
    requires |row| >= width
    ensures |tk| == width
    ensures forall x :: 0 <= x < width ==> tk[x] == show(row[x])
  {
    seq(width, x requires 0 <= x < width => show(row[x]))
  }

  /** The tokens of the first `width` cells of the first `height` rows. */
  function Tokens<T>(grid: seq<seq<T>>, height: nat, width: nat, show: T -> string): (tk: seq<seq<string>>)
    requires Covers(grid, height, width)
    ensures |tk| == height
    ensures forall y :: 0 <= y < height ==> tk[y] == RowTokens(grid[y], width, show)
  {
    seq(height, y requires 0 <= y < height => RowTokens(grid[y], width, show))
  }

  /** Row `y`'s tokens joined by single spaces. */
  function RowLines<T>(grid: seq<seq<T>>, height: nat, width: nat, show: T -> string): (ls: seq<string>)
    requires Covers(grid, height, width)
    ensures |ls| == height
    ensures forall y :: 0 <= y < height ==> ls[y] == Join(RowTokens(grid[y], width, show), ' ')
  {
    seq(height, y requires 0 <= y < height => Join(RowTokens(grid[y], width, show), ' '))
  }

  /** The text of the grid: one newline-terminated line per row. */
  function Render<T>(grid: seq<seq<T>>, height: nat, width: nat, show: T -> string): string
    requires Covers(grid, height, width)
  {
    Lines(RowLines(grid, height, width, show))
  }

  /** Reads grid text back into rows of tokens. */
  function Parse(s: string): seq<seq<string>> {
    var ls := SplitLines(s);
    seq(|ls|, y requires 0 <= y < |ls| => Split(ls[y], ' '))
  }

  /**
   * The inner loop of `getStringFrom2DimArray` over `0...width-1`: each
   * token, then a space unless it was the last. The range traps in Swift
   * when `width` is 0.
   */
  method RowString<T>(row: seq<T>, width: nat, show: T -> string) returns (lineStr: string)
    requires width >= 1 && |row| >= width
    ensures lineStr == Join(RowTokens(row, width, show), ' ')
  {
    ghost var tk := RowTokens(row, width, show);
    lineStr := "";
    var x := 0;
    while x < width
      invariant x <= width
      invariant x == 0 ==> lineStr == ""
      invariant x > 0 ==> lineStr == Join(tk[..x], ' ') + (if x < width then " " else "")
    {
      var token := show(row[x]);
      if x > 0 {
        JoinSnoc(tk[..x], token, ' ');
        assert tk[..x + 1] == tk[..x] + [token];
      } else {
        assert tk[..1] == [token];
      }
      lineStr := lineStr + token;
      if x != width - 1 {
        lineStr := lineStr + " ";
      }
      x := x + 1;
    }
    assert tk[..width] == tk;
  }

  /**
   * `getStringFrom2DimArray`: the outer loop over `0...height-1`, which
   * traps in Swift when `height` is 0, appending each row's line and a
   * newline.
   */
  method GetStringFrom2DimArray<T>(grid: seq<seq<T>>, height: nat, width: nat, show: T -> string)
    returns (arrayStr: string)
    requires height >= 1 && width >= 1
    requires Covers(grid, height, width)
    ensures arrayStr == Render(grid, height, width, show)
  {
    ghost var rows := RowLines(grid, height, width, show);
    arrayStr := "";
    var y := 0;
    while y < height
      invariant y <= height
      invariant arrayStr == Lines(rows[..y])
    {
      var lineStr := RowString(grid[y], width, show);
      lineStr := lineStr + "\n";
      LinesSnoc(rows[..y], rows[y]);
      assert rows[..y + 1] == rows[..y] + [rows[y]];
      arrayStr := arrayStr + lineStr;
      y := y + 1;
    }
    assert rows[..height] == rows;
  }

  /** No token of the covered cells contains a space or a newline. */
  predicate Plain<T>(grid: seq<seq<T>>, height: nat, width: nat, show: T -> string)
    requires Covers(grid, height, width)
  {
    forall y, x :: 0 <= y < height && 0 <= x < width ==> Free(show(grid[y][x]), ' ') && Free(show(grid[y][x]), '\n')
  }

  /**
   * The text has exactly `height` lines of exactly `width` tokens each, and
   * reads back to the tokens it was written from.
   */
  lemma ParseRender<T>(grid: seq<seq<T>>, height: nat, width: nat, show: T -> string)
    requires width >= 1
    requires Covers(grid, height, width)
    requires Plain(grid, height, width, show)
    ensures Parse(Render(grid, height, width, show)) == Tokens(grid, height, width, show)
  {
    var tk := Tokens(grid, height, width, show);
    var rows := RowLines(grid, height, width, show);
    forall y | 0 <= y < height
      ensures Free(rows[y], '\n') && Split(rows[y], ' ') == tk[y]
    {
      var row := RowTokens(grid[y], width, show);
      assert forall x :: 0 <= x < width ==> Free(row[x], ' ') && Free(row[x], '\n');
      JoinFree(row, ' ', '\n');
      SplitJoin(row, ' ');
    }
    SplitLinesOfLines(rows);
  }

  lemma {:induction false} JoinLast(ts: seq<string>, sep: char)
    requires |ts| >= 1 && |ts[|ts| - 1]| >= 1
    ensures |Join(ts, sep)| >= 1
    ensures Join(ts, sep)[|Join(ts, sep)| - 1] == ts[|ts| - 1][|ts[|ts| - 1]| - 1]
    decreases |ts|
  {
    if |ts| > 1 {
      JoinLast(ts[1..], sep);
    }
  }

  /** The joined text ends with the last token. */
  lemma {:induction false} JoinEnds(ts: seq<string>, sep: char)
    requires |ts| >= 1
    ensures var j, t := Join(ts, sep), ts[|ts| - 1]; |t| <= |j| && j[|j| - |t|..] == t
    decreases |ts|
  {
    if |ts| > 1 {
      var a, b, t := ts[0] + [sep], Join(ts[1..], sep), ts[|ts| - 1];
      JoinEnds(ts[1..], sep);
      assert ts[1..][|ts[1..]| - 1] == t;
      assert Join(ts, sep) == a + b;
      assert (a + b)[|a + b| - |t|..] == b[|b| - |t|..];
    }
  }

  /**
   * Every line ends with the text of its last value, and so, with non-empty
   * tokens, no line ends in a space: the space goes only between tokens.
   */
  lemma NoTrailingSpace<T>(grid: seq<seq<T>>, height: nat, width: nat, show: T -> string)
    requires width >= 1
    requires Covers(grid, height, width)
    requires Plain(grid, height, width, show)
    requires forall y :: 0 <= y < height ==> |show(grid[y][width - 1])| >= 1
    ensures var ls := SplitLines(Render(grid, height, width, show));
      && |ls| == height
      && (forall y :: 0 <= y < height ==>
            var t := show(grid[y][width - 1]); |t| <= |ls[y]| && ls[y][|ls[y]| - |t|..] == t)
      && (forall y :: 0 <= y < height ==> |ls[y]| >= 1 && ls[y][|ls[y]| - 1] != ' ')
  {
    var rows := RowLines(grid, height, width, show);
    forall y | 0 <= y < height
      ensures Free(rows[y], '\n') && |rows[y]| >= 1 && rows[y][|rows[y]| - 1] != ' '
      ensures var t := show(grid[y][width - 1]); |t| <= |rows[y]| && rows[y][|rows[y]| - |t|..] == t
    {
      var row := RowTokens(grid[y], width, show);
      assert forall x :: 0 <= x < width ==> Free(row[x], '\n');
      JoinFree(row, ' ', '\n');
      JoinLast(row, ' ');
      JoinEnds(row, ' ');
      assert Free(row[width - 1], ' ');
    }
    SplitLinesOfLines(rows);
  }

}

/** `Maze.from_file` of maze.py: reads the size `n` from the first line (or
    from the second line when the first is blank), then `n` rows of `n`
    tokens, written either as one run of `n` characters or as
    whitespace-separated tokens. The last "E" is the start (default `(0, 0)`)
    and the last "S" the exit, which must exist. The file is its text;
    `readline` is `ReadLine` on that text. */
module MazeLoad {
  import opened Common
  import opened Moves
  import opened Grid
  import opened PathText

  /** The ValueErrors `from_file` raises. `int(first)` failing is NotAnInteger;
      the row numbers are the loop counter `i`. */
  datatype LoadError =
    | EmptyFile
    | NotAnInteger
    | EndOfFile(row: nat)
    | WrongWidth(row: nat, width: nat)
    | MissingExit

  /** Python's `str.isspace` for one character. */
  predicate IsSpace(ch: char) {
    var c := ch as int;
    || c == 0x20 || 0x09 <= c <= 0x0D || 0x1C <= c <= 0x1F || c == 0x85 || c == 0xA0
    || c == 0x1680 || 0x2000 <= c <= 0x200A || c == 0x2028 || c == 0x2029
    || c == 0x202F || c == 0x205F || c == 0x3000
  }

  /** `f.readline()` at offset `pos`: the text up to and including the next
      newline, or to the end; "" exactly at the end of the file. */
  function ReadLine(text: string, pos: nat): (r: (string, nat))
    requires pos <= |text|
    ensures pos <= r.1 <= |text|
    ensures r.0 == "" <==> pos == |text|
    ensures r.0 != "" ==> pos < r.1
    decreases |text| - pos
  {
    if pos == |text| then ("", pos)
    else if text[pos] == '\n' then ("\n", pos + 1)
    else
      var (rest, end) := ReadLine(text, pos + 1);
      ([text[pos]] + rest, end)
  }

  /** `s.lstrip()`: the suffix left after dropping leading whitespace. */
  function StripLeft(s: string): string {
    if |s| > 0 && IsSpace(s[0]) then StripLeft(s[1..]) else s
  }

  /** `s.rstrip()`: the prefix left after dropping trailing whitespace. */
  function StripRight(s: string): string {
    if |s| > 0 && IsSpace(s[|s| - 1]) then StripRight(s[..|s| - 1]) else s
  }

  /** `s.strip()`. */
  function Strip(s: string): string {
    StripRight(StripLeft(s))
  }

  /** The text `readline` returns runs from `pos` to the first newline,
      which it includes, or to the end of the text. */
  lemma {:induction false} ReadLineProperties(text: string, pos: nat)
    requires pos <= |text|
    ensures var (line, end) := ReadLine(text, pos);
      && line == text[pos..end]
      && (forall k :: pos <= k < end - 1 ==> text[k] != '\n')
      && (end == |text| || text[end - 1] == '\n')
    decreases |text| - pos
  {
    if pos < |text| && text[pos] != '\n' {
      ReadLineProperties(text, pos + 1);
    }
  }

  /** `lstrip()` drops exactly the leading whitespace. */
  lemma {:induction false} StripLeftProperties(s: string)
    ensures var r := StripLeft(s);
      && |r| <= |s| && r == s[|s| - |r|..]
      && (forall k :: 0 <= k < |s| - |r| ==> IsSpace(s[k]))
      && (|r| == 0 || !IsSpace(r[0]))
    decreases |s|
  {
    if |s| > 0 && IsSpace(s[0]) {
      StripLeftProperties(s[1..]);
    }
  }

  /** `rstrip()` drops exactly the trailing whitespace. */
  lemma {:induction false} StripRightProperties(s: string)
    ensures var r := StripRight(s);
      && |r| <= |s| && r == s[..|r|]
      && (forall k :: |r| <= k < |s| ==> IsSpace(s[k]))
      && (|r| == 0 || !IsSpace(r[|r| - 1]))
    decreases |s|
  {
    if |s| > 0 && IsSpace(s[|s| - 1]) {
      StripRightProperties(s[..|s| - 1]);
    }
  }

  /** `strip()` keeps a slice of the text, drops only whitespace, and leaves
      no whitespace at either end. */
  lemma StripProperties(s: string)
    ensures exists a, b :: (0 <= a <= b <= |s| && Strip(s) == s[a..b]
                            && forall k :: 0 <= k < a || b <= k < |s| ==> IsSpace(s[k]))
    ensures |Strip(s)| == 0 || (!IsSpace(Strip(s)[0]) && !IsSpace(Strip(s)[|Strip(s)| - 1]))
  {
    var l := StripLeft(s);
    StripLeftProperties(s);
    StripRightProperties(l);
    var r := StripRight(l);
    var a := |s| - |l|;
    assert r == s[a..a + |r|];
    if |r| > 0 {
      assert r[0] == l[0];
    }
  }

  /** `s.split()`: the maximal runs of non-whitespace characters. */
  function SplitWhitespace(s: string): (tokens: seq<string>)
    ensures |s| >= 1 && !IsSpace(s[0]) ==> |tokens| >= 1
  {
    if |s| == 0 then []
    else if IsSpace(s[0]) then SplitWhitespace(s[1..])
    else
      var rest := SplitWhitespace(s[1..]);
      if |s| >= 2 && !IsSpace(s[1]) then [[s[0]] + rest[0]] + rest[1..]
      else [[s[0]]] + rest
  }

  /** The characters of `s` that are not whitespace. */
  function NonSpace(s: string): string {
    if |s| == 0 then ""
    else if IsSpace(s[0]) then NonSpace(s[1..])
    else [s[0]] + NonSpace(s[1..])
  }

  function Concat(tokens: seq<string>): string {
    if |tokens| == 0 then "" else tokens[0] + Concat(tokens[1..])
  }

  /** `split()` loses only whitespace: the tokens hold none, and run together
      they give the non-whitespace characters in order; a text without
      whitespace is one token. */
  lemma {:induction false} SplitWhitespaceProperties(s: string)
    ensures forall t :: t in SplitWhitespace(s) ==> |t| >= 1
    ensures Concat(SplitWhitespace(s)) == NonSpace(s)
    ensures forall t, k :: t in SplitWhitespace(s) && 0 <= k < |t| ==> !IsSpace(t[k])
    ensures |s| >= 1 && (forall k :: 0 <= k < |s| ==> !IsSpace(s[k])) ==> SplitWhitespace(s) == [s]
    decreases |s|
  {
    if |s| > 0 {
      SplitWhitespaceProperties(s[1..]);
      var rest := SplitWhitespace(s[1..]);
      if !IsSpace(s[0]) {
        if |s| >= 2 && !IsSpace(s[1]) {
          assert rest == [rest[0]] + rest[1..];
          assert Concat(rest) == rest[0] + Concat(rest[1..]);
          assert Concat(SplitWhitespace(s)) == [s[0]] + rest[0] + Concat(rest[1..]);
          forall t, k | t in SplitWhitespace(s) && 0 <= k < |t|
            ensures !IsSpace(t[k])
          {
            if t != [s[0]] + rest[0] {
              assert t in rest;
            } else if k > 0 {
              assert t[k] == rest[0][k - 1];
              assert rest[0] in rest;
            }
          }
          if forall k :: 0 <= k < |s| ==> !IsSpace(s[k]) {
            assert [s[0]] + s[1..] == s;
          }
        } else {
          assert Concat(SplitWhitespace(s)) == [s[0]] + Concat(rest);
          if |s| == 1 {
            assert rest == [];
            assert [s[0]] == s;
          }
        }
      }
    }
  }

  /** A non-whitespace character in front of tokens: it joins the first token
      when that one continues it, and is a token of its own otherwise. */
  function Glue(c: char, tokens: seq<string>, joins: bool): seq<string>
    requires joins ==> |tokens| >= 1
  {
    if joins then [[c] + tokens[0]] + tokens[1..] else [[c]] + tokens
  }

  /** One step of `split()` on a text starting with a non-whitespace character. */
  lemma SplitCons(c: char, t: string)
    requires !IsSpace(c)
    ensures |t| >= 1 && !IsSpace(t[0]) ==> |SplitWhitespace(t)| >= 1
    ensures SplitWhitespace([c] + t) == Glue(c, SplitWhitespace(t), |t| >= 1 && !IsSpace(t[0]))
  {
    assert ([c] + t)[1..] == t;
  }

  lemma GlueAppend(c: char, xs: seq<string>, ys: seq<string>, joins: bool)
    requires joins ==> |xs| >= 1
    ensures Glue(c, xs + ys, joins) == Glue(c, xs, joins) + ys
  {
    if joins {
      assert (xs + ys)[1..] == xs[1..] + ys;
    }
  }

  /** `split()` breaks exactly at whitespace: a whitespace character between
      two texts splits them into the tokens of each, so (with the empty text
      giving no token and a text without whitespace giving itself) the tokens
      are the maximal non-whitespace runs. */
  lemma {:induction false} SplitAtSpace(a: string, w: char, b: string)
    requires IsSpace(w)
    ensures SplitWhitespace(a + [w] + b) == SplitWhitespace(a) + SplitWhitespace(b)
    ensures SplitWhitespace("") == []
    decreases |a|
  {
    if |a| == 0 {
      assert a + [w] + b == [w] + b;
      assert ([w] + b)[1..] == b;
    } else {
      var t := a[1..] + [w] + b;
      assert a + [w] + b == [a[0]] + t;
      assert a == [a[0]] + a[1..];
      SplitAtSpace(a[1..], w, b);
      if IsSpace(a[0]) {
        assert ([a[0]] + t)[1..] == t;
        assert ([a[0]] + a[1..])[1..] == a[1..];
      } else {
        var joins := |a| >= 2 && !IsSpace(a[1]);
        assert t[0] == (if |a| >= 2 then a[1] else w);
        SplitCons(a[0], t);
        SplitCons(a[0], a[1..]);
        GlueAppend(a[0], SplitWhitespace(a[1..]), SplitWhitespace(b), joins);
      }
    }
  }

  /** `list(token)`: one string per character. */
  function Chars(t: string): (r: seq<string>)
    ensures |r| == |t| && forall k :: 0 <= k < |t| ==> r[k] == [t[k]]
  {
    seq(|t|, k requires 0 <= k < |t| => [t[k]])
  }

  /** `list(token)` splits a token into one-character strings that run
      together give the token back. */
  lemma {:induction false} CharsProperties(t: string)
    ensures Concat(Chars(t)) == t
    ensures forall k :: 0 <= k < |Chars(t)| ==> |Chars(t)[k]| == 1
    decreases |t|
  {
    if |t| > 0 {
      CharsProperties(t[1..]);
      CharsCons(t);
      assert Concat(Chars(t)) == [t[0]] + Concat(Chars(t)[1..]);
      assert [t[0]] + t[1..] == t;
    }
  }

  lemma CharsCons(t: string)
    requires |t| > 0
    ensures Chars(t)[0] == [t[0]] && Chars(t)[1..] == Chars(t[1..])
  {
    var a, b := Chars(t)[1..], Chars(t[1..]);
    assert |a| == |b|;
    forall k | 0 <= k < |a|
      ensures a[k] == b[k]
    {
      assert a[k] == [t[k + 1]];
    }
  }

  /** The row a stripped line gives: its characters when it is one token of
      exactly `n` characters, its whitespace-separated tokens otherwise. */
  function RowOf(line: string, n: int): seq<string> {
    var tokens := SplitWhitespace(line);
    if |tokens| == 1 && |tokens[0]| == n then Chars(tokens[0]) else tokens
  }

  /** `int(s)` on a stripped text: an optional sign and at least one digit. */
  function IntLiteral(s: string): Option<int> {
    if |s| >= 2 && s[0] == '-' && AllDigits(s[1..]) then Some(-(DigitsValue(s[1..]) as int))
    else if |s| >= 2 && s[0] == '+' && AllDigits(s[1..]) then Some(DigitsValue(s[1..]))
    else if |s| >= 1 && AllDigits(s) then Some(DigitsValue(s))
    else None
  }

  /** The first line (or the second, when the first is blank) read as `n`,
      and the offset after it. */
  function Header(text: string): Result<(int, nat), LoadError> {
    var (first, p1) := ReadLine(text, 0);
    if first == "" then Err(EmptyFile)
    else
      var (s, p) := if Strip(first) != "" then (Strip(first), p1)
                    else var (second, p2) := ReadLine(text, p1); (Strip(second), p2);
      match IntLiteral(s)
      case None => Err(NotAnInteger)
      case Some(n) => Ok((n, p))
  }

  /** The header ends inside the text. */
  lemma ReadLinesEnd(text: string, n: int, h: nat)
    requires Header(text) == Ok((n, h))
    ensures h <= |text|
  {
  }

  /** A row read by the loop, with the loop counter `i` it was read at (the
      row index `from_file` gives its "E" and "S"). */
  type Tagged = (nat, seq<string>)

  /** The last index holding `tok` in a row. */
  function LastInRow(row: seq<string>, tok: string): (j: Option<nat>)
    ensures j.Some? ==> j.value < |row| && row[j.value] == tok
                        && forall k :: j.value < k < |row| ==> row[k] != tok
    ensures j.None? <==> forall k :: 0 <= k < |row| ==> row[k] != tok
  {
    if |row| == 0 then None
    else if row[|row| - 1] == tok then Some(|row| - 1)
    else LastInRow(row[..|row| - 1], tok)
  }

  /** The position `from_file` records for `tok` after scanning `row` at
      counter `i`, having recorded `prev` before. */
  function RecordIn(prev: Option<Cell>, i: nat, row: seq<string>, tok: string): Option<Cell> {
    match LastInRow(row, tok)
    case Some(j) => Some((i as int, j as int))
    case None => prev
  }

  /** The last position recorded for `tok` over the rows read. */
  function Locate(rows: seq<Tagged>, tok: string): (p: Option<Cell>)
    ensures p.Some? ==> exists k :: 0 <= k < |rows| && p.value.0 == rows[k].0 && 0 <= p.value.1 < |rows[k].1|
                                   && rows[k].1[p.value.1] == tok
    ensures p.None? <==> forall k, c :: 0 <= k < |rows| && 0 <= c < |rows[k].1| ==> rows[k].1[c] != tok
  {
    if |rows| == 0 then None
    else
      var (i, row) := rows[|rows| - 1];
      RecordIn(Locate(rows[..|rows| - 1], tok), i, row, tok)
  }

  function Rows(tagged: seq<Tagged>): (grid: seq<seq<string>>)
    ensures |grid| == |tagged| && forall k :: 0 <= k < |tagged| ==> grid[k] == tagged[k].1
  {
    seq(|tagged|, k requires 0 <= k < |tagged| => tagged[k].1)
  }

  /** The maze made from the rows read: no "S" raises, no "E" starts at `(0, 0)`. */
  function Build(tagged: seq<Tagged>): Result<Maze, LoadError> {
    match Locate(tagged, "S")
    case None => Err(MissingExit)
    case Some(exit) =>
      var start := match Locate(tagged, "E") case Some(p) => p case None => (0, 0);
      Ok(Maze(Rows(tagged), start, exit))
  }

  /** The row loop `for i in range(n)` as written: a blank line is skipped by
      `i -= 1; continue`, but the assignment to `i` has no effect on the
      `for`, so the blank line uses up one of the `n` iterations. */
  function RowsAsWritten(text: string, pos: nat, n: int, i: nat): Result<seq<Tagged>, LoadError>
    requires pos <= |text|
    decreases n - i
  {
    if i >= n then Ok([])
    else
      var (line, p) := ReadLine(text, pos);
      if line == "" then Err(EndOfFile(i))
      else if Strip(line) == "" then RowsAsWritten(text, p, n, i + 1)
      else
        var row := RowOf(Strip(line), n);
        if |row| != n then Err(WrongWidth(i, |row|))
        else Prepend([(i, row)], RowsAsWritten(text, p, n, i + 1))
  }

  function Prepend(done: seq<Tagged>, r: Result<seq<Tagged>, LoadError>): Result<seq<Tagged>, LoadError> {
    match r
    case Ok(rest) => Ok(done + rest)
    case Err(e) => Err(e)
  }

  /** `Maze.from_file` as written. */
  function LoadAsWritten(text: string): Result<Maze, LoadError> {
    match Header(text)
    case Err(e) => Err(e)
    case Ok((n, p)) =>
      match RowsAsWritten(text, p, n, 0)
      case Err(e) => Err(e)
      case Ok(tagged) => Build(tagged)
  }

  /** The state of the row loop of `FromFile` after the lines before `pos`:
      the header said `n` and ended at `h`; the rows read so far, with their
      counters, are `tagged`, and the rest of the loop, run from counter `i`,
      completes them to what the whole loop gives; `grid`, `start` and `exit`
      hold what the loop has recorded from them. */
  ghost predicate LoopState(text: string, h: nat, n: int, pos: nat, i: nat, tagged: seq<Tagged>,
                            grid: seq<seq<string>>, start: Option<Cell>, exit: Option<Cell>) {
    && Header(text) == Ok((n, h)) && h <= |text| && pos <= |text|
    && RowsAsWritten(text, h, n, 0) == Prepend(tagged, RowsAsWritten(text, pos, n, i))
    && grid == Rows(tagged)
    && start == Locate(tagged, "E") && exit == Locate(tagged, "S")
  }

  lemma LoopStateInitial(text: string, n: int, h: nat)
    requires Header(text) == Ok((n, h)) && h <= |text|
    ensures LoopState(text, h, n, h, 0, [], [], None, None)
  {
    var r := RowsAsWritten(text, h, n, 0);
    if r.Ok? {
      assert [] + r.value == r.value;
    }
  }

  /** A blank line: the counter moves on and nothing is recorded. */
  lemma LoopStateBlank(text: string, h: nat, n: int, pos: nat, i: nat, tagged: seq<Tagged>,
                       grid: seq<seq<string>>, start: Option<Cell>, exit: Option<Cell>)
    requires LoopState(text, h, n, pos, i, tagged, grid, start, exit) && i < n
    requires ReadLine(text, pos).0 != "" && Strip(ReadLine(text, pos).0) == ""
    ensures LoopState(text, h, n, ReadLine(text, pos).1, i + 1, tagged, grid, start, exit)
  {
  }

  /** A row of `n` tokens: it is appended, and its last "E" and "S" (at
      counter `i`) replace the ones recorded before. */
  lemma LoopStateRow(text: string, h: nat, n: int, pos: nat, i: nat, tagged: seq<Tagged>,
                     grid: seq<seq<string>>, start: Option<Cell>, exit: Option<Cell>, row: seq<string>)
    requires LoopState(text, h, n, pos, i, tagged, grid, start, exit) && i < n
    requires ReadLine(text, pos).0 != "" && Strip(ReadLine(text, pos).0) != ""
    requires row == RowOf(Strip(ReadLine(text, pos).0), n) && |row| == n
    ensures LoopState(text, h, n, ReadLine(text, pos).1, i + 1, tagged + [(i, row)], grid + [row],
                      RecordIn(start, i, row, "E"), RecordIn(exit, i, row, "S"))
  {
    var p := ReadLine(text, pos).1;
    RowStep(text, pos, n, i, row);
    PrependAppend(tagged, (i, row), RowsAsWritten(text, p, n, i + 1));
    AppendRow(tagged, (i, row));
  }

  /** One row read by the loop as written. */
  lemma RowStep(text: string, pos: nat, n: int, i: nat, row: seq<string>)
    requires pos <= |text| && i < n
    requires ReadLine(text, pos).0 != "" && Strip(ReadLine(text, pos).0) != ""
    requires row == RowOf(Strip(ReadLine(text, pos).0), n) && |row| == n
    ensures RowsAsWritten(text, pos, n, i) == Prepend([(i, row)], RowsAsWritten(text, ReadLine(text, pos).1, n, i + 1))
  {
  }

  lemma PrependAppend(tagged: seq<Tagged>, x: Tagged, r: Result<seq<Tagged>, LoadError>)
    ensures Prepend(tagged, Prepend([x], r)) == Prepend(tagged + [x], r)
  {
    if r.Ok? {
      assert tagged + ([x] + r.value) == tagged + [x] + r.value;
    }
  }

  /** Appending a row appends it to the grid, and what it records for "E"
      and "S" replaces what the earlier rows recorded. */
  lemma AppendRow(tagged: seq<Tagged>, x: Tagged)
    ensures Rows(tagged + [x]) == Rows(tagged) + [x.1]
    ensures Locate(tagged + [x], "E") == RecordIn(Locate(tagged, "E"), x.0, x.1, "E")
    ensures Locate(tagged + [x], "S") == RecordIn(Locate(tagged, "S"), x.0, x.1, "S")
  {
    assert (tagged + [x])[..|tagged|] == tagged;
  }

  /** A line that ends the loop with an error ends `from_file` with it. */
  lemma LoopStateError(text: string, h: nat, n: int, pos: nat, i: nat, tagged: seq<Tagged>,
                       grid: seq<seq<string>>, start: Option<Cell>, exit: Option<Cell>, e: LoadError)
    requires LoopState(text, h, n, pos, i, tagged, grid, start, exit)
    requires RowsAsWritten(text, pos, n, i) == Err(e)
    ensures LoadAsWritten(text) == Err(e)
  {
  }

  /** After the last iteration the rows read are all the loop gives. */
  lemma LoopStateDone(text: string, h: nat, n: int, pos: nat, i: nat, tagged: seq<Tagged>,
                      grid: seq<seq<string>>, start: Option<Cell>, exit: Option<Cell>)
    requires LoopState(text, h, n, pos, i, tagged, grid, start, exit) && i >= n
    ensures LoadAsWritten(text) == Build(tagged)
  {
    assert tagged + [] == tagged;
  }

  /** The loop `for j, c in enumerate(row)`: the last "E" of the row becomes
      the start and the last "S" the exit, both at row index `i`. */
  method ScanRow(row: seq<string>, i: nat, start0: Option<Cell>, exit0: Option<Cell>)
    returns (start: Option<Cell>, exit: Option<Cell>)
    ensures start == RecordIn(start0, i, row, "E") && exit == RecordIn(exit0, i, row, "S")
  {
    start, exit := start0, exit0;
    for j := 0 to |row|
      invariant start == RecordIn(start0, i, row[..j], "E")
      invariant exit == RecordIn(exit0, i, row[..j], "S")
    {
      assert row[..j + 1][..j] == row[..j];
      if row[j] == "E" {
        start := Some((i, j));
      } else if row[j] == "S" {
        exit := Some((i, j));
      }
    }
    assert row[..|row|] == row;
  }

  /** `Maze.from_file(path)` on the file's text, as written: the loop reads
      the rows, recording the last "E" and "S" at the loop counter. */
  method FromFile(text: string) returns (res: Result<Maze, LoadError>)
    ensures res == LoadAsWritten(text)
  {
    var header := Header(text);
    if header.Err? {
      return Err(header.error);
    }
    var n: int, h: nat := header.value.0, header.value.1;
    ReadLinesEnd(text, n, h);
    var pos := h;
    ghost var tagged: seq<Tagged> := [];
    var grid: seq<seq<string>> := [];
    var start: Option<Cell> := None;
    var exit: Option<Cell> := None;
    var i: nat := 0;
    LoopStateInitial(text, n, h);
    while i < n
      invariant LoopState(text, h, n, pos, i, tagged, grid, start, exit)
      decreases n - i
    {
      var (line, p) := ReadLine(text, pos);
      if line == "" {
        LoopStateError(text, h, n, pos, i, tagged, grid, start, exit, EndOfFile(i));
        return Err(EndOfFile(i));
      }
      var stripped := Strip(line);
      if stripped == "" {
        // `i -= 1` here is overwritten by the next `for` iteration.
        LoopStateBlank(text, h, n, pos, i, tagged, grid, start, exit);
        pos, i := p, i + 1;
        continue;
      }
      var row := RowOf(stripped, n);
      if |row| != n {
        LoopStateError(text, h, n, pos, i, tagged, grid, start, exit, WrongWidth(i, |row|));
        return Err(WrongWidth(i, |row|));
      }
      LoopStateRow(text, h, n, pos, i, tagged, grid, start, exit, row);
      start, exit := ScanRow(row, i, start, exit);
      tagged, grid := tagged + [(i, row)], grid + [row];
      pos, i := p, i + 1;
    }
    LoopStateDone(text, h, n, pos, i, tagged, grid, start, exit);
    if exit.None? {
      return Err(MissingExit);
    }
    if start.None? {
      start := Some((0, 0));
    }
    res := Ok(Maze(grid, start.value, exit.value));
  }

  /** The evidently intended row loop: a blank line is skipped without using
      up a row, so the loop reads `n` rows and row `k` is the `k`-th row. */
  function RowsFixed(text: string, pos: nat, n: int, i: nat): Result<seq<Tagged>, LoadError>
    requires pos <= |text|
    decreases |text| - pos
  {
    if i >= n then Ok([])
    else
      var (line, p) := ReadLine(text, pos);
      if line == "" then Err(EndOfFile(i))
      else if Strip(line) == "" then RowsFixed(text, p, n, i)
      else
        var row := RowOf(Strip(line), n);
        if |row| != n then Err(WrongWidth(i, |row|))
        else Prepend([(i, row)], RowsFixed(text, p, n, i + 1))
  }

  /** `Maze.from_file` with blank lines skipped as intended. */
  function LoadFixed(text: string): Result<Maze, LoadError> {
    match Header(text)
    case Err(e) => Err(e)
    case Ok((n, p)) =>
      match RowsFixed(text, p, n, 0)
      case Err(e) => Err(e)
      case Ok(tagged) => Build(tagged)
  }

  /** The rows a loop from counter `i` should give: one per remaining counter,
      row `k` tagged `i + k`, each of `n` tokens. */
  predicate Shaped(rows: seq<Tagged>, n: int, i: nat) {
    && |rows| == (if n - i < 0 then 0 else n - i)
    && forall k :: 0 <= k < |rows| ==> rows[k].0 == i + k && |rows[k].1| == n
  }

  /** A row of `n` tokens at counter `i` in front of the rows from `i + 1`
      keeps the shape. */
  lemma PrependShaped(i: nat, row: seq<string>, r: Result<seq<Tagged>, LoadError>, n: int)
    requires i < n && |row| == n
    requires r.Ok? ==> Shaped(r.value, n, i + 1)
    requires r != Err(MissingExit)
    ensures Prepend([(i, row)], r).Ok? ==> Shaped(Prepend([(i, row)], r).value, n, i)
    ensures Prepend([(i, row)], r) != Err(MissingExit)
  {
    if r.Ok? {
      var rows := [(i, row)] + r.value;
      assert forall k :: 1 <= k < |rows| ==> rows[k] == r.value[k - 1];
    }
  }

  /** Row `k` of the intended loop's rows is tagged `i + k`, and every row has `n` tokens. */
  lemma {:induction false} RowsFixedShape(text: string, pos: nat, n: int, i: nat)
    requires pos <= |text|
    ensures RowsFixed(text, pos, n, i).Ok? ==> Shaped(RowsFixed(text, pos, n, i).value, n, i)
    ensures RowsFixed(text, pos, n, i) != Err(MissingExit)
    decreases |text| - pos
  {
    if i < n {
      var (line, p) := ReadLine(text, pos);
      if line != "" {
        var stripped := Strip(line);
        if stripped == "" {
          RowsFixedShape(text, p, n, i);
        } else {
          var row := RowOf(stripped, n);
          if |row| == n {
            RowsFixedShape(text, p, n, i + 1);
            PrependShaped(i, row, RowsFixed(text, p, n, i + 1), n);
          }
        }
      }
    }
  }

  /** The rows of the loop as written have `n` tokens each and counters below `n`,
      but there are only `n` minus the number of blank lines of them. */
  lemma {:induction false} RowsAsWrittenShape(text: string, pos: nat, n: int, i: nat)
    requires pos <= |text|
    ensures RowsAsWritten(text, pos, n, i).Ok? ==>
      var rows := RowsAsWritten(text, pos, n, i).value;
      && |rows| <= (if n - i < 0 then 0 else n - i)
      && forall k :: 0 <= k < |rows| ==> i <= rows[k].0 < n && |rows[k].1| == n
    decreases n - i
  {
    if i < n {
      var (line, p) := ReadLine(text, pos);
      if line != "" {
        RowsAsWrittenShape(text, p, n, i + 1);
      }
    }
  }

  /** The loader as written still gives a well-formed maze: at most `n` rows,
      each of `n` tokens, so every row is as long as the grid is tall. */
  lemma LoadAsWrittenWellFormed(text: string)
    ensures LoadAsWritten(text).Ok? ==> LoadAsWritten(text).value.WellFormed()
  {
    if LoadAsWritten(text).Ok? {
      var (n, p) := Header(text).value;
      ReadLinesEnd(text, n, p);
      RowsAsWrittenShape(text, p, n, 0);
      var tagged := RowsAsWritten(text, p, n, 0).value;
      assert LoadAsWritten(text) == Build(tagged);
      var m := LoadAsWritten(text).value;
      assert m.grid == Rows(tagged);
    }
  }

  /** What loading promises, for the intended loop: `n` rows of `n` tokens
      (so the maze is well formed and `n` is its size), an exit inside the
      grid holding "S" with no "S" after it in the same row, and a start that
      holds "E" or, when there is no "E", is `(0, 0)`; MissingExit exactly
      when no row holds "S". */
  lemma LoadFixedProperties(text: string)
    ensures LoadFixed(text).Ok? ==>
      var m := LoadFixed(text).value;
      && Header(text).Ok? && m.N() == (if Header(text).value.0 < 0 then 0 else Header(text).value.0)
      && m.WellFormed() && (forall r :: 0 <= r < m.N() ==> |m.grid[r]| == m.N())
      && m.IsInside(m.exit.0, m.exit.1) && m.grid[m.exit.0][m.exit.1] == "S"
      && (forall c :: m.exit.1 < c < m.N() ==> m.grid[m.exit.0][c] != "S")
      && (m.start == (0, 0) || (m.IsInside(m.start.0, m.start.1) && m.grid[m.start.0][m.start.1] == "E"))
    ensures LoadFixed(text) == Err(MissingExit) <==>
      Header(text).Ok? && RowsFixed(text, Header(text).value.1, Header(text).value.0, 0).Ok?
      && forall r, c :: 0 <= r < |RowsFixed(text, Header(text).value.1, Header(text).value.0, 0).value|
                         && 0 <= c < |RowsFixed(text, Header(text).value.1, Header(text).value.0, 0).value[r].1| ==>
                         RowsFixed(text, Header(text).value.1, Header(text).value.0, 0).value[r].1[c] != "S"
  {
    if Header(text).Ok? {
      var (n, p) := Header(text).value;
      RowsFixedShape(text, p, n, 0);
      if RowsFixed(text, p, n, 0).Ok? {
        var tagged := RowsFixed(text, p, n, 0).value;
        assert LoadFixed(text) == Build(tagged);
        var exit := Locate(tagged, "S");
        if exit.Some? {
          LocateLastInRow(tagged, "S");
        }
      } else {
        assert LoadFixed(text) == Err(RowsFixed(text, p, n, 0).error);
      }
    }
  }

  /** The position `Locate` gives is the last occurrence in its row. */
  lemma {:induction false} LocateLastInRow(rows: seq<Tagged>, tok: string)
    requires forall k :: 0 <= k < |rows| ==> rows[k].0 == k
    requires Locate(rows, tok).Some?
    ensures var (r, c) := Locate(rows, tok).value;
      0 <= r < |rows| && 0 <= c < |rows[r].1| && rows[r].1[c] == tok
      && forall c' :: c < c' < |rows[r].1| ==> rows[r].1[c'] != tok
    decreases |rows|
  {
    var last := rows[|rows| - 1];
    var init := rows[..|rows| - 1];
    if LastInRow(last.1, tok).None? {
      LocateLastInRow(init, tok);
    }
  }

  /** `readline` on a character other than a newline keeps it and reads on. */
  lemma ReadLineCons(text: string, pos: nat)
    requires pos < |text| && text[pos] != '\n'
    ensures ReadLine(text, pos) == ([text[pos]] + ReadLine(text, pos + 1).0, ReadLine(text, pos + 1).1)
  {
  }

  /** The lines of the text `"2\n\nES\n00\n"`. */
  lemma CounterexampleLines(text: string)
    requires text == "2\n\nES\n00\n"
    ensures ReadLine(text, 0) == ("2\n", 2) && ReadLine(text, 2) == ("\n", 3)
    ensures ReadLine(text, 3) == ("ES\n", 6) && ReadLine(text, 6) == ("00\n", 9)
    ensures ReadLine(text, 9) == ("", 9)
  {
    assert text[0] == '2' && text[1] == '\n' && text[2] == '\n';
    assert text[3] == 'E' && text[4] == 'S' && text[5] == '\n';
    assert text[6] == '0' && text[7] == '0' && text[8] == '\n';
    ReadLineCons(text, 0);
    assert ['2'] + "\n" == "2\n";
    ReadLineCons(text, 4);
    ReadLineCons(text, 3);
    assert ['E'] + (['S'] + "\n") == "ES\n";
    ReadLineCons(text, 7);
    ReadLineCons(text, 6);
    assert ['0'] + (['0'] + "\n") == "00\n";
  }

  /** A line holding one word without whitespace strips to the word, and
      the word is a row of its characters. */
  lemma WordLine(w: string)
    requires |w| >= 1 && forall k :: 0 <= k < |w| ==> !IsSpace(w[k])
    ensures Strip(w + "\n") == w
    ensures RowOf(w, |w|) == Chars(w)
  {
    assert (w + "\n")[0] == w[0];
    assert StripLeft(w + "\n") == w + "\n";
    assert (w + "\n")[..|w|] == w;
    assert StripRight(w + "\n") == StripRight(w);
    SplitWhitespaceProperties(w);
  }

  /** The row loops on the text `"2\n\nES\n00\n"` after its header. */
  lemma CounterexampleRows(text: string)
    requires text == "2\n\nES\n00\n"
    ensures RowsAsWritten(text, 2, 2, 0) == Ok([(1, ["E", "S"])])
    ensures RowsFixed(text, 2, 2, 0) == Ok([(0, ["E", "S"]), (1, ["0", "0"])])
  {
    CounterexampleLines(text);
    WordLine("ES");
    WordLine("00");
    assert Strip("\n") == "" by {
      assert "\n"[1..] == "";
    }
    assert Chars("ES") == ["E", "S"] && Chars("00") == ["0", "0"];
    assert RowOf("ES", 2) == ["E", "S"] && RowOf("00", 2) == ["0", "0"];
    assert RowsAsWritten(text, 6, 2, 2) == Ok([]) && RowsFixed(text, 9, 2, 2) == Ok([]);
    assert [(1, ["E", "S"])] + [] == [(1, ["E", "S"])];
    assert [(1, ["0", "0"])] + [] == [(1, ["0", "0"])];
    assert RowsAsWritten(text, 3, 2, 1) == Ok([(1, ["E", "S"])]);
    assert RowsFixed(text, 6, 2, 1) == Ok([(1, ["0", "0"])]);
    assert [(0, ["E", "S"])] + [(1, ["0", "0"])] == [(0, ["E", "S"]), (1, ["0", "0"])];
    assert RowsFixed(text, 3, 2, 0) == Ok([(0, ["E", "S"]), (1, ["0", "0"])]);
  }

  /** A blank line inside the rows (`"2\n\nES\n00\n"`): as written the blank
      line uses up the first of the two iterations, so only the row "ES" is
      read, at counter 1, and the maze has one row while its start `(1, 0)`
      and exit `(1, 1)` lie outside it. The intended loop reads both rows. */
  lemma BlankLineCounterexample()
    ensures LoadAsWritten("2\n\nES\n00\n") == Ok(Maze([["E", "S"]], (1, 0), (1, 1)))
    ensures !LoadAsWritten("2\n\nES\n00\n").value.IsInside(1, 1)
    ensures LoadFixed("2\n\nES\n00\n") == Ok(Maze([["E", "S"], ["0", "0"]], (0, 0), (0, 1)))
  {
    var text := "2\n\nES\n00\n";
    CounterexampleHeader(text);
    CounterexampleRows(text);
    CounterexampleBuild();
  }

  /** The header of `"2\n\nES\n00\n"` says 2 and ends after the first line. */
  lemma CounterexampleHeader(text: string)
    requires text == "2\n\nES\n00\n"
    ensures Header(text) == Ok((2, 2))
  {
    CounterexampleLines(text);
    WordLine("2");
    assert IntLiteral("2") == Some(2);
  }

  /** The mazes built from the rows each loop reads on `"2\n\nES\n00\n"`. */
  lemma CounterexampleBuild()
    ensures Build([(1, ["E", "S"])]) == Ok(Maze([["E", "S"]], (1, 0), (1, 1)))
    ensures Build([(0, ["E", "S"]), (1, ["0", "0"])]) == Ok(Maze([["E", "S"], ["0", "0"]], (0, 0), (0, 1)))
  {
    var es, zeros := ["E", "S"], ["0", "0"];
    assert LastInRow(es, "S") == Some(1);
    assert es[..1] == ["E"] && LastInRow(es, "E") == Some(0);
    assert zeros[..1] == ["0"] && LastInRow(zeros, "E").None? && LastInRow(zeros, "S").None?;
    var written, fixed := [(1, es)], [(0, es), (1, zeros)];
    assert written[..0] == [] && fixed[..1] == [(0, es)];
    assert Rows(written) == [es] && Rows(fixed) == [es, zeros];
  }
}

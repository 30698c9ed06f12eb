/** The textual form of a path: Python's `str` of an int, the cell token
    `(r,c)`, `GeneticSolver._format_path` (tokens run together) and
    `format_path_with_spaces` (tokens separated by single spaces). Each format
    comes with a decoder and a proof that decoding gives the path back. */
module PathText {
  import opened Common
  import opened Moves

  predicate IsDigit(ch: char) {
    '0' <= ch <= '9'
  }

  predicate AllDigits(s: string) {
    forall i :: 0 <= i < |s| ==> IsDigit(s[i])
  }

  function DigitChar(d: nat): (ch: char)
    requires d < 10
    ensures IsDigit(ch) && (ch as int) - ('0' as int) == d
  {
    (('0' as int) + d) as char
  }

  /** The number a string of decimal digits denotes (most significant first). */
  function DigitsValue(s: string): nat
    requires AllDigits(s)
  {
    if |s| == 0 then 0
    else 10 * DigitsValue(s[..|s| - 1]) + ((s[|s| - 1] as int) - ('0' as int))
  }

  /** `str(n)` for a non-negative int: its decimal digits, no leading zero. */
  function NatToString(n: nat): (s: string)
    ensures |s| >= 1
    decreases n
  {
    if n < 10 then [DigitChar(n)]
    else NatToString(n / 10) + [DigitChar(n % 10)]
  }

  /** `str(i)`: a minus sign before the digits of a negative int. */
  function IntToString(i: int): string {
    if i < 0 then "-" + NatToString(-i) else NatToString(i)
  }

  /** Reads an optional minus sign followed by at least one digit. */
  function ParseInt(s: string): Option<int> {
    if |s| >= 2 && s[0] == '-' && AllDigits(s[1..]) then Some(-(DigitsValue(s[1..]) as int))
    else if |s| >= 1 && AllDigits(s) then Some(DigitsValue(s))
    else None
  }

  /** `str(n)` is decimal digits that denote `n`, and only 0 is written with a
      leading 0. */
  lemma {:induction false} NatToStringRoundTrip(n: nat)
    ensures AllDigits(NatToString(n)) && DigitsValue(NatToString(n)) == n
    ensures NatToString(n)[0] == '0' ==> n == 0
    decreases n
  {
    var s := NatToString(n);
    if n >= 10 {
      NatToStringRoundTrip(n / 10);
      assert s[..|s| - 1] == NatToString(n / 10);
      assert s[0] == NatToString(n / 10)[0];
    }
  }

  /** `str` of any int reads back as that int; the text holds no comma, space
      or parenthesis. */
  lemma IntToStringRoundTrip(i: int)
    ensures ParseInt(IntToString(i)) == Some(i)
    ensures forall k :: 0 <= k < |IntToString(i)| ==> IntToString(i)[k] !in {',', ' ', '(', ')'}
  {
    var s := IntToString(i);
    if i < 0 {
      NatToStringRoundTrip(-i);
      assert s[1..] == NatToString(-i);
    } else {
      NatToStringRoundTrip(i);
    }
  }

  /** Python's `sep.join(parts)`. */
  function Join(parts: seq<string>, sep: string): string {
    if |parts| == 0 then ""
    else if |parts| == 1 then parts[0]
    else parts[0] + sep + Join(parts[1..], sep)
  }

  /** Python's `s.split(sep)` for a one-character separator: the pieces between
      separators, always at least one (`"".split(",") == [""]`). */
  function Split(s: string, sep: char): (parts: seq<string>)
    ensures |parts| >= 1
  {
    if |s| == 0 then [""]
    else
      var rest := Split(s[1..], sep);
      if s[0] == sep then [""] + rest
      else [[s[0]] + rest[0]] + rest[1..]
  }

  /** A text without the separator splits into itself, and splitting at the
      first separator splits off exactly the text before it. */
  lemma {:induction false} SplitAtFirst(t: string, rest: string, sep: char)
    requires forall k :: 0 <= k < |t| ==> t[k] != sep
    ensures Split(t, sep) == [t]
    ensures Split(t + [sep] + rest, sep) == [t] + Split(rest, sep)
    decreases |t|
  {
    if |t| > 0 {
      SplitAtFirst(t[1..], rest, sep);
      assert (t + [sep] + rest)[1..] == t[1..] + [sep] + rest;
      assert [t[0]] + t[1..] == t;
    } else {
      assert t + [sep] + rest == [sep] + rest;
    }
  }

  /** Splitting at a separator that no part contains undoes joining with it. */
  lemma {:induction false} SplitJoin(parts: seq<string>, sep: char)
    requires |parts| >= 1
    requires forall p, k :: p in parts && 0 <= k < |p| ==> p[k] != sep
    ensures Split(Join(parts, [sep]), sep) == parts
    decreases |parts|
  {
    SplitAtFirst(parts[0], "", sep);
    if |parts| >= 2 {
      assert parts[0] in parts;
      SplitAtFirst(parts[0], Join(parts[1..], [sep]), sep);
      SplitJoin(parts[1..], sep);
      assert parts == [parts[0]] + parts[1..];
    }
  }

  /** The part of a cell token before its closing parenthesis: `(r,c`. */
  function OpenToken(c: Cell): string {
    "(" + IntToString(c.0) + "," + IntToString(c.1)
  }

  /** `f"({r},{c})"`. */
  function CellToken(c: Cell): string {
    OpenToken(c) + ")"
  }

  /** The cell tokens of a path, in order. */
  function Tokens(path: seq<Cell>): (ts: seq<string>)
    ensures |ts| == |path|
  {
    if |path| == 0 then [] else [CellToken(path[0])] + Tokens(path[1..])
  }

  /** `GeneticSolver._format_path`: the cell tokens run together. */
  function FormatPath(path: seq<Cell>): string {
    Join(Tokens(path), "")
  }

  /** `format_path_with_spaces`: the cell tokens separated by single spaces. */
  function FormatPathWithSpaces(path: seq<Cell>): string {
    Join(Tokens(path), " ")
  }

  /** Reads one token `(r,c)`. */
  function ParseCell(t: string): Option<Cell> {
    if |t| >= 2 && t[0] == '(' && t[|t| - 1] == ')' then
      var parts := Split(t[1..|t| - 1], ',');
      if |parts| == 2 then
        match (ParseInt(parts[0]), ParseInt(parts[1]))
        case (Some(r), Some(c)) => Some((r, c))
        case _ => None
      else None
    else None
  }

  function ParseCells(ts: seq<string>): Option<seq<Cell>> {
    if |ts| == 0 then Some([])
    else
      match (ParseCell(ts[0]), ParseCells(ts[1..]))
      case (Some(c), Some(cs)) => Some([c] + cs)
      case _ => None
  }

  /** Reads the output of `format_path_with_spaces`. */
  function ParseSpaced(s: string): Option<seq<Cell>> {
    if |s| == 0 then Some([]) else ParseCells(Split(s, ' '))
  }

  /** Reads the output of `_format_path`: cut after every `)`. */
  function ParseRunTogether(s: string): Option<seq<Cell>> {
    var parts := Split(s, ')');
    if parts[|parts| - 1] == "" then
      ParseCells(seq(|parts| - 1, i requires 0 <= i < |parts| - 1 => parts[i] + ")"))
    else None
  }

  /** A text `(a,b)` whose parts hold no comma and read as ints reads as
      the cell of those ints. */
  lemma ParseCellOf(a: string, b: string)
    requires forall k :: 0 <= k < |a| ==> a[k] != ','
    requires forall k :: 0 <= k < |b| ==> b[k] != ','
    requires ParseInt(a).Some? && ParseInt(b).Some?
    ensures ParseCell("(" + a + "," + b + ")") == Some((ParseInt(a).value, ParseInt(b).value))
  {
    var t := "(" + a + "," + b + ")";
    assert t[1..|t| - 1] == a + "," + b;
    JoinCons(a, [b], ",");
    SplitJoin([a, b], ',');
  }

  /** The text `(a,b` holds a character only if it is `(`, `,` or one of
      `a` or `b`. */
  lemma OpenTokenChars(a: string, b: string, ch: char)
    requires ch != '(' && ch != ','
    requires forall k :: 0 <= k < |a| ==> a[k] != ch
    requires forall k :: 0 <= k < |b| ==> b[k] != ch
    ensures forall k :: 0 <= k < |"(" + a + "," + b| ==> ("(" + a + "," + b)[k] != ch
  {
  }

  /** A cell token reads back as its cell. */
  lemma CellTokenRoundTrip(c: Cell)
    ensures ParseCell(CellToken(c)) == Some(c)
  {
    var a, b := IntToString(c.0), IntToString(c.1);
    IntToStringRoundTrip(c.0);
    IntToStringRoundTrip(c.1);
    ParseCellOf(a, b);
    assert CellToken(c) == "(" + a + "," + b + ")";
  }

  /** A cell token holds no space. */
  lemma CellTokenHasNoSpace(c: Cell)
    ensures forall k :: 0 <= k < |CellToken(c)| ==> CellToken(c)[k] != ' '
  {
    var a, b := IntToString(c.0), IntToString(c.1);
    IntToStringRoundTrip(c.0);
    IntToStringRoundTrip(c.1);
    OpenTokenChars(a, b, ' ');
    assert CellToken(c) == ("(" + a + "," + b) + ")";
  }

  /** The opening part of a cell token holds no closing parenthesis. */
  lemma OpenTokenHasNoParen(c: Cell)
    ensures forall k :: 0 <= k < |OpenToken(c)| ==> OpenToken(c)[k] != ')'
  {
    var a, b := IntToString(c.0), IntToString(c.1);
    IntToStringRoundTrip(c.0);
    IntToStringRoundTrip(c.1);
    OpenTokenChars(a, b, ')');
    assert OpenToken(c) == "(" + a + "," + b;
  }

  /** Token `i` is the token of cell `i`. */
  lemma {:induction false} TokensAt(path: seq<Cell>, i: nat)
    requires i < |path|
    ensures Tokens(path)[i] == CellToken(path[i])
    decreases i
  {
    var ts := [CellToken(path[0])] + Tokens(path[1..]);
    assert Tokens(path) == ts;
    if i > 0 {
      TokensAt(path[1..], i - 1);
      assert ts[i] == Tokens(path[1..])[i - 1];
    }
  }

  /** Opening part `i` is that of cell `i`. */
  lemma {:induction false} OpensAt(path: seq<Cell>, i: nat)
    requires i < |path|
    ensures Opens(path)[i] == OpenToken(path[i])
    decreases i
  {
    var os := [OpenToken(path[0])] + Opens(path[1..]);
    assert Opens(path) == os;
    if i > 0 {
      OpensAt(path[1..], i - 1);
      assert os[i] == Opens(path[1..])[i - 1];
    }
  }

  lemma {:induction false} ParseCellsTokens(path: seq<Cell>)
    ensures ParseCells(Tokens(path)) == Some(path)
    decreases |path|
  {
    if |path| > 0 {
      CellTokenRoundTrip(path[0]);
      ParseCellsTokens(path[1..]);
      var ts := [CellToken(path[0])] + Tokens(path[1..]);
      assert Tokens(path) == ts;
      assert ts[0] == CellToken(path[0]) && ts[1..] == Tokens(path[1..]);
      assert path == [path[0]] + path[1..];
    }
  }

  /** `format_path_with_spaces` loses nothing: its text reads back as the
      path, and the empty path gives the empty text. */
  lemma FormatPathWithSpacesRoundTrip(path: seq<Cell>)
    ensures ParseSpaced(FormatPathWithSpaces(path)) == Some(path)
    ensures FormatPathWithSpaces(path) == "" <==> |path| == 0
  {
    ParseCellsTokens(path);
    if |path| > 0 {
      forall p, k | p in Tokens(path) && 0 <= k < |p|
        ensures p[k] != ' '
      {
        var i :| 0 <= i < |path| && p == Tokens(path)[i];
        TokensAt(path, i);
        CellTokenHasNoSpace(path[i]);
      }
      SplitJoin(Tokens(path), ' ');
      if |path| == 1 {
        assert FormatPathWithSpaces(path) == CellToken(path[0]);
      } else {
        assert FormatPathWithSpaces(path) == CellToken(path[0]) + " " + Join(Tokens(path)[1..], " ");
      }
    }
  }

  /** The opening parts `(r,c` of the cell tokens. */
  function Opens(path: seq<Cell>): (os: seq<string>)
    ensures |os| == |path|
  {
    if |path| == 0 then [] else [OpenToken(path[0])] + Opens(path[1..])
  }

  /** The run-together text is the first token followed by the text of the rest. */
  lemma FormatPathCons(path: seq<Cell>)
    requires |path| >= 1
    ensures FormatPath(path) == CellToken(path[0]) + FormatPath(path[1..])
  {
    assert Tokens(path) == [CellToken(path[0])] + Tokens(path[1..]);
    JoinEmptySep(CellToken(path[0]), Tokens(path[1..]));
  }

  /** Joining with the empty separator puts the parts side by side. */
  lemma JoinEmptySep(x: string, rest: seq<string>)
    ensures Join([x] + rest, "") == x + Join(rest, "")
  {
    if |rest| == 0 {
      assert [x] + rest == [x];
    } else {
      JoinCons(x, rest, "");
    }
  }

  /** Joining a part in front of at least one more puts the separator after it. */
  lemma JoinCons(x: string, rest: seq<string>, sep: string)
    requires |rest| >= 1
    ensures Join([x] + rest, sep) == x + sep + Join(rest, sep)
  {
    assert ([x] + rest)[1..] == rest;
  }

  /** Joining the opening parts closed by an empty part with `)` puts `)` after
      the first opening part. */
  lemma JoinOpensCons(path: seq<Cell>)
    requires |path| >= 1
    ensures Join(Opens(path) + [""], ")") == CellToken(path[0]) + Join(Opens(path[1..]) + [""], ")")
  {
    var o := OpenToken(path[0]);
    var rest := Opens(path[1..]) + [""];
    assert Opens(path) + [""] == [o] + rest;
    JoinCons(o, rest, ")");
  }

  /** The run-together text is the opening parts joined with `)` and closed
      by a final `)`. */
  lemma {:induction false} RunTogetherAsJoin(path: seq<Cell>)
    ensures FormatPath(path) == Join(Opens(path) + [""], ")")
    decreases |path|
  {
    if |path| == 0 {
      assert Opens(path) + [""] == [""];
    } else {
      RunTogetherAsJoin(path[1..]);
      FormatPathCons(path);
      JoinOpensCons(path);
    }
  }

  /** `_format_path` loses nothing either: cutting after every `)` gives the
      tokens back, and they read back as the path. */
  lemma FormatPathRoundTrip(path: seq<Cell>)
    ensures ParseRunTogether(FormatPath(path)) == Some(path)
    ensures FormatPath(path) == "" <==> |path| == 0
  {
    var opens := Opens(path);
    RunTogetherAsJoin(path);
    forall p, k | p in opens + [""] && 0 <= k < |p|
      ensures p[k] != ')'
    {
      var i :| 0 <= i < |path| && p == opens[i];
      OpensAt(path, i);
      OpenTokenHasNoParen(path[i]);
    }
    SplitJoin(opens + [""], ')');
    var parts := Split(FormatPath(path), ')');
    assert parts == opens + [""];
    forall i | 0 <= i < |path|
      ensures parts[i] + ")" == Tokens(path)[i]
    {
      OpensAt(path, i);
      TokensAt(path, i);
    }
    assert seq(|parts| - 1, i requires 0 <= i < |parts| - 1 => parts[i] + ")") == Tokens(path);
    ParseCellsTokens(path);
    if |path| > 0 {
      assert FormatPath(path)[|FormatPath(path)| - 1] == ')' by {
        assert |parts| >= 2;
        assert parts[|parts| - 1] == "";
        JoinEndsWithSep(opens + [""], ")");
      }
    }
  }

  /** Joining at least two parts of which the last is empty ends with the separator. */
  lemma {:induction false} JoinEndsWithSep(parts: seq<string>, sep: string)
    requires |parts| >= 2 && parts[|parts| - 1] == "" && |sep| >= 1
    ensures |Join(parts, sep)| >= 1 && Join(parts, sep)[|Join(parts, sep)| - 1] == sep[|sep| - 1]
    decreases |parts|
  {
    if |parts| == 2 {
      assert Join(parts, sep) == parts[0] + sep + "";
    } else {
      JoinEndsWithSep(parts[1..], sep);
    }
  }
}

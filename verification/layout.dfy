/**
  The maze layout text: a header line "<width> <length> " followed by one
  line per row y holding the wall value of every column x, each followed by
  a space. The text is row-major by y while the wall grid is stored column
  first (x outer, y inner), so rendering and parsing both transpose.
 */
module LayoutText {
  import opened Geometry

  datatype Option<T> = None | Some(value: T)

  /** The Python exceptions the parse can raise. */
  datatype ParseError = IndexError | ValueError

  datatype Result<T> = Ok(value: T) | Err(error: ParseError)

  /** What the parse yields: the dimensions and the column-first wall grid. */
  datatype Layout = Layout(width: int, length: int, walls: seq<seq<int>>)

  // ---------------------------------------------------------------------
  // Decimal integers: str(i) and int(token)

  predicate IsDigit(c: char)
  {
    '0' <= c <= '9'
  }

  predicate AllDigits(s: string)
  {
    forall i :: 0 <= i < |s| ==> IsDigit(s[i])
  }

  function DigitChar(d: int): (c: char)
    requires 0 <= d < 10
    ensures IsDigit(c) && c as int - '0' as int == d
  {
    ('0' as int + d) as char
  }

  function NatToString(n: nat): (s: string)
    ensures |s| > 0 && AllDigits(s)
  {
    if n < 10 then [DigitChar(n)] else NatToString(n / 10) + [DigitChar(n % 10)]
  }

  /** str(i): an optional minus sign, then the decimal digits. */
  function IntToString(i: int): string
  {
    if i < 0 then "-" + NatToString(-i) else NatToString(i)
  }

  /** The value of a string of decimal digits, most significant first. */
  function DigitsValue(s: string): nat
    requires AllDigits(s)
  {
    if s == [] then 0
    else DigitsValue(s[..|s| - 1]) * 10 + (s[|s| - 1] as int - '0' as int)
  }

  /** int(token): an optional sign, then at least one decimal digit. */
  function ParseInt(s: string): Option<int>
  {
    if |s| > 0 && (s[0] == '-' || s[0] == '+') then
      if |s| > 1 && AllDigits(s[1..]) then
        Some(if s[0] == '-' then -(DigitsValue(s[1..]) as int) else DigitsValue(s[1..]))
      else None
    else if |s| > 0 && AllDigits(s) then Some(DigitsValue(s))
    else None
  }

  /**
    A string of digits reads as its decimal value, an empty token or a lone
    sign is not an integer, and only a leading '-' gives a negative value.
   */
  lemma ParseIntCases(s: string)
    ensures |s| > 0 && AllDigits(s) ==> ParseInt(s) == Some(DigitsValue(s))
    ensures |s| == 0 || s == "-" || s == "+" ==> ParseInt(s) == None
    ensures ParseInt(s).Some? && ParseInt(s).value < 0 ==> s[0] == '-'
  {
  }

  lemma {:induction false} DigitsValueOfNat(n: nat)
    ensures DigitsValue(NatToString(n)) == n
  {
    if n >= 10 {
      var s := NatToString(n);
      DigitsValueOfNat(n / 10);
      assert s[..|s| - 1] == NatToString(n / 10);
    }
  }

  /** Reading back what str wrote gives the same integer. */
  lemma ParseIntToString(i: int)
    ensures ParseInt(IntToString(i)) == Some(i)
  {
    var s := IntToString(i);
    if i < 0 {
      var digits := NatToString(-i);
      assert s == "-" + digits;
      assert s[0] == '-' && s[1..] == digits;
      DigitsValueOfNat(-i);
    } else {
      var digits := NatToString(i);
      assert s == digits && IsDigit(s[0]);
      DigitsValueOfNat(i);
    }
  }

  /** str(i) starts with '-' exactly when i < 0, and every other character is a digit. */
  lemma IntToStringSign(i: int)
    ensures |IntToString(i)| > 0
    ensures IntToString(i)[0] == '-' <==> i < 0
    ensures AllDigits(IntToString(i)[1..])
    ensures i >= 0 ==> AllDigits(IntToString(i))
  {
    var s := IntToString(i);
    if i < 0 {
      assert s[1..] == NatToString(-i);
    } else {
      assert IsDigit(s[0]);
    }
  }

  /** A rendered integer holds neither a space nor a line break, and is not empty. */
  lemma IntToStringPlain(i: int)
    ensures |IntToString(i)| > 0
    ensures ' ' !in IntToString(i) && '\n' !in IntToString(i)
  {
    var s := IntToString(i);
    var digits := NatToString(if i < 0 then -i else i);
    assert forall k :: 0 <= k < |digits| ==> digits[k] != ' ' && digits[k] != '\n';
    if i < 0 {
      assert s == "-" + digits;
      assert forall k :: 1 <= k < |s| ==> s[k] == digits[k - 1];
    }
  }

  // ---------------------------------------------------------------------
  // str.split(" ") and str.splitlines()

  /** str.split(" "): cut at every space; consecutive spaces give empty pieces. */
  function Split(s: string): (r: seq<string>)
    ensures |r| >= 1
  {
    if s == [] then [[]]
    else
      var rest := Split(s[1..]);
      if s[0] == ' ' then [[]] + rest else [[s[0]] + rest[0]] + rest[1..]
  }

  /**
    str.splitlines() for text whose only line break is '\n': cut after every
    '\n'; a final '\n' does not start another (empty) line.
   */
  function SplitLines(s: string): (r: seq<string>)
    ensures s == [] <==> r == []
  {
    if s == [] then []
    else
      var rest := SplitLines(s[1..]);
      if s[0] == '\n' then [[]] + rest
      else if rest == [] then [[s[0]]]
      else [[s[0]] + rest[0]] + rest[1..]
  }

  /** No piece of a split holds a space. */
  lemma {:induction false} SplitPieces(s: string)
    ensures forall i :: 0 <= i < |Split(s)| ==> ' ' !in Split(s)[i]
  {
    if s != [] {
      SplitPieces(s[1..]);
    }
  }

  /** No line of a splitlines holds a line break. */
  lemma {:induction false} SplitLinesPieces(s: string)
    ensures forall i :: 0 <= i < |SplitLines(s)| ==> '\n' !in SplitLines(s)[i]
  {
    if s != [] {
      SplitLinesPieces(s[1..]);
    }
  }

  /** Each token followed by one space, as __str__ writes a line. */
  function Spaced(tokens: seq<string>): string
  {
    if tokens == [] then "" else tokens[0] + " " + Spaced(tokens[1..])
  }

  /** Each line followed by '\n'. */
  function JoinLines(lines: seq<string>): string
  {
    if lines == [] then "" else lines[0] + "\n" + JoinLines(lines[1..])
  }

  lemma {:induction false} SpacedSnoc(tokens: seq<string>, t: string)
    ensures Spaced(tokens + [t]) == Spaced(tokens) + t + " "
  {
    if tokens != [] {
      SpacedSnoc(tokens[1..], t);
      assert (tokens + [t])[1..] == tokens[1..] + [t];
    }
  }

  lemma {:induction false} JoinLinesSnoc(lines: seq<string>, line: string)
    ensures JoinLines(lines + [line]) == JoinLines(lines) + line + "\n"
  {
    if lines != [] {
      JoinLinesSnoc(lines[1..], line);
      assert (lines + [line])[1..] == lines[1..] + [line];
    }
  }

  lemma {:induction false} SplitAfterToken(t: string, rest: string)
    requires ' ' !in t
    ensures Split(t + " " + rest) == [t] + Split(rest)
  {
    if t != [] {
      SplitAfterToken(t[1..], rest);
      assert (t + " " + rest)[1..] == t[1..] + " " + rest;
      assert [t[0]] + t[1..] == t;
    } else {
      assert (t + " " + rest)[1..] == rest;
    }
  }

  /** Splitting a spaced line at its spaces gives back its tokens and a trailing "". */
  lemma {:induction false} SplitSpaced(tokens: seq<string>)
    requires forall i :: 0 <= i < |tokens| ==> ' ' !in tokens[i]
    ensures Split(Spaced(tokens)) == tokens + [""]
  {
    if tokens != [] {
      SplitAfterToken(tokens[0], Spaced(tokens[1..]));
      SplitSpaced(tokens[1..]);
    }
  }

  lemma {:induction false} SplitLinesAfterLine(line: string, rest: string)
    requires '\n' !in line
    ensures SplitLines(line + "\n" + rest) == [line] + SplitLines(rest)
  {
    if line != [] {
      SplitLinesAfterLine(line[1..], rest);
      assert (line + "\n" + rest)[1..] == line[1..] + "\n" + rest;
      assert [line[0]] + line[1..] == line;
    } else {
      assert (line + "\n" + rest)[1..] == rest;
    }
  }

  /** Splitting text written line by line gives back the lines. */
  lemma {:induction false} SplitJoinLines(lines: seq<string>)
    requires forall i :: 0 <= i < |lines| ==> '\n' !in lines[i]
    ensures SplitLines(JoinLines(lines)) == lines
  {
    if lines != [] {
      SplitLinesAfterLine(lines[0], JoinLines(lines[1..]));
      SplitJoinLines(lines[1..]);
    }
  }

  // ---------------------------------------------------------------------
  // Rendering (Maze.__str__)

  function HeaderTokens(width: int, length: int): seq<string>
  {
    [IntToString(width), IntToString(length)]
  }

  /** The wall values of row y, column by column. */
  function RowTokens(walls: seq<seq<int>>, width: nat, length: nat, y: int): (r: seq<string>)
    requires Rectangular(walls, width, length) && 0 <= y < length
    ensures |r| == width
  {
    seq(width, x requires 0 <= x < width => IntToString(walls[x][y]))
  }

  /** The header line, then one line per row. */
  function RenderLines(walls: seq<seq<int>>, width: nat, length: nat): (r: seq<string>)
    requires Rectangular(walls, width, length)
    ensures |r| == length + 1
  {
    [Spaced(HeaderTokens(width, length))]
      + seq(length, y requires 0 <= y < length => Spaced(RowTokens(walls, width, length, y)))
  }

  function Render(walls: seq<seq<int>>, width: nat, length: nat): string
    requires Rectangular(walls, width, length)
  {
    JoinLines(RenderLines(walls, width, length))
  }

  /** The text before the first row: "<width> <length> " and a line break. */
  lemma RenderHeader(walls: seq<seq<int>>, width: nat, length: nat)
    requires Rectangular(walls, width, length)
    ensures JoinLines(RenderLines(walls, width, length)[..1])
      == IntToString(width) + " " + IntToString(length) + " \n"
  {
    var lines := RenderLines(walls, width, length);
    var header := HeaderTokens(width, length);
    assert header[1..][1..] == [];
    assert Spaced(header[1..]) == IntToString(length) + " " + Spaced([]);
    assert Spaced(header) == IntToString(width) + " " + (IntToString(length) + " " + "");
    assert lines[..1] == [Spaced(header)];
    assert JoinLines(lines[..1]) == lines[0] + "\n" + JoinLines([]);
  }

  /** Rendering row y appends its spaced wall values and a line break. */
  lemma RenderRowStep(walls: seq<seq<int>>, width: nat, length: nat, y: nat)
    requires Rectangular(walls, width, length) && y < length
    ensures JoinLines(RenderLines(walls, width, length)[..y + 2])
      == JoinLines(RenderLines(walls, width, length)[..y + 1]) + Spaced(RowTokens(walls, width, length, y)) + "\n"
  {
    var lines := RenderLines(walls, width, length);
    var row := Spaced(RowTokens(walls, width, length, y));
    assert lines[y + 1] == row;
    JoinLinesPrefix(lines, y + 1);
  }

  /** Joining one more of a list's lines appends that line and a line break. */
  lemma JoinLinesPrefix(lines: seq<string>, k: nat)
    requires k < |lines|
    ensures JoinLines(lines[..k + 1]) == JoinLines(lines[..k]) + lines[k] + "\n"
  {
    assert lines[..k + 1] == lines[..k] + [lines[k]];
    JoinLinesSnoc(lines[..k], lines[k]);
  }

  /** Rendering the cell of column x in row y appends its value and a space. */
  lemma RenderCellStep(walls: seq<seq<int>>, width: nat, length: nat, y: nat, x: nat)
    requires Rectangular(walls, width, length) && y < length && x < width
    ensures Spaced(RowTokens(walls, width, length, y)[..x + 1])
      == Spaced(RowTokens(walls, width, length, y)[..x]) + IntToString(walls[x][y]) + " "
  {
    var tokens := RowTokens(walls, width, length, y);
    assert tokens[..x + 1] == tokens[..x] + [tokens[x]];
    SpacedSnoc(tokens[..x], tokens[x]);
  }

  // ---------------------------------------------------------------------
  // Parsing (the line-reading part of Maze.create_maze)

  /**
    Reads columns x, x + 1, ... < width of one split row line, appending
    each non-empty token's value to its column; an empty token is skipped.
   */
  function ParseRow(tokens: seq<string>, width: int, x: nat, cols: seq<seq<int>>): (r: Result<seq<seq<int>>>)
    requires width <= |cols|
    ensures r.Ok? ==> |r.value| == |cols|
    decreases width - x
  {
    if x >= width then Ok(cols)
    else if x >= |tokens| then Err(IndexError)
    else if tokens[x] == "" then ParseRow(tokens, width, x + 1, cols)
    else
      match ParseInt(tokens[x])
      case None => Err(ValueError)
      case Some(v) => ParseRow(tokens, width, x + 1, cols[x := cols[x] + [v]])
  }

  /** Reads rows y, y + 1, ... < length from lines[y + 1], ... */
  function ParseRows(lines: seq<string>, width: int, length: int, y: nat, cols: seq<seq<int>>): (r: Result<seq<seq<int>>>)
    requires width <= |cols|
    ensures r.Ok? ==> |r.value| == |cols|
    decreases length - y
  {
    if y >= length then Ok(cols)
    else if y + 1 >= |lines| then Err(IndexError)
    else
      match ParseRow(Split(lines[y + 1]), width, 0, cols)
      case Err(e) => Err(e)
      case Ok(next) => ParseRows(lines, width, length, y + 1, next)
  }

  /**
    Reading one row from column x on leaves the columns before x and from
    width on as they were, and appends at most one value to each column.
   */
  lemma {:induction false} ParseRowColumns(tokens: seq<string>, width: int, x: nat, cols: seq<seq<int>>)
    requires width <= |cols|
    ensures var r := ParseRow(tokens, width, x, cols);
      r.Ok? ==> ((forall i :: 0 <= i < |cols| && (i < x || width <= i) ==> r.value[i] == cols[i])
        && (forall i :: 0 <= i < |cols| ==> |cols[i]| <= |r.value[i]| <= |cols[i]| + 1))
    decreases width - x
  {
    if x < width && x < |tokens| {
      if tokens[x] == "" {
        ParseRowColumns(tokens, width, x + 1, cols);
      } else if ParseInt(tokens[x]).Some? {
        ParseRowColumns(tokens, width, x + 1, cols[x := cols[x] + [ParseInt(tokens[x]).value]]);
      }
    }
  }

  /**
    Reading rows leaves the columns from width on as they were, and a text
    with fewer than length + 1 lines fails.
   */
  lemma {:induction false} ParseRowsColumns(lines: seq<string>, width: int, length: int, y: nat, cols: seq<seq<int>>)
    requires width <= |cols|
    ensures var r := ParseRows(lines, width, length, y, cols);
      (r.Ok? ==> forall i :: 0 <= i < |cols| && width <= i ==> r.value[i] == cols[i])
        && (y < length && |lines| <= length ==> r.Err?)
    decreases length - y
  {
    if y < length && y + 1 < |lines| {
      var row := ParseRow(Split(lines[y + 1]), width, 0, cols);
      if row.Ok? {
        ParseRowColumns(Split(lines[y + 1]), width, 0, cols);
        ParseRowsColumns(lines, width, length, y + 1, row.value);
      }
    }
  }

  /** The empty columns create_maze starts from: one per x in range(width). */
  function EmptyColumns(width: int): (cols: seq<seq<int>>)
    ensures width <= |cols|
  {
    seq(if width < 0 then 0 else width, _ => [])
  }

  /**
    create_maze on the lines of a file: the header's width and length, then
    the rows; a missing line or token is an IndexError, a token that is not
    an integer a ValueError, and so is a negative dimension, which the
    construction of the pheromone array refuses.
   */
  function ParseLayout(lines: seq<string>): (r: Result<Layout>)
    ensures |lines| == 0 ==> r == Err(IndexError)
    ensures r.Ok? ==> r.value.width >= 0 && r.value.length >= 0 && |r.value.walls| == r.value.width
  {
    if |lines| == 0 then Err(IndexError)
    else
      var dims := Split(lines[0]);
      match ParseInt(dims[0])
      case None => Err(ValueError)
      case Some(width) =>
        if |dims| < 2 then Err(IndexError)
        else
          match ParseInt(dims[1])
          case None => Err(ValueError)
          case Some(length) =>
            match ParseRows(lines, width, length, 0, EmptyColumns(width))
            case Err(e) => Err(e)
            case Ok(walls) =>
              if width < 0 || length < 0 then Err(ValueError) else Ok(Layout(width, length, walls))
  }

  // ---------------------------------------------------------------------
  // Round trip

  /** The first y cells of every column. */
  function Prefixes(walls: seq<seq<int>>, width: nat, length: nat, y: nat): (r: seq<seq<int>>)
    requires Rectangular(walls, width, length) && y <= length
    ensures |r| == width
  {
    seq(width, x requires 0 <= x < width => walls[x][..y])
  }

  /** Parsing rendered row y, from column x on, extends every column by its cell of row y. */
  lemma {:induction false} ParseRenderedRow(walls: seq<seq<int>>, width: nat, length: nat, y: nat, x: nat, cols: seq<seq<int>>)
    requires Rectangular(walls, width, length) && y < length && x <= width
    requires |cols| == width
    requires forall i :: 0 <= i < x ==> cols[i] == walls[i][..y + 1]
    requires forall i :: x <= i < width ==> cols[i] == walls[i][..y]
    ensures ParseRow(RowTokens(walls, width, length, y) + [""], width, x, cols)
      == Ok(Prefixes(walls, width, length, y + 1))
    decreases width - x
  {
    var tokens := RowTokens(walls, width, length, y) + [""];
    if x == width {
      assert cols == Prefixes(walls, width, length, y + 1);
    } else {
      IntToStringPlain(walls[x][y]);
      ParseIntToString(walls[x][y]);
      assert tokens[x] == IntToString(walls[x][y]) != "";
      assert walls[x][..y] + [walls[x][y]] == walls[x][..y + 1];
      ParseRenderedRow(walls, width, length, y, x + 1, cols[x := cols[x] + [walls[x][y]]]);
    }
  }

  /** Rendered line y + 1 splits into row y's tokens and one trailing empty string. */
  lemma RenderedRowSplit(walls: seq<seq<int>>, width: nat, length: nat, y: nat)
    requires Rectangular(walls, width, length) && y < length
    ensures Split(RenderLines(walls, width, length)[y + 1]) == RowTokens(walls, width, length, y) + [""]
  {
    var tokens := RowTokens(walls, width, length, y);
    forall i | 0 <= i < |tokens|
      ensures ' ' !in tokens[i]
    {
      IntToStringPlain(walls[i][y]);
    }
    SplitSpaced(tokens);
    assert RenderLines(walls, width, length)[y + 1] == Spaced(tokens);
  }

  /** Parsing the rendered rows from row y on completes every column. */
  lemma {:induction false} ParseRenderedRows(walls: seq<seq<int>>, width: nat, length: nat, y: nat)
    requires Rectangular(walls, width, length) && y <= length
    ensures ParseRows(RenderLines(walls, width, length), width, length, y, Prefixes(walls, width, length, y))
      == Ok(walls)
    decreases length - y
  {
    if y == length {
      assert forall i :: 0 <= i < width ==> walls[i][..y] == walls[i];
      assert Prefixes(walls, width, length, y) == walls;
    } else {
      RenderedRowSplit(walls, width, length, y);
      ParseRenderedRow(walls, width, length, y, 0, Prefixes(walls, width, length, y));
      ParseRenderedRows(walls, width, length, y + 1);
    }
  }

  /** No rendered line holds a line break. */
  lemma RenderedLinesPlain(walls: seq<seq<int>>, width: nat, length: nat)
    requires Rectangular(walls, width, length)
    ensures forall i :: 0 <= i < length + 1 ==> '\n' !in RenderLines(walls, width, length)[i]
  {
    var lines := RenderLines(walls, width, length);
    forall i | 0 <= i < length + 1
      ensures '\n' !in lines[i]
    {
      if i == 0 {
        IntToStringPlain(width);
        IntToStringPlain(length);
        SpacedPlain(HeaderTokens(width, length));
      } else {
        RowPlain(walls, width, length, i - 1);
      }
    }
  }

  /** Rendered row y holds no line break. */
  lemma RowPlain(walls: seq<seq<int>>, width: nat, length: nat, y: nat)
    requires Rectangular(walls, width, length) && y < length
    ensures '\n' !in Spaced(RowTokens(walls, width, length, y))
  {
    var tokens := RowTokens(walls, width, length, y);
    forall k | 0 <= k < |tokens|
      ensures '\n' !in tokens[k]
    {
      IntToStringPlain(walls[k][y]);
    }
    SpacedPlain(tokens);
  }

  lemma {:induction false} SpacedPlain(tokens: seq<string>)
    requires forall k :: 0 <= k < |tokens| ==> '\n' !in tokens[k]
    ensures '\n' !in Spaced(tokens)
  {
    if tokens != [] {
      SpacedPlain(tokens[1..]);
    }
  }

  /**
    Reading back the text __str__ writes gives the same dimensions and the
    same wall grid.
   */
  lemma ParseRender(walls: seq<seq<int>>, width: nat, length: nat)
    requires Rectangular(walls, width, length)
    ensures ParseLayout(SplitLines(Render(walls, width, length))) == Ok(Layout(width, length, walls))
  {
    var lines := RenderLines(walls, width, length);
    RenderedLinesPlain(walls, width, length);
    SplitJoinLines(lines);
    IntToStringPlain(width);
    IntToStringPlain(length);
    SplitSpaced(HeaderTokens(width, length));
    ParseIntToString(width);
    ParseIntToString(length);
    assert EmptyColumns(width) == Prefixes(walls, width, length, 0);
    ParseRenderedRows(walls, width, length, 0);
  }
}

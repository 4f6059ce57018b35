/** Board initialisation: the built-in default board, and the decoder of the
    run-length board text `B<height>x<width>|<row>|<row>...`, where each row is
    a sequence of `<letter><count>` runs with letters W (wall), E (plain)
    and S (snake). */
module GameSetup {
  import opened Wrappers
  import opened Seqs
  import opened Common
  import Game

  /** The closed set of initialisation results. */
  datatype InitStatus = InitSuccess | IncorrectDimensions | WrongSnakeNum | BadChar

  /** What a successful decode produces: the board, its size, the snake's
      body (head first) and its direction. */
  datatype Board = Board(width: nat, height: nat, cells: seq<Cell>, body: seq<int>, dir: Input)

  // ---------------------------------------------------------------------------
  // The default board
  // ---------------------------------------------------------------------------

  /** Cell `i` lies in the top or bottom row or the first or last column. */
  predicate OnBorder(i: int, width: nat, height: nat)
    requires width > 0
  {
    i / width == 0 || i / width == height - 1 || i % width == 0 || i % width == width - 1
  }

  /** The flag of cell `i` on the default 20x10 board: walls on the border,
      the snake at 20 * 2 + 2 = 42, plain everywhere else. */
  function DefaultFlag(i: int): Cell {
    if OnBorder(i, 20, 10) then Wall else if i == 42 then Snake else Plain
  }

  /** Builds the default board the way the source does: all plain, then the
      top and bottom rows, then the first and last columns, then the snake. */
  method InitializeDefaultBoard() returns (cells: seq<Cell>, width: nat, height: nat)
    ensures width == 20 && height == 10 && |cells| == width * height
    ensures forall i :: 0 <= i < |cells| ==> cells[i] == DefaultFlag(i)
  {
    width := 20;
    height := 10;
    cells := seq(20 * 10, _ => Plain);
    for i := 0 to 20
      invariant |cells| == 200
      invariant forall j :: 0 <= j < 200 ==>
        cells[j] == (if j < i || 180 <= j < 180 + i then Wall else Plain)
    {
      cells := cells[i := Wall][i + 20 * (10 - 1) := Wall];
    }
    for i := 0 to 10
      invariant |cells| == 200
      invariant forall j :: 0 <= j < 200 ==>
        cells[j] == (if j < 20 || 180 <= j || (j / 20 < i && (j % 20 == 0 || j % 20 == 19)) then Wall else Plain)
    {
      assert forall j :: 0 <= j < 200 ==> (j / 20 == i && j % 20 == 0 <==> j == i * 20);
      assert forall j :: 0 <= j < 200 ==> (j / 20 == i && j % 20 == 19 <==> j == i * 20 + 19);
      cells := cells[i * 20 := Wall][i * 20 + 20 - 1 := Wall];
    }
    cells := cells[20 * 2 + 2 := Snake];
  }

  // ---------------------------------------------------------------------------
  // Digits: first_letter and get_integer
  // ---------------------------------------------------------------------------

  predicate IsDigit(c: char) {
    '0' <= c <= '9'
  }

  predicate AllDigits(s: seq<char>) {
    forall i :: 0 <= i < |s| ==> IsDigit(s[i])
  }

  /** No stretch of more than nine digits: every number the decoder copies
      fits the source's ten-byte buffer with its terminator. */
  predicate NoLongDigitRuns(s: seq<char>) {
    forall i, j :: 0 <= i <= j <= |s| && AllDigits(s[i..j]) ==> j - i <= 9
  }

  /** The same bound, checked left to right: `run` digits precede `s`, and
      no stretch of digits grows past nine. */
  predicate DigitRunsFrom(s: seq<char>, run: nat)
    decreases |s|
  {
    |s| == 0 ||
    (if IsDigit(s[0]) then run + 1 <= 9 && DigitRunsFrom(s[1..], run + 1) else DigitRunsFrom(s[1..], 0))
  }

  predicate ShortDigitRuns(s: seq<char>) {
    DigitRunsFrom(s, 0)
  }

  lemma {:induction false} DigitRunsFromBound(s: seq<char>, run: nat, i: nat, j: nat)
    requires DigitRunsFrom(s, run) && i <= j <= |s| && AllDigits(s[i..j])
    ensures j - i <= 9
    ensures i == 0 && j > 0 ==> run + j <= 9
    decreases |s|
  {
    if i > 0 {
      assert s[1..][i - 1..j - 1] == s[i..j];
      DigitRunsFromBound(s[1..], if IsDigit(s[0]) then run + 1 else 0, i - 1, j - 1);
    } else if j > 1 {
      assert IsDigit(s[i..j][0]);
      assert s[1..][0..j - 1] == s[1..j];
      assert AllDigits(s[1..j]) by {
        forall t | 0 <= t < j - 1
          ensures IsDigit(s[1..j][t])
        {
          assert s[1..j][t] == s[0..j][t + 1];
        }
      }
      DigitRunsFromBound(s[1..], run + 1, 0, j - 1);
    } else if j == 1 {
      assert IsDigit(s[i..j][0]);
    }
  }

  /** The left-to-right check implies the bound on every stretch. */
  lemma ShortDigitRunsSound(s: seq<char>)
    requires ShortDigitRuns(s)
    ensures NoLongDigitRuns(s)
  {
    forall i, j | 0 <= i <= j <= |s| && AllDigits(s[i..j])
      ensures j - i <= 9
    {
      DigitRunsFromBound(s, 0, i, j);
    }
  }

  lemma NoLongDigitRunsSlice(s: seq<char>, a: nat, b: nat)
    requires a <= b <= |s| && NoLongDigitRuns(s)
    ensures NoLongDigitRuns(s[a..b])
    ensures b == |s| ==> NoLongDigitRuns(s[a..])
  {
    assert b == |s| ==> s[a..b] == s[a..];
    forall i: nat, j: nat | i <= j <= b - a && AllDigits(s[a..b][i..j])
      ensures j - i <= 9
    {
      SliceOfSlice(s, a, b, i, j);
      assert AllDigits(s[a + i..a + j]);
    }
  }

  /** first_letter: the first position at or after `start` that does not
      hold a digit; |s| stands for the terminator, as the text holds no NUL. */
  function FirstLetter(s: seq<char>, start: nat): (r: nat)
    requires start <= |s|
    ensures start <= r <= |s|
    ensures forall i :: start <= i < r ==> IsDigit(s[i])
    ensures r < |s| ==> !IsDigit(s[r])
    decreases |s| - start
  {
    if start < |s| && IsDigit(s[start]) then FirstLetter(s, start + 1) else start
  }

  function DigitValue(c: char): nat
    requires IsDigit(c)
  {
    c as int - '0' as int
  }

  function Pow10(n: nat): (r: nat)
    ensures r >= 1
  {
    if n == 0 then 1 else 10 * Pow10(n - 1)
  }

  lemma Pow10Monotone(a: nat, b: nat)
    requires a <= b
    ensures Pow10(a) <= Pow10(b)
    decreases b
  {
    if a < b {
      Pow10Monotone(a, b - 1);
    }
  }

  /** get_integer: the decimal value of a span of at most nine digits
      (atoi of the copied span; an empty span reads as 0). */
  function GetInteger(ds: seq<char>): (r: nat)
    requires AllDigits(ds) && |ds| <= 9
    ensures r < Pow10(|ds|)
  {
    if |ds| == 0 then 0 else GetInteger(ds[..|ds| - 1]) * 10 + DigitValue(ds[|ds| - 1])
  }

  /** A leading zero does not change the value read. */
  lemma {:induction false} GetIntegerLeadingZero(ds: seq<char>)
    requires AllDigits(ds) && |ds| <= 8
    ensures AllDigits(['0'] + ds) && GetInteger(['0'] + ds) == GetInteger(ds)
    decreases |ds|
  {
    var z := ['0'] + ds;
    assert AllDigits(z) by {
      forall i | 0 <= i < |z|
        ensures IsDigit(z[i])
      {
        if i > 0 {
          assert z[i] == ds[i - 1];
        }
      }
    }
    if |ds| > 0 {
      var init := ds[..|ds| - 1];
      assert z[..|z| - 1] == ['0'] + init;
      assert z[|z| - 1] == ds[|ds| - 1];
      GetIntegerLeadingZero(init);
    } else {
      assert z[..0] == [];
    }
  }

  /** The decimal text of `n`, without leading zeros. */
  function Decimal(n: nat): (r: seq<char>)
    ensures |r| > 0 && AllDigits(r)
  {
    if n < 10 then [('0' as int + n) as char]
    else Decimal(n / 10) + [('0' as int + n % 10) as char]
  }

  lemma {:induction false} DecimalLength(n: nat, k: nat)
    requires n < Pow10(k) && k > 0
    ensures |Decimal(n)| <= k
  {
    if n >= 10 {
      assert k > 1;
      DecimalLength(n / 10, k - 1);
    }
  }

  /** Reading back the decimal text of a number below 10^9 gives the number. */
  lemma {:induction false} GetIntegerRoundTrip(n: nat)
    requires n < 1_000_000_000
    ensures |Decimal(n)| <= 9 && GetInteger(Decimal(n)) == n
  {
    assert Pow10(9) == 1_000_000_000;
    DecimalLength(n, 9);
    if n >= 10 {
      var d := Decimal(n);
      assert d[..|d| - 1] == Decimal(n / 10);
      GetIntegerRoundTrip(n / 10);
    }
  }

  // ---------------------------------------------------------------------------
  // strtok
  // ---------------------------------------------------------------------------

  /** Length of the leading stretch of `s` whose characters are (when
      `inside`) or are not (otherwise) in `delims`. */
  function Span(s: seq<char>, delims: set<char>, inside: bool): (r: nat)
    ensures r <= |s|
    ensures forall i :: 0 <= i < r ==> (s[i] in delims) == inside
    ensures r < |s| ==> (s[r] in delims) != inside
  {
    if |s| == 0 || (s[0] in delims) != inside then 0 else 1 + Span(s[1..], delims, inside)
  }

  /** No character of `t` is in `delims`. */
  predicate Avoids(t: seq<char>, delims: set<char>) {
    forall i :: 0 <= i < |t| ==> t[i] !in delims
  }

  /** `tok` is the token strtok finds in `s` once the first `a` characters,
      all delimiters, are skipped, and `rest` is what follows the delimiter
      that ends it (nothing when the token reaches the end of `s`). */
  predicate TokenAt(s: seq<char>, delims: set<char>, a: nat, tok: seq<char>, rest: seq<char>) {
    && a + |tok| <= |s|
    && (forall i :: 0 <= i < a ==> s[i] in delims)
    && tok == s[a..a + |tok|]
    && (a + |tok| < |s| ==> s[a + |tok|] in delims && rest == s[a + |tok| + 1..])
    && (a + |tok| == |s| ==> rest == [])
  }

  /** strtok: skip leading delimiters; the token runs up to the next
      delimiter, which is consumed. None when only delimiters remain. */
  function StrTok(s: seq<char>, delims: set<char>): (r: Option<(seq<char>, seq<char>)>)
    ensures r.None? <==> forall i :: 0 <= i < |s| ==> s[i] in delims
    ensures r.Some? ==> |r.value.0| > 0 && |r.value.1| < |s|
    ensures r.Some? ==> Avoids(r.value.0, delims)
    ensures r.Some? ==> exists a :: TokenAt(s, delims, a, r.value.0, r.value.1)
  {
    var start := Span(s, delims, true);
    if start == |s| then None
    else
      var stop := start + Span(s[start..], delims, false);
      var rest := if stop < |s| then s[stop + 1..] else [];
      assert TokenAt(s, delims, start, s[start..stop], rest);
      Some((s[start..stop], rest))
  }

  /** The token and the remainder are pieces of `s`, so they inherit its
      bound on digit runs. */
  lemma StrTokDigitRuns(s: seq<char>, delims: set<char>)
    requires NoLongDigitRuns(s) && StrTok(s, delims).Some?
    ensures NoLongDigitRuns(StrTok(s, delims).value.0)
    ensures NoLongDigitRuns(StrTok(s, delims).value.1)
  {
    var start := Span(s, delims, true);
    var stop := start + Span(s[start..], delims, false);
    var rest := if stop < |s| then s[stop + 1..] else [];
    assert StrTok(s, delims).value == (s[start..stop], rest);
    var from := if stop < |s| then stop + 1 else |s|;
    assert rest == s[from..];
    NoLongDigitRunsSlice(s, start, stop);
    NoLongDigitRunsSlice(s, from, |s|);
  }

  /** A token free of delimiters, followed by one delimiter or by the end of
      the text, is exactly what strtok returns. */
  lemma StrTokSplit(tok: seq<char>, d: char, rest: seq<char>, delims: set<char>)
    requires |tok| > 0 && d in delims && Avoids(tok, delims)
    ensures StrTok(tok + [d] + rest, delims) == Some((tok, rest))
    ensures StrTok(tok, delims) == Some((tok, []))
  {
    var s := tok + [d] + rest;
    assert s[0] == tok[0];
    assert Span(s, delims, true) == 0;
    assert s[0..] == s;
    var n := Span(s, delims, false);
    assert s[|tok|] == d;
    assert n == |tok|;
    assert s[0..|tok|] == tok;
    assert s[|tok| + 1..] == rest;
    assert Span(tok, delims, true) == 0;
    assert tok[0..] == tok;
    assert tok[0..|tok|] == tok;
  }

  /** The delimiters of every row token after the first: the C string
      "|\\n" is the three characters '|', '\\' and 'n'. */
  const LaterDelims: set<char> := {'|', '\\', 'n'}

  /** The row tokens of the text after the header's '|': the first is cut
      at '|' only, every later one at any of LaterDelims. */
  function Rows(s: seq<char>): (r: seq<seq<char>>)
    requires NoLongDigitRuns(s)
    ensures forall k :: 0 <= k < |r| ==> |r[k]| > 0 && NoLongDigitRuns(r[k]) && Avoids(r[k], {'|'})
  {
    match StrTok(s, {'|'})
    case None => []
    case Some((token, rest)) =>
      StrTokDigitRuns(s, {'|'});
      [token] + LaterRows(rest)
  }

  function LaterRows(s: seq<char>): (r: seq<seq<char>>)
    requires NoLongDigitRuns(s)
    ensures forall k :: 0 <= k < |r| ==> |r[k]| > 0 && NoLongDigitRuns(r[k]) && Avoids(r[k], LaterDelims)
    decreases |s|
  {
    match StrTok(s, LaterDelims)
    case None => []
    case Some((token, rest)) =>
      StrTokDigitRuns(s, LaterDelims);
      [token] + LaterRows(rest)
  }

  /** Row texts with one '|' between neighbours, the way a board text
      lists its rows after the header. */
  function Join(rows: seq<seq<char>>): seq<char>
    decreases |rows|
  {
    if |rows| == 0 then []
    else if |rows| == 1 then rows[0]
    else rows[0] + ['|'] + Join(rows[1..])
  }

  /** Row texts that are non-empty and free of every later delimiter come
      back one by one from the later strtok calls. */
  lemma {:induction false} LaterRowsJoin(rows: seq<seq<char>>)
    requires forall k :: 0 <= k < |rows| ==> |rows[k]| > 0 && Avoids(rows[k], LaterDelims)
    requires NoLongDigitRuns(Join(rows))
    ensures LaterRows(Join(rows)) == rows
    decreases |rows|
  {
    if |rows| == 1 {
      StrTokSplit(rows[0], '|', [], LaterDelims);
      assert LaterRows([]) == [];
    } else if |rows| > 1 {
      var t := Join(rows);
      var more := Join(rows[1..]);
      StrTokSplit(rows[0], '|', more, LaterDelims);
      assert StrTok(t, LaterDelims) == Some((rows[0], more));
      StrTokDigitRuns(t, LaterDelims);
      LaterRowsJoin(rows[1..]);
      assert [rows[0]] + rows[1..] == rows;
    }
  }

  /** Splitting joined rows gives the rows back, provided every row is
      non-empty, none holds a '|', and none after the first holds a
      backslash or an 'n'. */
  lemma {:induction false} RowsJoin(rows: seq<seq<char>>)
    requires forall k :: 0 <= k < |rows| ==> |rows[k]| > 0
    requires |rows| > 0 ==> Avoids(rows[0], {'|'})
    requires forall k :: 1 <= k < |rows| ==> Avoids(rows[k], LaterDelims)
    requires NoLongDigitRuns(Join(rows))
    ensures Rows(Join(rows)) == rows
  {
    if |rows| == 1 {
      StrTokSplit(rows[0], '|', [], {'|'});
      assert LaterRows([]) == [];
    } else if |rows| > 1 {
      assert rows == [rows[0]] + rows[1..];
      var t := Join(rows);
      var more := Join(rows[1..]);
      StrTokSplit(rows[0], '|', more, {'|'});
      assert StrTok(t, {'|'}) == Some((rows[0], more));
      StrTokDigitRuns(t, {'|'});
      forall k | 0 <= k < |rows[1..]|
        ensures |rows[1..][k]| > 0 && Avoids(rows[1..][k], LaterDelims)
      {
        assert rows[1..][k] == rows[k + 1];
      }
      LaterRowsJoin(rows[1..]);
      assert Rows(t) == [rows[0]] + LaterRows(more);
    }
  }

  /** A text of at most nine characters holds no long digit run. */
  lemma ShortTextNoLongDigitRuns(s: seq<char>)
    requires |s| <= 9
    ensures NoLongDigitRuns(s)
  {
  }

  /** In every row after the first, the letter 'n' separates tokens: the
      delimiter string of the later strtok calls is '|', '\\' and 'n'. */
  lemma LaterRowsSplitAtN()
    ensures NoLongDigitRuns("E2nW1") && LaterRows("E2nW1") == ["E2", "W1"]
  {
    var t := "E2nW1";
    ShortTextNoLongDigitRuns(t);
    assert t == "E2" + ['n'] + "W1";
    StrTokSplit("E2", 'n', "W1", LaterDelims);
    StrTokSplit("W1", 'n', [], LaterDelims);
    ShortTextNoLongDigitRuns("W1");
    assert LaterRows([]) == [];
    assert LaterRows("W1") == ["W1"];
  }

  /** The first row is cut at '|' only, so the same 'n' stays in the token. */
  lemma FirstRowKeepsN()
    ensures NoLongDigitRuns("E2nW1") && Rows("E2nW1") == ["E2nW1"]
  {
    var t := "E2nW1";
    ShortTextNoLongDigitRuns(t);
    assert t[0..] == t && t[0..5] == t;
    assert t[1..] == "2nW1" && t[2..] == "nW1" && t[3..] == "W1" && t[4..] == "1" && t[5..] == [];
    assert Span(t, {'|'}, false) == 5;
    assert StrTok(t, {'|'}) == Some((t, []));
  }

  /** There the 'n' reads as a run with letter 'n' and count 0, which the
      scan then rejects as a bad character. */
  lemma FirstRowNLexes()
    ensures NoLongDigitRuns("E2nW1") && LexRow("E2nW1") == [Run('E', 2), Run('n', 0), Run('W', 1)]
  {
    var t := "E2nW1";
    ShortTextNoLongDigitRuns(t);
    var w := "W1";
    ShortTextNoLongDigitRuns(w);
    assert FirstLetter(w, 1) == 2 && w[1..2] == "1" && w[2..] == [];
    assert GetInteger("1") == 1;
    assert LexRow(w) == [Run('W', 1)];
    var nw := "nW1";
    ShortTextNoLongDigitRuns(nw);
    assert FirstLetter(nw, 1) == 1 && nw[1..1] == [] && nw[1..] == w;
    assert LexRow(nw) == [Run('n', 0), Run('W', 1)];
    assert FirstLetter(t, 1) == 2 && t[1..2] == "2" && t[2..] == nw;
    assert GetInteger("2") == 2;
  }

  // ---------------------------------------------------------------------------
  // Runs
  // ---------------------------------------------------------------------------

  /** One `<letter><count>` run as the decoder reads it. */
  datatype Run = Run(letter: char, count: nat)

  /** The runs of one row token: the letter is the first character, the
      count the digits after it up to the next non-digit. */
  function LexRow(token: seq<char>): (r: seq<Run>)
    requires NoLongDigitRuns(token)
    ensures |r| <= |token|
    ensures |token| > 0 ==> |r| > 0 && r[0].letter == token[0]
    decreases |token|
  {
    if |token| == 0 then []
    else
      var d := FirstLetter(token, 1);
      NoLongDigitRunsSlice(token, d, |token|);
      assert AllDigits(token[1..d]) && d - 1 <= 9;
      [Run(token[0], GetInteger(token[1..d]))] + LexRow(token[d..])
  }

  /** The runs of all rows, in order. */
  function LexRows(rows: seq<seq<char>>): (r: seq<Run>)
    requires forall k :: 0 <= k < |rows| ==> NoLongDigitRuns(rows[k])
    ensures (forall k :: 0 <= k < |rows| ==> |rows[k]| > 0) ==> |r| >= |rows|
    ensures |rows| > 0 && |rows[0]| > 0 ==> |r| > 0 && r[0].letter == rows[0][0]
  {
    if |rows| == 0 then [] else LexRow(rows[0]) + LexRows(rows[1..])
  }

  /** The text of a run sequence: each letter followed by its count in decimal. */
  function EncodeRuns(runs: seq<Run>): seq<char> {
    if |runs| == 0 then [] else [runs[0].letter] + Decimal(runs[0].count) + EncodeRuns(runs[1..])
  }

  /** Reading the runs back from their text gives the same runs, provided no
      letter is a digit and no count is longer than nine digits. */
  lemma {:induction false} LexRowRoundTrip(runs: seq<Run>)
    requires forall k :: 0 <= k < |runs| ==> !IsDigit(runs[k].letter)
    requires NoLongDigitRuns(EncodeRuns(runs))
    ensures LexRow(EncodeRuns(runs)) == runs
  {
    if |runs| > 0 {
      var text := EncodeRuns(runs);
      var digits := Decimal(runs[0].count);
      var rest := EncodeRuns(runs[1..]);
      assert text == [runs[0].letter] + digits + rest;
      assert text[1..1 + |digits|] == digits;
      assert AllDigits(text[1..1 + |digits|]);
      if |runs| > 1 {
        assert rest[0] == runs[1].letter;
        assert text[1 + |digits|] == rest[0];
      }
      assert FirstLetter(text, 1) == 1 + |digits| by {
        FirstLetterStops(text, 1, 1 + |digits|);
      }
      assert |digits| <= 9;
      DecimalReadsBack(runs[0].count);
      assert text[1 + |digits|..] == rest;
      NoLongDigitRunsSlice(text, 1 + |digits|, |text|);
      LexRowRoundTrip(runs[1..]);
    }
  }

  /** Every character of a run text is a letter of a run or a digit, so the
      text avoids a set of non-digits that no letter belongs to. */
  lemma {:induction false} EncodeRunsAvoids(runs: seq<Run>, delims: set<char>)
    requires forall c :: c in delims ==> !IsDigit(c)
    requires forall k :: 0 <= k < |runs| ==> runs[k].letter !in delims
    ensures Avoids(EncodeRuns(runs), delims)
    decreases |runs|
  {
    if |runs| > 0 {
      EncodeRunsAvoids(runs[1..], delims);
      var d := Decimal(runs[0].count);
      var rest := EncodeRuns(runs[1..]);
      var t := EncodeRuns(runs);
      assert t == [runs[0].letter] + d + rest;
      forall i | 0 <= i < |t|
        ensures t[i] !in delims
      {
        if 0 < i <= |d| {
          assert t[i] == d[i - 1] && IsDigit(d[i - 1]);
        } else if i > |d| {
          assert t[i] == rest[i - 1 - |d|];
        }
      }
    }
  }

  /** The text of a board's rows, one run text per row. */
  function EncodeRows(rows: seq<seq<Run>>): seq<seq<char>> {
    seq(|rows|, k requires 0 <= k < |rows| => EncodeRuns(rows[k]))
  }

  /** The runs of all rows, end to end. */
  function Flatten(rows: seq<seq<Run>>): seq<Run> {
    if |rows| == 0 then [] else rows[0] + Flatten(rows[1..])
  }

  /** Lexing the run texts of several rows gives all their runs in order. */
  lemma {:induction false} LexRowsRoundTrip(rows: seq<seq<Run>>)
    requires forall k, j :: 0 <= k < |rows| && 0 <= j < |rows[k]| ==> !IsDigit(rows[k][j].letter)
    requires forall k :: 0 <= k < |rows| ==> NoLongDigitRuns(EncodeRuns(rows[k]))
    ensures LexRows(EncodeRows(rows)) == Flatten(rows)
    decreases |rows|
  {
    if |rows| > 0 {
      LexRowRoundTrip(rows[0]);
      assert EncodeRows(rows)[1..] == EncodeRows(rows[1..]);
      LexRowsRoundTrip(rows[1..]);
    }
  }

  lemma DecimalReadsBack(n: nat)
    requires |Decimal(n)| <= 9
    ensures GetInteger(Decimal(n)) == n
  {
    if n >= 1_000_000_000 {
      DecimalLong(n);
    }
    GetIntegerRoundTrip(n);
  }

  lemma {:induction false} DecimalLong(n: nat)
    requires n >= 1_000_000_000
    ensures |Decimal(n)| >= 10
  {
    DecimalAtLeast(n, 9);
  }

  lemma {:induction false} DecimalAtLeast(n: nat, k: nat)
    requires n >= Pow10(k)
    ensures |Decimal(n)| >= k + 1
  {
    if k > 0 {
      assert n >= 10;
      DecimalAtLeast(n / 10, k - 1);
    }
  }

  /** The digit scan from `start` stops at the first non-digit `stop`. */
  lemma FirstLetterStops(s: seq<char>, start: nat, stop: nat)
    requires start <= stop <= |s| && AllDigits(s[start..stop])
    requires stop < |s| ==> !IsDigit(s[stop])
    ensures FirstLetter(s, start) == stop
    decreases stop - start
  {
    if start < stop {
      assert IsDigit(s[start..stop][0]);
      assert s[start + 1..stop] == s[start..stop][1..];
      FirstLetterStops(s, start + 1, stop);
    }
  }

  // ---------------------------------------------------------------------------
  // The run scan of decompress_board_str
  // ---------------------------------------------------------------------------

  predicate ValidLetter(c: char) {
    c == 'W' || c == 'E' || c == 'S'
  }

  function FlagOf(c: char): Cell
    requires ValidLetter(c)
  {
    if c == 'W' then Wall else if c == 'E' then Plain else Snake
  }

  function Repeat(c: Cell, n: nat): (r: seq<Cell>)
    ensures |r| == n && forall i :: 0 <= i < n ==> r[i] == c
  {
    seq(n, _ => c)
  }

  /** The scan's running state: cells counted so far, snake cells counted so
      far, the cells written so far, and the body built so far (head first). */
  datatype Acc = Acc(total: int, snakes: int, cells: seq<Cell>, body: seq<int>)

  /** The loop over runs, one check at a time: the running total against the
      board area, then the letter, then (for S) the running snake count. */
  function ScanRuns(runs: seq<Run>, area: int, acc: Acc): (r: Result<Acc, InitStatus>)
    ensures r.Err? ==> r.error != InitSuccess
    ensures r.Ok? ==> |r.value.cells| - |acc.cells| == r.value.total - acc.total
    ensures r.Ok? ==> acc.snakes <= r.value.snakes && r.value.snakes - acc.snakes <= r.value.total - acc.total
    decreases |runs|
  {
    if |runs| == 0 then Ok(acc)
    else
      var run := runs[0];
      var total := acc.total + run.count;
      if total > area then Err(IncorrectDimensions)
      else if run.letter == 'W' then
        ScanRuns(runs[1..], area, acc.(total := total, cells := acc.cells + Repeat(Wall, run.count)))
      else if run.letter == 'E' then
        ScanRuns(runs[1..], area, acc.(total := total, cells := acc.cells + Repeat(Plain, run.count)))
      else if run.letter == 'S' then
        var snakes := acc.snakes + run.count;
        if snakes != 1 then Err(WrongSnakeNum)
        else ScanRuns(runs[1..], area, Acc(total, snakes, acc.cells + Repeat(Snake, run.count), [total - 1] + acc.body))
      else Err(BadChar)
  }

  // Reference definitions over a run sequence, each by its last run.

  /** Total number of cells the runs cover. */
  function Sum(runs: seq<Run>): nat {
    if |runs| == 0 then 0 else Sum(runs[..|runs| - 1]) + runs[|runs| - 1].count
  }

  /** Number of cells covered by S runs. */
  function SnakeSum(runs: seq<Run>): nat {
    if |runs| == 0 then 0
    else SnakeSum(runs[..|runs| - 1]) + (if runs[|runs| - 1].letter == 'S' then runs[|runs| - 1].count else 0)
  }

  predicate ValidLetters(runs: seq<Run>) {
    forall k :: 0 <= k < |runs| ==> ValidLetter(runs[k].letter)
  }

  /** The board the runs describe: each run's flag, repeated `count` times. */
  function Expand(runs: seq<Run>): seq<Cell>
    requires ValidLetters(runs)
  {
    if |runs| == 0 then []
    else Expand(runs[..|runs| - 1]) + Repeat(FlagOf(runs[|runs| - 1].letter), runs[|runs| - 1].count)
  }

  /** One body entry per S run, the index of the last cell that run covers,
      most recent first. */
  function SnakePositions(runs: seq<Run>): seq<int> {
    if |runs| == 0 then []
    else (if runs[|runs| - 1].letter == 'S' then [Sum(runs) - 1] else []) + SnakePositions(runs[..|runs| - 1])
  }

  /** The scan state after the runs `pre` were all accepted. */
  function AccOf(pre: seq<Run>): Acc
    requires ValidLetters(pre)
  {
    Acc(Sum(pre), SnakeSum(pre), Expand(pre), SnakePositions(pre))
  }

  /** Run `k` passes the scan's three checks, given the runs before it. */
  predicate AcceptedAt(runs: seq<Run>, k: nat, area: int)
    requires k < |runs|
  {
    && Sum(runs[..k + 1]) <= area
    && ValidLetter(runs[k].letter)
    && (runs[k].letter == 'S' ==> SnakeSum(runs[..k + 1]) == 1)
  }

  /** The status when run `k` is the first rejected one, in the order the
      checks run. */
  function Rejection(runs: seq<Run>, k: nat, area: int): InitStatus
    requires k < |runs|
  {
    if Sum(runs[..k + 1]) > area then IncorrectDimensions
    else if !ValidLetter(runs[k].letter) then BadChar
    else WrongSnakeNum
  }

  lemma SplitLast(runs: seq<Run>, i: nat)
    requires i < |runs|
    ensures runs[..i + 1][..i] == runs[..i]
    ensures Sum(runs[..i + 1]) == Sum(runs[..i]) + runs[i].count
    ensures SnakeSum(runs[..i + 1]) == SnakeSum(runs[..i]) + (if runs[i].letter == 'S' then runs[i].count else 0)
    ensures runs[i..][0] == runs[i] && runs[i..][1..] == runs[i + 1..]
  {
    assert runs[..i + 1][..i] == runs[..i];
  }

  /** One accepted run moves the scan from the reference state of the runs
      before it to the reference state that includes it. */
  lemma ScanStep(runs: seq<Run>, i: nat, area: int)
    requires i < |runs| && ValidLetters(runs[..i]) && AcceptedAt(runs, i, area)
    ensures ValidLetters(runs[..i + 1])
    ensures ScanRuns(runs[i..], area, AccOf(runs[..i])) == ScanRuns(runs[i + 1..], area, AccOf(runs[..i + 1]))
  {
    SplitLast(runs, i);
    var p := runs[..i + 1];
    var run := runs[i];
    assert forall k :: 0 <= k < i ==> p[k] == runs[..i][k];
    assert p[|p| - 1] == run && p[..|p| - 1] == runs[..i];
    var acc := AccOf(runs[..i]);
    var next := AccOf(p);
    assert Expand(p) == acc.cells + Repeat(FlagOf(run.letter), run.count);
    if run.letter == 'S' {
      assert next.body == [Sum(p) - 1] + acc.body;
    } else {
      assert next.body == [] + acc.body == acc.body;
    }
  }

  /** The scan accepts every run exactly when each run passes the checks,
      and then ends in the state the reference definitions give. */
  lemma {:induction false} ScanAccepts(runs: seq<Run>, i: nat, area: int)
    requires i <= |runs| && ValidLetters(runs[..i])
    ensures ScanRuns(runs[i..], area, AccOf(runs[..i])).Ok? <==>
      forall k :: i <= k < |runs| ==> AcceptedAt(runs, k, area)
    ensures ScanRuns(runs[i..], area, AccOf(runs[..i])).Ok? ==>
      ValidLetters(runs) && ScanRuns(runs[i..], area, AccOf(runs[..i])).value == AccOf(runs)
    decreases |runs| - i
  {
    if i == |runs| {
      assert runs[..i] == runs;
    } else {
      SplitLast(runs, i);
      if AcceptedAt(runs, i, area) {
        ScanStep(runs, i, area);
        ScanAccepts(runs, i + 1, area);
      }
    }
  }

  /** The first rejected run decides the error, by the order of the checks:
      too many cells wins over a bad letter, which wins over a wrong snake
      count. */
  lemma {:induction false} ScanRejects(runs: seq<Run>, i: nat, k: nat, area: int)
    requires i <= k < |runs| && ValidLetters(runs[..i])
    requires forall j :: i <= j < k ==> AcceptedAt(runs, j, area)
    requires !AcceptedAt(runs, k, area)
    ensures ScanRuns(runs[i..], area, AccOf(runs[..i])) == Err(Rejection(runs, k, area))
    decreases k - i
  {
    SplitLast(runs, i);
    if i < k {
      assert AcceptedAt(runs, i, area);
      ScanStep(runs, i, area);
      ScanRejects(runs, i + 1, k, area);
    }
  }

  lemma {:induction false} SumPrefix(runs: seq<Run>, k: nat)
    requires k <= |runs|
    ensures Sum(runs[..k]) <= Sum(runs)
    decreases |runs|
  {
    if k < |runs| {
      assert runs[..|runs| - 1][..k] == runs[..k];
      SumPrefix(runs[..|runs| - 1], k);
    } else {
      assert runs[..k] == runs;
    }
  }

  // ---------------------------------------------------------------------------
  // decompress_board_str
  // ---------------------------------------------------------------------------

  /** `B`, digits, the first `x`, digits, the first `|`. */
  predicate WellFormedHeader(s: seq<char>) {
    && |s| > 0 && s[0] == 'B' && 'x' in s && '|' in s
    && IndexOf(s, 'x') < IndexOf(s, '|')
    && AllDigits(s[1..IndexOf(s, 'x')])
    && AllDigits(s[IndexOf(s, 'x') + 1..IndexOf(s, '|')])
  }

  /** The height: the digits between 'B' and the first 'x', read as one
      number of at most nine digits. */
  function HeaderHeight(s: seq<char>): (r: nat)
    requires WellFormedHeader(s) && ShortDigitRuns(s)
    ensures r < 1_000_000_000
  {
    ShortDigitRunsSound(s);
    var ds := s[1..IndexOf(s, 'x')];
    Pow10Monotone(|ds|, 9);
    GetInteger(ds)
  }

  /** The width: the digits between the first 'x' and the first '|'. */
  function HeaderWidth(s: seq<char>): (r: nat)
    requires WellFormedHeader(s) && ShortDigitRuns(s)
    ensures r < 1_000_000_000
  {
    ShortDigitRunsSound(s);
    var ds := s[IndexOf(s, 'x') + 1..IndexOf(s, '|')];
    Pow10Monotone(|ds|, 9);
    GetInteger(ds)
  }

  /** The characters of a C string: each stands for one byte and none is
      the NUL that would end the string. */
  predicate CBytes(s: seq<char>) {
    forall i :: 0 <= i < |s| ==> 0 < s[i] as int < 256
  }

  /** What the decoder assumes of its input: the bytes of a C string, a
      well-formed header, no number longer than nine digits, and an area
      small enough that neither the area nor the running cell total
      overflows a 32-bit int. */
  predicate DecompressPre(s: seq<char>) {
    && CBytes(s)
    && WellFormedHeader(s)
    && ShortDigitRuns(s)
    && HeaderHeight(s) * HeaderWidth(s) + 999_999_999 <= 0x7fff_ffff
  }

  /** All runs of the board text, rows in order. */
  function RunsOf(s: seq<char>): seq<Run>
    requires WellFormedHeader(s) && ShortDigitRuns(s)
  {
    var bar := IndexOf(s, '|');
    ShortDigitRunsSound(s);
    NoLongDigitRunsSlice(s, bar + 1, |s|);
    LexRows(Rows(s[bar + 1..]))
  }

  /** The checks and writes of decompress_board_str once the text is lexed:
      `bars` is the number of '|' in the text, `runs` are its runs in order. */
  function DecodeRuns(height: nat, width: nat, bars: nat, runs: seq<Run>): (r: Result<Board, InitStatus>)
    ensures r.Err? ==> r.error != InitSuccess
    ensures r.Ok? ==> r.value.width == width && r.value.height == height && r.value.dir == Right
    ensures r.Ok? ==> |r.value.cells| == width * height > 0
    ensures bars != height ==> r == Err(IncorrectDimensions)
  {
    if bars != height then Err(IncorrectDimensions)
    else
      var area := width * height;
      match ScanRuns(runs, area, Acc(0, 0, [], []))
      case Err(e) => Err(e)
      case Ok(acc) =>
        if acc.total != area then Err(IncorrectDimensions)
        else if acc.snakes != 1 then Err(WrongSnakeNum)
        else Ok(Board(width, height, acc.cells, acc.body, Right))
  }

  /** decompress_board_str: the header's height and width, the number of
      '|' in the whole text, and the runs of its rows, decoded. */
  function Decompress(s: seq<char>): (r: Result<Board, InitStatus>)
    requires DecompressPre(s)
    ensures r.Err? ==> r.error != InitSuccess
    ensures r.Ok? ==> r.value.width == HeaderWidth(s) && r.value.height == HeaderHeight(s)
    ensures r.Ok? ==> |r.value.cells| == r.value.width * r.value.height > 0 && r.value.dir == Right
    ensures CountOf(s, '|') != HeaderHeight(s) ==> r == Err(IncorrectDimensions)
  {
    DecodeRuns(HeaderHeight(s), HeaderWidth(s), CountOf(s, '|'), RunsOf(s))
  }

  // ---------------------------------------------------------------------------
  // Board texts: the printing side of the decoder
  // ---------------------------------------------------------------------------

  /** The header `B<height>x<width>|`. */
  function Header(h: nat, w: nat): seq<char> {
    ['B'] + Decimal(h) + ['x'] + Decimal(w) + ['|']
  }

  /** Runs a board text can list: every row holds a run, no letter is a
      digit or '|', and no letter after the first row is a backslash or 'n'. */
  predicate PrintableRows(rows: seq<seq<Run>>) {
    forall k :: 0 <= k < |rows| ==> |rows[k]| > 0 && forall j :: 0 <= j < |rows[k]| ==> PrintableLetter(rows[k][j].letter, k)
  }

  predicate PrintableLetter(c: char, row: nat) {
    !IsDigit(c) && c != '|' && (row > 0 ==> c !in LaterDelims)
  }

  /** The board text listing `rows` under the header for `h` by `w`. */
  function BoardText(h: nat, w: nat, rows: seq<seq<Run>>): seq<char> {
    Header(h, w) + Join(EncodeRows(rows))
  }

  lemma {:induction false} JoinBars(rows: seq<seq<char>>)
    requires forall k :: 0 <= k < |rows| ==> Avoids(rows[k], {'|'})
    ensures CountOf(Join(rows), '|') == if |rows| == 0 then 0 else |rows| - 1
    decreases |rows|
  {
    if |rows| == 1 {
      assert '|' !in rows[0];
    } else if |rows| > 1 {
      assert '|' !in rows[0];
      JoinBars(rows[1..]);
      CountOfAppend(rows[0], ['|'], '|');
      CountOfAppend(rows[0] + ['|'], Join(rows[1..]), '|');
      assert CountOf(['|'], '|') == 1;
    }
  }

  /** No character of a header before its own '|' is a '|'. */
  lemma HeaderHead(h: nat, w: nat)
    ensures Header(h, w) == ['B'] + Decimal(h) + ['x'] + Decimal(w) + ['|']
    ensures '|' !in ['B'] + Decimal(h) + ['x'] + Decimal(w)
    ensures 'x' !in ['B'] + Decimal(h)
  {
    var dh, dw := Decimal(h), Decimal(w);
    var head := ['B'] + dh + ['x'] + dw;
    forall i | 0 <= i < |head|
      ensures head[i] != '|'
      ensures i <= |dh| ==> head[i] != 'x'
    {
      if 0 < i <= |dh| {
        assert head[i] == dh[i - 1] && IsDigit(dh[i - 1]);
      } else if i > |dh| + 1 {
        assert head[i] == dw[i - |dh| - 2] && IsDigit(dw[i - |dh| - 2]);
      }
    }
    assert ['B'] + dh == head[..|dh| + 1];
  }

  /** Where the header's pieces sit: its 'x' and '|' come first in the
      text, and the numbers lie between them. */
  lemma HeaderLayout(h: nat, w: nat, rest: seq<char>)
    ensures WellFormedHeader(Header(h, w) + rest)
    ensures IndexOf(Header(h, w) + rest, 'x') == 1 + |Decimal(h)|
    ensures IndexOf(Header(h, w) + rest, '|') == |Header(h, w)| - 1
    ensures (Header(h, w) + rest)[1..1 + |Decimal(h)|] == Decimal(h)
    ensures (Header(h, w) + rest)[2 + |Decimal(h)|..|Header(h, w)| - 1] == Decimal(w)
  {
    var s := Header(h, w) + rest;
    var dh, dw := Decimal(h), Decimal(w);
    var px := 1 + |dh|;
    var pb := px + 1 + |dw|;
    HeaderHead(h, w);
    var head := ['B'] + dh + ['x'] + dw;
    assert s == head + ['|'] + rest;
    assert s[px] == 'x' && s[pb] == '|';
    forall i | 0 <= i < pb
      ensures i < px ==> s[i] != 'x'
      ensures s[i] != '|'
    {
      assert s[i] == head[i];
      if i < px {
        assert head[i] == (['B'] + dh)[i];
      }
    }
    IndexOfAt(s, 'x', px);
    IndexOfAt(s, '|', pb);
    assert s[1..px] == dh;
    assert s[px + 1..pb] == dw;
  }

  /** A header adds exactly one '|' to whatever follows it. */
  lemma HeaderBars(h: nat, w: nat, rest: seq<char>)
    ensures CountOf(Header(h, w) + rest, '|') == 1 + CountOf(rest, '|')
  {
    HeaderHead(h, w);
    var head := ['B'] + Decimal(h) + ['x'] + Decimal(w);
    CountOfAppend(head, ['|'], '|');
    CountOfAppend(head + ['|'], rest, '|');
    assert CountOf(['|'], '|') == 1;
  }

  /** The header's numbers read back as the numbers printed, whatever
      follows the header. */
  lemma HeaderRoundTrip(h: nat, w: nat, rest: seq<char>)
    requires ShortDigitRuns(Header(h, w) + rest)
    ensures WellFormedHeader(Header(h, w) + rest)
    ensures HeaderHeight(Header(h, w) + rest) == h
    ensures HeaderWidth(Header(h, w) + rest) == w
  {
    var s := Header(h, w) + rest;
    HeaderLayout(h, w, rest);
    var px := 1 + |Decimal(h)|;
    var pb := |Header(h, w)| - 1;
    DigitRunsFromBound(s, 0, 1, px);
    DigitRunsFromBound(s, 0, px + 1, pb);
    DecimalReadsBack(h);
    DecimalReadsBack(w);
  }

  /** The rows part of a board text splits and lexes back into the rows'
      runs, and holds one '|' fewer than it has rows. */
  lemma {:induction false} RowsTextRoundTrip(rows: seq<seq<Run>>)
    requires PrintableRows(rows) && NoLongDigitRuns(Join(EncodeRows(rows)))
    ensures CountOf(Join(EncodeRows(rows)), '|') == if |rows| == 0 then 0 else |rows| - 1
    ensures LexRows(Rows(Join(EncodeRows(rows)))) == Flatten(rows)
  {
    var body := EncodeRows(rows);
    forall k | 0 <= k < |rows|
      ensures |body[k]| > 0 && Avoids(body[k], {'|'})
      ensures k > 0 ==> Avoids(body[k], LaterDelims)
      ensures forall i :: 0 <= i < |rows[k]| ==> !IsDigit(rows[k][i].letter)
    {
      assert PrintableLetter(rows[k][0].letter, k);
      EncodeRunsAvoids(rows[k], {'|'});
      if k > 0 {
        EncodeRunsAvoids(rows[k], LaterDelims);
      }
    }
    JoinBars(body);
    RowsJoin(body);
    LexRowsRoundTrip(rows);
  }

  lemma ShortDigitRunsSuffix(s: seq<char>, a: nat)
    requires ShortDigitRuns(s) && a <= |s|
    ensures NoLongDigitRuns(s[a..])
  {
    ShortDigitRunsSound(s);
    NoLongDigitRunsSlice(s, a, |s|);
  }

  /** The decoder reads back what a board text lists: the header's numbers,
      one '|' per row (at least the header's), and every row's runs in
      order. */
  lemma BoardTextRoundTrip(h: nat, w: nat, rows: seq<seq<Run>>)
    requires PrintableRows(rows) && ShortDigitRuns(BoardText(h, w, rows))
    ensures WellFormedHeader(BoardText(h, w, rows))
    ensures HeaderHeight(BoardText(h, w, rows)) == h
    ensures HeaderWidth(BoardText(h, w, rows)) == w
    ensures CountOf(BoardText(h, w, rows), '|') == if |rows| == 0 then 1 else |rows|
    ensures RunsOf(BoardText(h, w, rows)) == Flatten(rows)
  {
    var s := BoardText(h, w, rows);
    var j := Join(EncodeRows(rows));
    HeaderLayout(h, w, j);
    HeaderBars(h, w, j);
    HeaderRoundTrip(h, w, j);
    assert s[|Header(h, w)|..] == j;
    ShortDigitRunsSuffix(s, |Header(h, w)|);
    RowsTextRoundTrip(rows);
  }

  /** Decoding a board text is deciding the runs it lists. */
  lemma DecompressBoardText(h: nat, w: nat, rows: seq<seq<Run>>)
    requires PrintableRows(rows) && DecompressPre(BoardText(h, w, rows))
    ensures Decompress(BoardText(h, w, rows)) == DecodeRuns(h, w, if |rows| == 0 then 1 else |rows|, Flatten(rows))
  {
    BoardTextRoundTrip(h, w, rows);
  }

  function StatusOf(r: Result<Board, InitStatus>): InitStatus {
    if r.Ok? then InitSuccess else r.error
  }

  /** After any S run the snake cells counted so far number exactly one. */
  predicate SnakeRule(runs: seq<Run>) {
    forall k :: 0 <= k < |runs| && runs[k].letter == 'S' ==> SnakeSum(runs[..k + 1]) == 1
  }

  /** A run `S0` after the snake cell passes every check, since the snake
      count stays one, yet it still records a body entry: `total - 1`, the
      last cell written so far, which becomes the head. When the `S0`
      directly follows the `S1`, that is the snake cell itself, so the snake
      starts with two entries for the same cell. */
  lemma ZeroSnakeRunDuplicatesHead()
    ensures ScanRuns([Run('S', 1), Run('S', 0), Run('E', 1)], 2, Acc(0, 0, [], [])) ==
      Ok(Acc(2, 1, [Snake, Plain], [0, 0]))
  {
    var runs := [Run('S', 1), Run('S', 0), Run('E', 1)];
    assert runs[1..] == [Run('S', 0), Run('E', 1)] && runs[1..][1..] == [Run('E', 1)];
    assert Repeat(Snake, 1) == [Snake] && Repeat(Snake, 0) == [] && Repeat(Plain, 1) == [Plain];
    assert [Run('E', 1)][1..] == [];
    assert [] + [Snake] == [Snake] && [Snake] + [] == [Snake] && [Snake] + [Plain] == [Snake, Plain];
    assert [0] + [] == [0] && [0] + [0] == [0, 0];
    var a1 := Acc(1, 1, [Snake], [0]);
    var a2 := Acc(1, 1, [Snake], [0, 0]);
    assert ScanRuns([Run('E', 1)], 2, a2) == Ok(Acc(2, 1, [Snake, Plain], [0, 0]));
    assert ScanRuns(runs[1..], 2, a1) == ScanRuns([Run('E', 1)], 2, a2);
    assert ScanRuns(runs, 2, Acc(0, 0, [], [])) == ScanRuns(runs[1..], 2, a1);
  }

  /** When other runs come between, the entry an `S0` records is the last
      cell they wrote: on a 1x4 board `S1 E3 S0` decodes with the plain
      cell 3 at the head of the body [3, 0]. */
  lemma ZeroSnakeRunHeadsPlainCell()
    ensures DecodeRuns(1, 4, 1, [Run('S', 1), Run('E', 3), Run('S', 0)]) ==
      Ok(Board(4, 1, [Snake, Plain, Plain, Plain], [3, 0], Right))
  {
    var runs := [Run('S', 1), Run('E', 3), Run('S', 0)];
    assert runs[1..] == [Run('E', 3), Run('S', 0)] && runs[1..][1..] == [Run('S', 0)];
    assert [Run('S', 0)][1..] == [];
    assert Repeat(Snake, 1) == [Snake] && Repeat(Snake, 0) == [];
    assert Repeat(Plain, 3) == [Plain, Plain, Plain];
    assert [] + [Snake] == [Snake] && [Snake] + [Plain, Plain, Plain] == [Snake, Plain, Plain, Plain];
    assert [Snake, Plain, Plain, Plain] + [] == [Snake, Plain, Plain, Plain];
    assert [0] + [] == [0] && [3] + [0] == [3, 0];
    var a1 := Acc(1, 1, [Snake], [0]);
    var a2 := Acc(4, 1, [Snake, Plain, Plain, Plain], [0]);
    var a3 := Acc(4, 1, [Snake, Plain, Plain, Plain], [3, 0]);
    assert ScanRuns([Run('S', 0)], 4, a2) == Ok(a3);
    assert ScanRuns(runs[1..], 4, a1) == ScanRuns([Run('S', 0)], 4, a2);
    assert ScanRuns(runs, 4, Acc(0, 0, [], [])) == ScanRuns(runs[1..], 4, a1);
  }

  /** The scan over a whole run sequence ends with exactly `area` cells and
      one snake cell exactly when every letter is W, E or S, the snake count
      is one after every S run, and the counts add up. */
  lemma ScanSucceedsIff(runs: seq<Run>, area: int)
    ensures var r := ScanRuns(runs, area, Acc(0, 0, [], []));
      (r.Ok? && r.value.total == area && r.value.snakes == 1) <==>
        (ValidLetters(runs) && SnakeRule(runs) && Sum(runs) == area && SnakeSum(runs) == 1)
  {
    assert runs[..0] == [] && runs[0..] == runs;
    assert AccOf([]) == Acc(0, 0, [], []);
    ScanAccepts(runs, 0, area);
    var r := ScanRuns(runs, area, Acc(0, 0, [], []));
    if r.Ok? {
      forall k | 0 <= k < |runs| && runs[k].letter == 'S'
        ensures SnakeSum(runs[..k + 1]) == 1
      {
        assert AcceptedAt(runs, k, area);
      }
      assert r.value == AccOf(runs);
    }
    if ValidLetters(runs) && SnakeRule(runs) && Sum(runs) == area {
      forall k | 0 <= k < |runs|
        ensures AcceptedAt(runs, k, area)
      {
        SumPrefix(runs, k + 1);
      }
      assert r.Ok? && r.value == AccOf(runs);
    }
  }

  /** Decoding succeeds exactly when there is one '|' per row, every run
      letter is W, E or S, the runs cover exactly width * height cells,
      exactly one cell is a snake cell, and the snake count is one after
      every S run. */
  lemma DecodeSucceedsIff(height: nat, width: nat, bars: nat, runs: seq<Run>)
    ensures DecodeRuns(height, width, bars, runs).Ok? <==>
      && bars == height
      && ValidLetters(runs)
      && SnakeRule(runs)
      && Sum(runs) == width * height
      && SnakeSum(runs) == 1
  {
    ScanSucceedsIff(runs, width * height);
  }

  /** A successful decode holds exactly the cells the runs describe and one
      body entry per S run. */
  lemma DecodeContents(height: nat, width: nat, bars: nat, runs: seq<Run>)
    requires DecodeRuns(height, width, bars, runs).Ok?
    ensures ValidLetters(runs)
    ensures DecodeRuns(height, width, bars, runs).value.cells == Expand(runs)
    ensures DecodeRuns(height, width, bars, runs).value.body == SnakePositions(runs)
  {
    assert runs[..0] == [] && runs[0..] == runs;
    assert AccOf([]) == Acc(0, 0, [], []);
    ScanAccepts(runs, 0, width * height);
  }

  /** With one '|' per row, the first run the scan rejects decides the
      error: the running total beyond the area wins over a bad letter, and
      a bad letter wins over a wrong snake count. */
  lemma DecodeErrorOrder(height: nat, width: nat, runs: seq<Run>, k: nat)
    requires k < |runs|
    requires forall j :: 0 <= j < k ==> AcceptedAt(runs, j, width * height)
    requires !AcceptedAt(runs, k, width * height)
    ensures DecodeRuns(height, width, height, runs) == Err(Rejection(runs, k, width * height))
  {
    assert runs[..0] == [] && runs[0..] == runs;
    assert AccOf([]) == Acc(0, 0, [], []);
    ScanRejects(runs, 0, k, width * height);
  }

  /** The checks after the last run, once every run was accepted: a cell
      total short of the area is reported as wrong dimensions, which wins
      over a snake count other than one. */
  lemma DecodeFinalChecks(height: nat, width: nat, runs: seq<Run>)
    requires forall k :: 0 <= k < |runs| ==> AcceptedAt(runs, k, width * height)
    ensures Sum(runs) != width * height ==> DecodeRuns(height, width, height, runs) == Err(IncorrectDimensions)
    ensures Sum(runs) == width * height && SnakeSum(runs) != 1 ==> DecodeRuns(height, width, height, runs) == Err(WrongSnakeNum)
  {
    assert runs[..0] == [] && runs[0..] == runs;
    assert AccOf([]) == Acc(0, 0, [], []);
    ScanAccepts(runs, 0, width * height);
  }

  /** Cell `i` of the expanded board holds the flag of the run covering `i`. */
  lemma {:induction false} ExpandCovering(runs: seq<Run>, k: nat, j: nat)
    requires ValidLetters(runs) && k < |runs| && j < runs[k].count
    ensures |Expand(runs)| == Sum(runs)
    ensures Sum(runs[..k]) + j < Sum(runs)
    ensures Expand(runs)[Sum(runs[..k]) + j] == FlagOf(runs[k].letter)
    decreases |runs|
  {
    var init := runs[..|runs| - 1];
    ExpandLength(init);
    if k == |runs| - 1 {
      assert runs[..k] == init;
    } else {
      assert init[..k] == runs[..k];
      ExpandCovering(init, k, j);
    }
  }

  lemma {:induction false} ExpandLength(runs: seq<Run>)
    requires ValidLetters(runs)
    ensures |Expand(runs)| == Sum(runs)
    decreases |runs|
  {
    if |runs| > 0 {
      ExpandLength(runs[..|runs| - 1]);
    }
  }

  /** The expanded board holds as many snake cells as the S runs cover. */
  lemma {:induction false} ExpandSnakeCount(runs: seq<Run>)
    requires ValidLetters(runs)
    ensures CountOf(Expand(runs), Snake) == SnakeSum(runs)
    decreases |runs|
  {
    if |runs| > 0 {
      var last := runs[|runs| - 1];
      ExpandSnakeCount(runs[..|runs| - 1]);
      CountOfAppend(Expand(runs[..|runs| - 1]), Repeat(FlagOf(last.letter), last.count), Snake);
      RepeatCount(FlagOf(last.letter), last.count);
    }
  }

  lemma {:induction false} RepeatCount(c: Cell, n: nat)
    ensures CountOf(Repeat(c, n), Snake) == (if c == Snake then n else 0)
  {
    if n > 0 {
      assert Repeat(c, n)[..n - 1] == Repeat(c, n - 1);
      RepeatCount(c, n - 1);
    }
  }

  /** A successful decode has exactly one SNAKE cell. */
  lemma DecodeOneSnakeCell(height: nat, width: nat, bars: nat, runs: seq<Run>)
    requires DecodeRuns(height, width, bars, runs).Ok?
    ensures CountOf(DecodeRuns(height, width, bars, runs).value.cells, Snake) == 1
  {
    DecodeSucceedsIff(height, width, bars, runs);
    DecodeContents(height, width, bars, runs);
    ExpandSnakeCount(runs);
  }

  // ---------------------------------------------------------------------------
  // initialize_game
  // ---------------------------------------------------------------------------

  /** initialize_game. `rep` is the board text, None for the default board;
      `draws` feed the food placement. The status and the started game come
      back; the game is None on any error, and otherwise exactly when no
      draw lands on a plain cell, so that food cannot be placed. */
  method InitializeGame(rep: Option<seq<char>>, draws: seq<nat>) returns (status: InitStatus, game: Option<State>)
    requires rep.Some? ==> DecompressPre(rep.value)
    ensures rep.None? ==> status == InitSuccess
    ensures rep.Some? ==> status == StatusOf(Decompress(rep.value))
    ensures status != InitSuccess ==> game.None?
    ensures rep.None? ==>
      (game.Some? <==> exists k :: 0 <= k < |draws| && DefaultFlag(draws[k] % 200) == Plain)
    ensures rep.Some? && Decompress(rep.value).Ok? ==>
      var b := Decompress(rep.value).value;
      (game.Some? <==> exists k :: 0 <= k < |draws| && b.cells[draws[k] % |b.cells|] == Plain)
    ensures game.Some? ==> !game.value.gameOver && game.value.score == 0 && game.value.dir == Right
    ensures rep.None? && game.Some? ==>
      && game.value.width == 20 && game.value.height == 10 && game.value.body == [42]
      && |game.value.cells| == 200
      && Game.Playable(game.value)
      && (exists f :: && 0 <= f < 200 && DefaultFlag(f) == Plain && game.value.cells[f] == Food
                      && forall i :: 0 <= i < 200 && i != f ==> game.value.cells[i] == DefaultFlag(i))
    ensures rep.Some? && game.Some? ==>
      var b := Decompress(rep.value).value;
      && game.value.width == b.width && game.value.height == b.height && game.value.body == b.body
      && exists f :: Game.FoodPlaced(b.cells, game.value.cells, f)
  {
    var cells: seq<Cell>;
    var width: nat;
    var height: nat;
    var body: seq<int>;
    var dir: Input;
    if rep.Some? {
      var decoded := Decompress(rep.value);
      if decoded.Err? {
        return decoded.error, None;
      }
      status := InitSuccess;
      cells, width, height, body, dir := decoded.value.cells, decoded.value.width, decoded.value.height, decoded.value.body, decoded.value.dir;
    } else {
      dir := Right;
      body := [42];
      cells, width, height := InitializeDefaultBoard();
      status := InitSuccess;
    }
    var fed := Game.PlaceFood(cells, draws);
    if fed.None? {
      return status, None;
    }
    var k :| Game.FirstPlainDraw(cells, draws, k) && Game.FoodPlaced(cells, fed.value, draws[k] % |cells|);
    game := Some(State(fed.value, width, height, body, dir, false, 0));
  }

  /** With food placed anywhere but cell 43, the first tick on the default
      board without input moves the head one cell right and vacates 42. */
  lemma DefaultFirstTick(g: State, f: int, draws: seq<nat>)
    requires g.width == 20 && g.height == 10 && g.body == [42] && g.dir == Right
    requires !g.gameOver && |g.cells| == 200
    requires 0 <= f < 200 && f != 43 && g.cells[f] == Food
    requires forall i :: 0 <= i < 200 && i != f ==> g.cells[i] == DefaultFlag(i)
    ensures Game.Playable(g)
    ensures var r := Game.Update(g, NoInput, false, draws);
      && r.Some? && r.value.body == [43] && !r.value.gameOver && r.value.score == g.score
      && r.value.cells[43] == Snake && r.value.cells[42] == Plain
  {
    assert DefaultFlag(43) == Plain;
    assert Game.Aim(g, NoInput) == 43;
    Game.SingleSegmentNeverCollides(g, NoInput, false, draws);
  }
}

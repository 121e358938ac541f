/** The substitution-matrix reader of main.cpp (read_blosum): reads an
    NCBI-style fixed-column table into a 20 x 20 score table indexed by
    residue code. The lines are the result of read_file, taken as input. */
module Blosum {
  import opened Alphabet

  /** Symbols on the header row, and cells on each data row. */
  const Columns := 23
  /** The last character position a header or data row is read at (3 * 23). */
  const LastColumn := 69

  /** kBlosum: 20 rows of 20 scores. */
  type Table = t: seq<seq<int>> | |t| == 20 && forall r :: 0 <= r < 20 ==> |t[r]| == 20
    witness seq(20, _ => seq(20, _ => 0))

  /** The table read_blosum starts from: every cell 0. */
  function Zero(): Table { seq(20, _ => seq(20, _ => 0)) }

  /** The reader's variables: local_alphabets, row_i and kBlosum. */
  datatype Reader = Reader(alphabet: seq<char>, row: nat, table: Table)

  /** The state of the loop over the lines: still reading, stopped by a '*'
      line, aborted by the assert on a blank header column, or past a read
      that is out of range (undefined in C++). */
  datatype Scan = Scanning(rd: Reader) | Stopped(rd: Reader) | BlankHeaderColumn | OutOfRange

  /** The outcome of reading the first n header columns. */
  datatype Header = Symbols(symbols: seq<char>) | Blank | PastEnd

  /** The header loop (main.cpp:162-165) over its first n columns: column j
      is the character at 3j + 3. */
  function HeaderUpTo(line: string, n: nat): Header
    requires n <= Columns
  {
    if n == 0 then Symbols([])
    else
      match HeaderUpTo(line, n - 1)
      case Symbols(s) =>
        if 3 * n > |line| then PastEnd
        else if CharAt(line, 3 * n) == ' ' then Blank
        else Symbols(s + [CharAt(line, 3 * n)])
      case other => other
  }

  /** A header row yields its 23 symbols exactly when it is long enough and
      no column is blank; the first failing column decides otherwise. */
  lemma {:induction false} HeaderColumns(line: string, n: nat)
    requires n <= Columns
    ensures HeaderUpTo(line, n).Symbols? <==>
      3 * n <= |line| && forall j :: 0 <= j < n ==> CharAt(line, 3 * j + 3) != ' '
    ensures HeaderUpTo(line, n).Symbols? ==>
      |HeaderUpTo(line, n).symbols| == n &&
      forall j :: 0 <= j < n ==> HeaderUpTo(line, n).symbols[j] == CharAt(line, 3 * j + 3)
    ensures HeaderUpTo(line, n).PastEnd? ==> |line| < 3 * n
  {
    if n > 0 {
      HeaderColumns(line, n - 1);
      if HeaderUpTo(line, n).Symbols? {
        assert HeaderUpTo(line, n - 1).Symbols?;
      } else if 3 * n <= |line| && HeaderUpTo(line, n - 1).Symbols? {
        assert CharAt(line, 3 * (n - 1) + 3) == ' ';
      }
    }
  }

  /** Once a header column fails, the failure is the outcome of the row. */
  lemma {:induction false} HeaderFailurePersists(line: string, n: nat, m: nat)
    requires n <= m <= Columns && !HeaderUpTo(line, n).Symbols?
    ensures HeaderUpTo(line, m) == HeaderUpTo(line, n)
    decreases m - n
  {
    if n < m {
      HeaderFailurePersists(line, n, m - 1);
    }
  }

  /** The score in one cell: the digit's value, negated when the sign is '-'
      and the digit is not '0'. Only one digit is read. */
  function CellValue(sign: char, digit: char): int {
    var v := digit as int - '0' as int;
    if sign == '-' && digit != '0' then -v else v
  }

  /** On digits, a cell is a score in [-9, 9], negative exactly for '-'
      followed by a non-zero digit, and zero exactly for the digit '0'. */
  lemma CellValueOfDigit(sign: char, digit: char)
    requires '0' <= digit <= '9'
    ensures -9 <= CellValue(sign, digit) <= 9
    ensures CellValue(sign, digit) < 0 <==> sign == '-' && digit != '0'
    ensures CellValue(sign, digit) == 0 <==> digit == '0'
  {
  }

  /** The cell loop (main.cpp:173-190) over its first n cells on row r:
      cell j has its sign at 3j + 2 and its digit at 3j + 3, and is stored
      only when column j's symbol is canonical. */
  function RowCells(t: Table, line: string, alphabet: seq<char>, r: nat, n: nat): Table
    requires r < 20 && n <= Columns && |alphabet| >= Columns && |line| >= LastColumn
  {
    if n == 0 then t
    else
      var u := RowCells(t, line, alphabet, r, n - 1);
      var col := alphabet[n - 1];
      if IsCanonical(col) then
        u[r := u[r][Code(col) := CellValue(CharAt(line, 3 * n - 1), CharAt(line, 3 * n))]]
      else u
  }

  /** Cells of other rows, and of columns no canonical symbol names, keep
      their value. */
  lemma {:induction false} RowCellsFrame(t: Table, line: string, alphabet: seq<char>, r: nat, n: nat, r': nat, c: nat)
    requires r < 20 && n <= Columns && |alphabet| >= Columns && |line| >= LastColumn
    requires r' < 20 && c < 20
    requires r' != r || forall j :: 0 <= j < n && IsCanonical(alphabet[j]) ==> Code(alphabet[j]) != c
    ensures RowCells(t, line, alphabet, r, n)[r'][c] == t[r'][c]
  {
    if n > 0 {
      RowCellsFrame(t, line, alphabet, r, n - 1, r', c);
    }
  }

  /** The cell of column j gets column j's score, unless a later column
      carries the same symbol (a later column overwrites). */
  lemma {:induction false} RowCellsAt(t: Table, line: string, alphabet: seq<char>, r: nat, n: nat, j: nat)
    requires r < 20 && n <= Columns && |alphabet| >= Columns && |line| >= LastColumn
    requires j < n && IsCanonical(alphabet[j])
    requires forall k :: j < k < n ==> alphabet[k] != alphabet[j]
    ensures RowCells(t, line, alphabet, r, n)[r][Code(alphabet[j])]
         == CellValue(CharAt(line, 3 * j + 2), CharAt(line, 3 * j + 3))
  {
    if j < n - 1 {
      RowCellsAt(t, line, alphabet, r, n - 1, j);
      var col := alphabet[n - 1];
      if IsCanonical(col) {
        CodeInjective(col, alphabet[j]);
      }
    }
  }

  /** The cells read depend only on the characters from position 2 on. */
  lemma {:induction false} RowCellsIgnoresLabel(t: Table, l1: string, l2: string, alphabet: seq<char>, r: nat, n: nat)
    requires r < 20 && n <= Columns && |alphabet| >= Columns && |l1| >= LastColumn
    requires |l1| == |l2| && l1[2..] == l2[2..]
    ensures RowCells(t, l1, alphabet, r, n) == RowCells(t, l2, alphabet, r, n)
  {
    if n > 0 {
      RowCellsIgnoresLabel(t, l1, l2, alphabet, r, n - 1);
      assert l1[3 * n - 1] == l1[2..][3 * n - 3] == l2[3 * n - 1];
      if 3 * n < |l1| {
        assert l1[3 * n] == l1[2..][3 * n - 2] == l2[3 * n];
      }
    }
  }

  /** A space-led line (main.cpp:161-166): its symbols extend the column
      alphabet. */
  function HeaderStep(rd: Reader, line: string): Scan {
    match HeaderUpTo(line, Columns)
    case Symbols(s) => Scanning(rd.(alphabet := rd.alphabet + s))
    case Blank => BlankHeaderColumn
    case PastEnd => OutOfRange
  }

  /** Any other line (main.cpp:167-192): a data row for the row symbol
      local_alphabets[row_i], skipped when that symbol is not canonical. */
  function DataStep(rd: Reader, line: string): Scan {
    if rd.row >= |rd.alphabet| then OutOfRange
    else if !IsCanonical(rd.alphabet[rd.row]) then Scanning(rd)
    else if |line| < LastColumn || |rd.alphabet| < Columns then OutOfRange
    else Scanning(Reader(rd.alphabet, rd.row + 1,
                         RowCells(rd.table, line, rd.alphabet, Code(rd.alphabet[rd.row]), Columns)))
  }

  /** One pass of the loop body at main.cpp:155-192. */
  function StepLine(rd: Reader, line: string): Scan {
    var lead := CharAt(line, 0);
    if lead == '#' then Scanning(rd)
    else if lead == '*' then Stopped(rd)
    else if lead == ' ' then HeaderStep(rd, line)
    else DataStep(rd, line)
  }

  function Step(sc: Scan, line: string): Scan {
    if sc.Scanning? then StepLine(sc.rd, line) else sc
  }

  /** The loop over all lines, from scan state sc. */
  function Run(sc: Scan, lines: seq<string>): Scan {
    if lines == [] then sc
    else Step(Run(sc, lines[..|lines| - 1]), lines[|lines| - 1])
  }

  function Start(): Scan { Scanning(Reader([], 0, Zero())) }

  /** read_blosum on the lines of a file. */
  function Parse(lines: seq<string>): Scan {
    Run(Start(), lines)
  }

  lemma RunSnoc(sc: Scan, lines: seq<string>, line: string)
    ensures Run(sc, lines + [line]) == Step(Run(sc, lines), line)
  {
    assert (lines + [line])[..|lines|] == lines;
  }

  /** After a '*' line or a failure nothing more is read. */
  lemma {:induction false} RunFinal(sc: Scan, lines: seq<string>)
    requires !sc.Scanning?
    ensures Run(sc, lines) == sc
  {
    if lines != [] {
      RunFinal(sc, lines[..|lines| - 1]);
    }
  }

  lemma {:induction false} RunSplit(sc: Scan, a: seq<string>, b: seq<string>)
    ensures Run(sc, a + b) == Run(Run(sc, a), b)
  {
    if b == [] {
      assert a + b == a;
    } else {
      var b' := b[..|b| - 1];
      RunSplit(sc, a, b');
      assert a + b == (a + b') + [b[|b| - 1]];
      RunSnoc(sc, a + b', b[|b| - 1]);
      assert b == b' + [b[|b| - 1]];
    }
  }

  /** A prefix that ends the scan decides the whole result. */
  lemma PrefixDecides(lines: seq<string>, k: nat)
    requires k <= |lines| && !Run(Start(), lines[..k]).Scanning?
    ensures Parse(lines) == Run(Start(), lines[..k])
  {
    RunSplit(Start(), lines[..k], lines[k..]);
    assert lines[..k] + lines[k..] == lines;
    RunFinal(Run(Start(), lines[..k]), lines[k..]);
  }

  /** The first '*' line ends parsing: whatever follows it is never read. */
  lemma StarEndsParsing(pre: seq<string>, star: string, post: seq<string>)
    requires CharAt(star, 0) == '*'
    ensures !Parse(pre + [star]).Scanning?
    ensures Parse(pre + [star] + post) == Parse(pre + [star])
  {
    RunSnoc(Start(), pre, star);
    RunSplit(Start(), pre + [star], post);
    RunFinal(Parse(pre + [star]), post);
  }

  /** The lines that are not '#' comments. */
  function WithoutComments(lines: seq<string>): seq<string> {
    if lines == [] then []
    else
      var line := lines[|lines| - 1];
      WithoutComments(lines[..|lines| - 1]) + (if CharAt(line, 0) == '#' then [] else [line])
  }

  lemma {:induction false} RunWithoutComments(sc: Scan, lines: seq<string>)
    ensures Run(sc, lines) == Run(sc, WithoutComments(lines))
  {
    if lines != [] {
      var init := lines[..|lines| - 1];
      var line := lines[|lines| - 1];
      RunWithoutComments(sc, init);
      assert Run(sc, lines) == Step(Run(sc, init), line);
      if CharAt(line, 0) != '#' {
        assert WithoutComments(lines) == WithoutComments(init) + [line];
        RunSnoc(sc, WithoutComments(init), line);
      } else {
        assert WithoutComments(lines) == WithoutComments(init);
        assert Step(Run(sc, init), line) == Run(sc, init);
      }
    }
  }

  /** '#' lines are skipped: dropping them changes nothing. */
  lemma CommentLinesIgnored(lines: seq<string>)
    ensures Parse(lines) == Parse(WithoutComments(lines))
  {
    RunWithoutComments(Start(), lines);
  }

  /** A space-led line appends the 23 characters at 3, 6, ..., 69 to the
      column alphabet, and is refused when one of them is a space. */
  lemma HeaderRowAppends(rd: Reader, line: string)
    requires CharAt(line, 0) == ' ' && |line| >= LastColumn
    ensures (forall j :: 0 <= j < Columns ==> CharAt(line, 3 * j + 3) != ' ') ==>
      StepLine(rd, line) == Scanning(rd.(alphabet := rd.alphabet + seq(Columns, j requires 0 <= j < Columns => CharAt(line, 3 * j + 3))))
    ensures (exists j :: 0 <= j < Columns && CharAt(line, 3 * j + 3) == ' ') ==>
      StepLine(rd, line) == BlankHeaderColumn
  {
    HeaderColumns(line, Columns);
    if HeaderUpTo(line, Columns).Symbols? {
      var s := HeaderUpTo(line, Columns).symbols;
      assert s == seq(Columns, j requires 0 <= j < Columns => CharAt(line, 3 * j + 3));
    }
  }

  /** The row a data line fills is named by local_alphabets[row_i]: the
      line's own leading label plays no part. */
  lemma RowLabelIgnored(rd: Reader, l1: string, l2: string)
    requires |l1| >= 2 && |l1| == |l2| && l1[2..] == l2[2..]
    requires l1[0] !in "#* " && l2[0] !in "#* "
    ensures StepLine(rd, l1) == StepLine(rd, l2)
  {
    if rd.row < |rd.alphabet| && IsCanonical(rd.alphabet[rd.row]) && |l1| >= LastColumn && |rd.alphabet| >= Columns {
      RowCellsIgnoresLabel(rd.table, l1, l2, rd.alphabet, Code(rd.alphabet[rd.row]), Columns);
    }
  }

  /** Once row_i names a non-canonical symbol it never advances again, so no
      later data row is stored. */
  lemma {:induction false} StuckRowFreezesTable(rd: Reader, lines: seq<string>)
    requires rd.row < |rd.alphabet| && !IsCanonical(rd.alphabet[rd.row])
    ensures var r := Run(Scanning(rd), lines);
      (r.Scanning? || r.Stopped?) ==>
        r.rd.row == rd.row && r.rd.table == rd.table &&
        |rd.alphabet| <= |r.rd.alphabet| && r.rd.alphabet[..|rd.alphabet|] == rd.alphabet
  {
    if lines != [] {
      StuckRowFreezesTable(rd, lines[..|lines| - 1]);
    }
  }

  /** One cell value read from a line: some column's sign and digit. */
  predicate ReadFrom(v: int, line: string) {
    exists j :: 0 <= j < Columns && 3 * j + 3 <= |line| &&
      v == CellValue(CharAt(line, 3 * j + 2), CharAt(line, 3 * j + 3))
  }

  lemma {:induction false} RowCellsFromLine(t: Table, line: string, alphabet: seq<char>, r: nat, n: nat, r': nat, c: nat)
    requires r < 20 && n <= Columns && |alphabet| >= Columns && |line| >= LastColumn
    requires r' < 20 && c < 20
    ensures RowCells(t, line, alphabet, r, n)[r'][c] == t[r'][c] || ReadFrom(RowCells(t, line, alphabet, r, n)[r'][c], line)
  {
    if n > 0 {
      RowCellsFromLine(t, line, alphabet, r, n - 1, r', c);
      var col := alphabet[n - 1];
      if IsCanonical(col) && r' == r && c == Code(col) {
        assert ReadFrom(RowCells(t, line, alphabet, r, n)[r'][c], line) by {
          var j := n - 1;
          assert 3 * j + 3 <= |line|;
        }
      }
    }
  }

  /** Every cell keeps its starting value or holds a score read from one of
      the lines. */
  lemma {:induction false} RunCellsFromInput(rd: Reader, lines: seq<string>, r: nat, c: nat)
    requires r < 20 && c < 20
    ensures var s := Run(Scanning(rd), lines);
      (s.Scanning? || s.Stopped?) ==>
        s.rd.table[r][c] == rd.table[r][c] ||
        exists k :: 0 <= k < |lines| && ReadFrom(s.rd.table[r][c], lines[k])
  {
    if lines != [] {
      var init := lines[..|lines| - 1];
      var line := lines[|lines| - 1];
      RunCellsFromInput(rd, init, r, c);
      var p := Run(Scanning(rd), init);
      var s := Run(Scanning(rd), lines);
      if p.Scanning? && s.Scanning? && s.rd.table != p.rd.table {
        var q := p.rd;
        RowCellsFromLine(q.table, line, q.alphabet, Code(q.alphabet[q.row]), Columns, r, c);
        if s.rd.table[r][c] != q.table[r][c] {
          assert ReadFrom(s.rd.table[r][c], lines[|lines| - 1]);
        }
      }
      if (s.Scanning? || s.Stopped?) && s.rd.table[r][c] != rd.table[r][c] && p.Scanning? && s.rd.table[r][c] == p.rd.table[r][c] {
        var k :| 0 <= k < |init| && ReadFrom(p.rd.table[r][c], init[k]);
        assert init[k] == lines[k];
      }
    }
  }

  /** The table read_blosum returns is 20 x 20; a cell no data row wrote
      stays 0, and every other cell holds a score read from the file. */
  lemma CellsFromInput(lines: seq<string>, r: nat, c: nat)
    requires r < 20 && c < 20
    requires Parse(lines).Scanning? || Parse(lines).Stopped?
    ensures |Parse(lines).rd.table| == 20 && |Parse(lines).rd.table[r]| == 20
    ensures Parse(lines).rd.table[r][c] == 0 ||
      exists k :: 0 <= k < |lines| && ReadFrom(Parse(lines).rd.table[r][c], lines[k])
  {
    RunCellsFromInput(Start().rd, lines, r, c);
  }

  /** The array holds the table. */
  ghost predicate Holds(a: array2<int>, t: Table)
    reads a
  {
    a.Length0 == 20 && a.Length1 == 20 &&
    forall r, c :: 0 <= r < 20 && 0 <= c < 20 ==> a[r, c] == t[r][c]
  }

  /** One more line advances the scan by one step. */
  lemma Advance(lines: seq<string>, li: nat, rd: Reader)
    requires li < |lines| && Run(Start(), lines[..li]) == Scanning(rd)
    ensures Run(Start(), lines[..li + 1]) == StepLine(rd, lines[li])
  {
    RunSnoc(Start(), lines[..li], lines[li]);
    assert lines[..li + 1] == lines[..li] + [lines[li]];
  }

  /** A comment line leaves the scan as it is; a '*' line ends it. */
  lemma MarkerRowStep(lines: seq<string>, li: nat, rd: Reader)
    requires li < |lines| && Run(Start(), lines[..li]) == Scanning(rd)
    requires CharAt(lines[li], 0) == '#' || CharAt(lines[li], 0) == '*'
    ensures CharAt(lines[li], 0) == '#' ==> Run(Start(), lines[..li + 1]) == Scanning(rd)
    ensures CharAt(lines[li], 0) == '*' ==> Parse(lines) == Stopped(rd)
  {
    Advance(lines, li, rd);
    if CharAt(lines[li], 0) == '*' {
      PrefixDecides(lines, li + 1);
    }
  }

  /** A data row that the scan reaches reads only inside the line and inside
      local_alphabets, and fills the row of its row symbol when that symbol
      is canonical. */
  lemma DataRowStep(lines: seq<string>, li: nat, rd: Reader)
    requires li < |lines| && Run(Start(), lines[..li]) == Scanning(rd)
    requires !Parse(lines).OutOfRange?
    requires CharAt(lines[li], 0) !in "#* "
    ensures rd.row < |rd.alphabet|
    ensures !IsCanonical(rd.alphabet[rd.row]) ==> Run(Start(), lines[..li + 1]) == Scanning(rd)
    ensures IsCanonical(rd.alphabet[rd.row]) ==>
      |lines[li]| >= LastColumn && |rd.alphabet| >= Columns &&
      Run(Start(), lines[..li + 1]) == Scanning(Reader(rd.alphabet, rd.row + 1,
        RowCells(rd.table, lines[li], rd.alphabet, Code(rd.alphabet[rd.row]), Columns)))
  {
    Advance(lines, li, rd);
    if !StepLine(rd, lines[li]).Scanning? {
      PrefixDecides(lines, li + 1);
    }
  }

  /** A header row that the scan reaches is long enough for every column the
      loop reads before any blank one; it extends local_alphabets or aborts. */
  lemma HeaderRowStep(lines: seq<string>, li: nat, rd: Reader)
    requires li < |lines| && Run(Start(), lines[..li]) == Scanning(rd)
    requires !Parse(lines).OutOfRange?
    requires CharAt(lines[li], 0) == ' '
    ensures !HeaderUpTo(lines[li], Columns).PastEnd?
    ensures HeaderUpTo(lines[li], Columns).Blank? ==> Parse(lines).BlankHeaderColumn?
    ensures HeaderUpTo(lines[li], Columns).Symbols? ==>
      Run(Start(), lines[..li + 1]) == Scanning(rd.(alphabet := rd.alphabet + HeaderUpTo(lines[li], Columns).symbols))
  {
    Advance(lines, li, rd);
    if !StepLine(rd, lines[li]).Scanning? {
      PrefixDecides(lines, li + 1);
    }
  }

  /** The cell loop of one data row (main.cpp:173-190): writes row
      `rowChar` of kBlosum in place, as RowCells describes. */
  method FillRow(kBlosum: array2<int>, letterMap: map<char, int>, line: string, alphabet: seq<char>,
                 rowChar: char, ghost t0: Table)
    requires Holds(kBlosum, t0)
    requires forall c :: IsCanonical(c) ==> c in letterMap && letterMap[c] == Code(c)
    requires IsCanonical(rowChar) && |line| >= LastColumn && |alphabet| >= Columns
    modifies kBlosum
    ensures Holds(kBlosum, RowCells(t0, line, alphabet, Code(rowChar), Columns))
  {
    ghost var r := Code(rowChar);
    ghost var j := 0;
    var i := 2;
    while i < 3 * 23 + 2
      invariant 0 <= j <= Columns && i == 3 * j + 2
      invariant Holds(kBlosum, RowCells(t0, line, alphabet, r, j))
    {
      ghost var u := RowCells(t0, line, alphabet, r, j);
      var isNegative := false;
      if line[i] == '-' {
        isNegative := true;
      }
      var digit := CharAt(line, i + 1) as int - '0' as int;
      if isNegative && CharAt(line, i + 1) != '0' {
        digit := -digit;
      }
      assert digit == CellValue(CharAt(line, 3 * (j + 1) - 1), CharAt(line, 3 * (j + 1)));
      var currentColChar := alphabet[i / 3];
      assert i / 3 == j;
      if IsCanonical(currentColChar) {
        var blosumRow := letterMap[rowChar];
        var blosumCol := letterMap[currentColChar];
        kBlosum[blosumRow, blosumCol] := digit;
        assert RowCells(t0, line, alphabet, r, j + 1) == u[r := u[r][blosumCol := digit]];
      }
      j := j + 1;
      i := i + 3;
    }
  }

  /** The header loop (main.cpp:162-165): appends the symbols at 3, 6, ...,
      69 of a space-led line to local_alphabets; `blank` is the failed
      assert on a blank column. */
  method ReadHeaderRow(line: string, alphabet: seq<char>) returns (alphabet': seq<char>, blank: bool)
    requires !HeaderUpTo(line, Columns).PastEnd?
    ensures blank <==> HeaderUpTo(line, Columns).Blank?
    ensures !blank ==> alphabet' == alphabet + HeaderUpTo(line, Columns).symbols
  {
    alphabet' := alphabet;
    ghost var n := 0;
    var i := 3;
    while i < 3 * 24
      invariant 0 <= n <= Columns && i == 3 * n + 3
      invariant |alphabet| <= |alphabet'| && alphabet'[..|alphabet|] == alphabet
      invariant HeaderUpTo(line, n) == Symbols(alphabet'[|alphabet|..])
    {
      if 3 * n + 3 > |line| {
        HeaderFailurePersists(line, n + 1, Columns);
        assert false;
      }
      if CharAt(line, i) == ' ' {
        HeaderFailurePersists(line, n + 1, Columns);
        return alphabet', true;
      }
      alphabet' := alphabet' + [CharAt(line, i)];
      n := n + 1;
      i := i + 3;
    }
    assert alphabet' == alphabet + alphabet'[|alphabet|..];
    blank := false;
  }

  /** read_blosum: fills a fresh 20 x 20 table in place. `aborted` stands for
      the failed assert on a blank header column. */
  method ReadBlosum(lines: seq<string>) returns (kBlosum: array2<int>, aborted: bool)
    requires !Parse(lines).OutOfRange?
    ensures fresh(kBlosum)
    ensures aborted <==> Parse(lines).BlankHeaderColumn?
    ensures !aborted ==> Holds(kBlosum, Parse(lines).rd.table)
  {
    kBlosum := new int[20, 20]((_, _) => 0);
    var letterMap := BuildLetterMap();
    var localAlphabets: seq<char> := [];
    var rowI: nat := 0;
    ghost var table: Table := Zero();
    aborted := false;
    var li := 0;
    while li < |lines|
      invariant 0 <= li <= |lines|
      invariant Run(Start(), lines[..li]) == Scanning(Reader(localAlphabets, rowI, table))
      invariant Holds(kBlosum, table)
    {
      var line := lines[li];
      ghost var rd := Reader(localAlphabets, rowI, table);
      if CharAt(line, 0) == '#' {
        MarkerRowStep(lines, li, rd);
      } else if CharAt(line, 0) == '*' {
        MarkerRowStep(lines, li, rd);
        return;
      } else if CharAt(line, 0) == ' ' {
        HeaderRowStep(lines, li, rd);
        var blank;
        localAlphabets, blank := ReadHeaderRow(line, localAlphabets);
        if blank {
          aborted := true;
          return;
        }
      } else {
        DataRowStep(lines, li, rd);
        var currentRowChar := localAlphabets[rowI];
        if IsCanonical(currentRowChar) {
          FillRow(kBlosum, letterMap, line, localAlphabets, currentRowChar, table);
          table := RowCells(table, line, localAlphabets, Code(currentRowChar), Columns);
          rowI := rowI + 1;
        }
      }
      li := li + 1;
    }
    assert lines[..li] == lines;
  }
}

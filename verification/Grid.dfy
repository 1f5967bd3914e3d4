/**
 Cell labels for speaking over the radio: bijective base-26 columns and decimal rows.
 Input is taken as it stands after the source has stripped and upper-cased it, over
 the letters A to Z and the digits 0 to 9.
 */
module Grid {
  import opened Results
  import opened Domain


  /** A published grid; its constructor refuses any other size. */
  datatype Grid = Grid(rows: int, cols: int) {
    predicate Valid() {
      rows >= 1 && cols >= 1 && rows * cols <= MAX_CELLS
    }

    predicate Contains(cell: int) {
      0 <= cell < rows * cols
    }
  }

  predicate IsLetter(c: char) {
    'A' <= c <= 'Z'
  }

  predicate IsDigit(c: char) {
    '0' <= c <= '9'
  }

  predicate Alphabetic(s: string) {
    s != "" && forall i :: 0 <= i < |s| ==> IsLetter(s[i])
  }

  predicate Numeric(s: string) {
    s != "" && forall i :: 0 <= i < |s| ==> IsDigit(s[i])
  }

  function Letter(k: int): (c: char)
    requires 0 <= k < 26
    ensures IsLetter(c)
  {
    ('A' as int + k) as char
  }

  function Digit(k: int): (c: char)
    requires 0 <= k < 10
    ensures IsDigit(c)
  {
    ('0' as int + k) as char
  }

  /** Bijective base 26: there is no zero, so Z is followed by AA. */
  function Letters(n: nat): string {
    if n == 0 then "" else Letters((n - 1) / 26) + [Letter((n - 1) % 26)]
  }

  function LettersValue(s: string): nat
    requires s == "" || Alphabetic(s)
  {
    if s == "" then 0 else LettersValue(s[..|s| - 1]) * 26 + (s[|s| - 1] as int - 'A' as int + 1)
  }

  method ColumnLetters(col: int) returns (r: Option<string>)
    ensures r == if col < 0 then None else Some(Letters(col + 1))
  {
    if col < 0 {
      return None;
    }
    var letters, n := "", col + 1;
    while n > 0
      invariant n >= 0 && Letters(n) + letters == Letters(col + 1)
    {
      assert Letters((n - 1) / 26) + ([Letter((n - 1) % 26)] + letters) == Letters(n) + letters;
      letters := [Letter((n - 1) % 26)] + letters;
      n := (n - 1) / 26;
    }
    assert "" + letters == letters;
    r := Some(letters);
  }

  method ColumnIndex(text: string) returns (r: Option<int>)
    ensures r == if Alphabetic(text) then Some(LettersValue(text) - 1) else None
  {
    if !Alphabetic(text) {
      return None;
    }
    var value := 0;
    for i := 0 to |text|
      invariant value == LettersValue(text[..i])
    {
      assert text[..i + 1][..i] == text[..i];
      value := value * 26 + (text[i] as int - 'A' as int + 1);
    }
    assert text[..|text|] == text;
    r := Some(value - 1);
  }

  lemma {:induction false} LettersAlphabetic(n: nat)
    ensures n > 0 ==> Alphabetic(Letters(n))
  {
    if n == 0 {
    } else {
      LettersAlphabetic((n - 1) / 26);
    }
  }

  /** Columns to letters and back, for every column. */
  lemma {:induction false} ValueOfLetters(n: nat)
    ensures (Letters(n) == "" || Alphabetic(Letters(n))) && LettersValue(Letters(n)) == n
  {
    LettersAlphabetic(n);
    if n == 0 {
    } else {
      ValueOfLetters((n - 1) / 26);
      var s := Letters(n);
      assert s[..|s| - 1] == Letters((n - 1) / 26);
    }
  }

  /** Letters to columns and back, for every word. */
  lemma {:induction false} LettersOfValue(s: string)
    requires s == "" || Alphabetic(s)
    ensures Letters(LettersValue(s)) == s
  {
    if s == "" {
    } else {
      var front, k := s[..|s| - 1], s[|s| - 1] as int - 'A' as int;
      LettersOfValue(front);
      var v := LettersValue(front);
      assert (v * 26 + k) / 26 == v && (v * 26 + k) % 26 == k;
      assert s == front + [Letter(k)];
    }
  }

  // ---------------------------------------------------------------- row numbers

  function Decimal(n: nat): string {
    if n < 10 then [Digit(n)] else Decimal(n / 10) + [Digit(n % 10)]
  }

  function DecimalValue(s: string): nat
    requires s == "" || Numeric(s)
  {
    if s == "" then 0 else DecimalValue(s[..|s| - 1]) * 10 + (s[|s| - 1] as int - '0' as int)
  }

  lemma {:induction false} ValueOfDecimal(n: nat)
    ensures Numeric(Decimal(n)) && DecimalValue(Decimal(n)) == n
    ensures n > 0 ==> Decimal(n)[0] != '0'
  {
    if n >= 10 {
      ValueOfDecimal(n / 10);
      var s := Decimal(n);
      assert s[..|s| - 1] == Decimal(n / 10);
    } else {
      assert Decimal(n)[..0] == "";
    }
  }

  lemma {:induction false} DecimalOfValue(s: string)
    requires Numeric(s) && s[0] != '0'
    ensures DecimalValue(s) > 0 && Decimal(DecimalValue(s)) == s
  {
    var front, k := s[..|s| - 1], s[|s| - 1] as int - '0' as int;
    if front == "" {
      assert s == [Digit(k)];
    } else {
      DecimalOfValue(front);
      var v := DecimalValue(front);
      assert (v * 10 + k) / 10 == v && (v * 10 + k) % 10 == k;
      assert s == front + [Digit(k)];
    }
  }

  // -------------------------------------------------------------------- labels

  function LabelOf(row: nat, col: nat): string {
    Letters(col + 1) + "-" + Decimal(row + 1)
  }

  function CellLabel(g: Grid, cell: int): Option<string>
    requires g.Valid()
  {
    if 0 <= cell <= MAX_CELL_INDEX && g.Contains(cell)
    then
      RowInGrid(g.rows, g.cols, cell);
      Some(LabelOf(cell / g.cols, cell % g.cols))
    else None
  }

  /** Length of the part before the first hyphen. */
  function BeforeHyphen(s: string): (n: nat)
    ensures n <= |s| && '-' !in s[..n] && (n < |s| ==> s[n] == '-')
  {
    if s == "" || s[0] == '-' then 0 else
    var n := 1 + BeforeHyphen(s[1..]);
    assert s[..n] == [s[0]] + s[1..][..n - 1];
    n
  }

  function CellIndexFromLabel(g: Grid, text: string): Option<int>
    requires g.Valid()
  {
    var n := BeforeHyphen(text);
    if n == |text| then None
    else if !Alphabetic(text[..n]) || !Numeric(text[n + 1..]) then None
    else
      var col, row := LettersValue(text[..n]) - 1, DecimalValue(text[n + 1..]) - 1;
      if row < 0 || row >= g.rows || !(0 <= col < g.cols) then None else Some(row * g.cols + col)
  }

  lemma HyphenAfterLetters(letters: string, rest: string)
    requires Alphabetic(letters)
    ensures BeforeHyphen(letters + "-" + rest) == |letters|
  {
    var s := letters + "-" + rest;
    var n := BeforeHyphen(s);
    assert s[|letters|] == '-';
    assert forall i :: 0 <= i < |letters| ==> s[i] == letters[i] && IsLetter(s[i]);
  }

  lemma RowMajor(cols: int, row: int, col: int)
    requires 0 <= col < cols && row >= 0
    ensures (row * cols + col) / cols == row && (row * cols + col) % cols == col
  {
    var x := row * cols + col;
    assert x == cols * (x / cols) + x % cols;
    OneQuotient(cols, row, col, x / cols, x % cols);
  }

  lemma OneQuotient(d: int, q: int, m: int, q': int, m': int)
    requires 0 <= m < d && 0 <= m' < d && q * d + m == d * q' + m'
    ensures q == q' && m == m'
  {
    assert (q - q') * d == q * d - d * q';
    assert (q' - q) * d == d * q' - q * d;
    if q > q' {
      AtLeastOnce(q - q', d);
    } else if q < q' {
      AtLeastOnce(q' - q, d);
    }
  }

  lemma AtLeastOnce(d: int, cols: int)
    requires d > 0 && cols > 0
    ensures d * cols >= cols
  {
  }

  lemma RowInGrid(rows: int, cols: int, cell: int)
    requires rows >= 1 && cols >= 1 && 0 <= cell < rows * cols
    ensures 0 <= cell / cols < rows && (cell / cols) * cols + cell % cols == cell
  {
    QuotientBelow(rows, cols, cell / cols, cell % cols);
  }

  lemma QuotientBelow(rows: int, cols: int, q: int, m: int)
    requires cols >= 1 && 0 <= m && q * cols + m < rows * cols
    ensures q < rows
  {
    assert (q - rows) * cols == q * cols - rows * cols;
    if q > rows {
      AtLeastOnce(q - rows, cols);
    }
  }

  /** Every cell of every grid is found again from its own label. */
  lemma LabelRoundTrip(g: Grid, cell: int)
    requires g.Valid() && g.Contains(cell)
    ensures CellLabel(g, cell).Some? && CellIndexFromLabel(g, CellLabel(g, cell).value) == Some(cell)
  {
    RowInGrid(g.rows, g.cols, cell);
    var letters, number := Letters(cell % g.cols + 1), Decimal(cell / g.cols + 1);
    LettersAlphabetic(cell % g.cols + 1);
    ValueOfLetters(cell % g.cols + 1);
    ValueOfDecimal(cell / g.cols + 1);
    hide Letters, Decimal, LettersValue, DecimalValue, BeforeHyphen;
    HyphenAfterLetters(letters, number);
    var text := letters + "-" + number;
    assert text[..|letters|] == letters && text[|letters| + 1..] == number;
  }

  /** A label that is understood is the cell's own label exactly when its row has no leading zero. */
  lemma LabelCanonicalIff(g: Grid, text: string)
    requires g.Valid() && CellIndexFromLabel(g, text).Some?
    ensures var cell := CellIndexFromLabel(g, text).value;
            && g.Contains(cell)
            && (CellLabel(g, cell) == Some(text) <==> text[BeforeHyphen(text) + 1] != '0')
  {
    hide Letters, Decimal, LettersValue, DecimalValue, BeforeHyphen, LabelOf, CellLabel;
    var n := BeforeHyphen(text);
    var letters, number := text[..n], text[n + 1..];
    LabelAt(g, DecimalValue(number) - 1, LettersValue(letters) - 1);
    LabelOfParts(letters, number);
    assert text == letters + "-" + number;
  }

  lemma LabelAt(g: Grid, row: nat, col: nat)
    requires g.Valid() && row < g.rows && col < g.cols
    ensures g.Contains(row * g.cols + col) && CellLabel(g, row * g.cols + col) == Some(LabelOf(row, col))
  {
    hide LabelOf;
    RowMajor(g.cols, row, col);
    RowBelow(g.rows, g.cols, row, col);
  }

  lemma LabelOfParts(letters: string, number: string)
    requires Alphabetic(letters) && LettersValue(letters) > 0 && Numeric(number) && DecimalValue(number) > 0
    ensures LabelOf(DecimalValue(number) - 1, LettersValue(letters) - 1) == letters + "-" + number <==> number[0] != '0'
  {
    hide Letters, Decimal, LettersValue, DecimalValue;
    LettersOfValue(letters);
    SameLabelIff(letters, number);
  }

  lemma SameLabelIff(letters: string, number: string)
    requires Numeric(number) && DecimalValue(number) > 0
    ensures letters + "-" + Decimal(DecimalValue(number)) == letters + "-" + number <==> number[0] != '0'
  {
    hide Decimal, DecimalValue;
    var own := Decimal(DecimalValue(number));
    ValueOfDecimal(DecimalValue(number));
    if number[0] != '0' {
      DecimalOfValue(number);
    } else {
      assert (letters + "-" + own)[|letters| + 1] == own[0];
      assert (letters + "-" + number)[|letters| + 1] == number[0];
    }
  }

  lemma RowBelow(rows: int, cols: int, row: int, col: int)
    requires 0 <= row < rows && 0 <= col < cols
    ensures 0 <= row * cols + col < rows * cols
  {
    assert (row + 1) * cols <= rows * cols;
  }

  // --------------------------------------------------- counting, as on paper

  function Following(c: char): char {
    if c < '~' then (c as int + 1) as char else c
  }

  /** The word after this one: the last letter moves on, and Z starts again at A with a carry. */
  function NextWord(s: string): string {
    if s == "" then "A"
    else if s[|s| - 1] == 'Z' then NextWord(s[..|s| - 1]) + "A"
    else s[..|s| - 1] + [Following(s[|s| - 1])]
  }

  /** A, B, ..., Z, AA, AB, ... */
  function Word(n: nat): string {
    if n == 0 then "" else NextWord(Word(n - 1))
  }

  /** The number after this one: the last digit moves on, and 9 starts again at 0 with a carry. */
  function NextNumber(s: string): string {
    if s == "" then "1"
    else if s[|s| - 1] == '9' then NextNumber(s[..|s| - 1]) + "0"
    else s[..|s| - 1] + [Following(s[|s| - 1])]
  }

  /** 1, 2, ..., 9, 10, 11, ... */
  function Number(n: nat): string {
    if n == 0 then "" else NextNumber(Number(n - 1))
  }

  lemma {:induction false} NextOfLetters(n: nat)
    ensures NextWord(Letters(n)) == Letters(n + 1)
  {
    if n == 0 {
      assert Letters(0) == "" && Letters(1) == "" + ['A'];
    } else {
      var front, k := (n - 1) / 26, (n - 1) % 26;
      var s := Letters(n);
      assert s == Letters(front) + [Letter(k)] && s[..|s| - 1] == Letters(front);
      if k == 25 {
        NextOfLetters(front);
        assert n / 26 == front + 1 && n % 26 == 0;
      } else {
        assert n / 26 == front && n % 26 == k + 1;
      }
    }
  }

  lemma {:induction false} LettersCount(n: nat)
    ensures Letters(n) == Word(n)
  {
    if n == 0 {
    } else {
      hide Letters, NextWord, Alphabetic;
      LettersCount(n - 1);
      NextOfLetters(n - 1);
    }
  }

  lemma {:induction false} NextOfDecimal(n: nat)
    requires n >= 1
    ensures NextNumber(Decimal(n)) == Decimal(n + 1)
  {
    var s := Decimal(n);
    if n < 10 {
      assert s == [Digit(n)] && s[..0] == "";
      if n == 9 {
        assert Decimal(10) == Decimal(1) + [Digit(0)] && Decimal(1) == "1";
      }
    } else {
      var front, k := n / 10, n % 10;
      assert s == Decimal(front) + [Digit(k)] && s[..|s| - 1] == Decimal(front);
      if k == 9 {
        NextOfDecimal(front);
        assert (n + 1) / 10 == front + 1 && (n + 1) % 10 == 0;
      } else {
        assert (n + 1) / 10 == front && (n + 1) % 10 == k + 1;
      }
    }
  }

  lemma {:induction false} DecimalCounts(n: nat)
    requires n >= 1
    ensures Decimal(n) == Number(n)
  {
    if n == 1 {
      assert Number(0) == "" && Number(1) == NextNumber("");
    } else {
      hide Decimal, NextNumber;
      DecimalCounts(n - 1);
      NextOfDecimal(n - 1);
    }
  }

  /** Cells are numbered row by row; a label is the column's word, a hyphen and the row's number, both counted from one. */
  lemma LabelExact(g: Grid, row: nat, col: nat)
    requires g.Valid() && row < g.rows && col < g.cols
    ensures CellLabel(g, row * g.cols + col) == Some(Word(col + 1) + "-" + Number(row + 1))
  {
    LabelAt(g, row, col);
    LettersCount(col + 1);
    DecimalCounts(row + 1);
    hide CellLabel, Letters, Decimal;
  }

  function Zeros(n: nat): string {
    if n == 0 then "" else "0" + Zeros(n - 1)
  }

  /** Which texts are understood: a column's word, a hyphen and a row's number, behind any zeros. */
  ghost predicate Spells(text: string, zeros: nat, row: nat, col: nat) {
    text == Word(col + 1) + "-" + (Zeros(zeros) + Number(row + 1))
  }

  lemma {:induction false} LeadingZero(s: string)
    requires Numeric(s)
    ensures Numeric("0" + s) && DecimalValue("0" + s) == DecimalValue(s)
  {
    var t := "0" + s;
    assert t[..|t| - 1] == "0" + s[..|s| - 1] && t[|t| - 1] == s[|s| - 1];
    if |s| == 1 {
      assert t[..1] == "0" && "0"[..0] == "" && s[..0] == "";
    } else {
      LeadingZero(s[..|s| - 1]);
    }
  }

  lemma OneMoreZero(z: nat, s: string)
    requires z >= 1
    ensures Zeros(z) + s == "0" + (Zeros(z - 1) + s)
  {
  }

  lemma {:induction false} ZerosBefore(z: nat, s: string)
    requires Numeric(s)
    ensures Numeric(Zeros(z) + s) && DecimalValue(Zeros(z) + s) == DecimalValue(s)
  {
    if z == 0 {
      assert Zeros(0) + s == s;
    } else {
      hide *;
      ZerosBefore(z - 1, s);
      LeadingZero(Zeros(z - 1) + s);
      OneMoreZero(z, s);
    }
  }

  lemma ZeroIsZero()
    ensures DecimalValue("0") == 0 && "0" + "" == "0"
  {
    assert "0"[..0] == "";
  }

  lemma RestIsNumeric(s: string)
    requires Numeric(s) && s[0] == '0' && DecimalValue(s) > 0
    ensures s == "0" + s[1..] && Numeric(s[1..])
  {
    hide DecimalValue;
    ZeroIsZero();
    assert s == "0" + s[1..];
  }

  lemma {:induction false} StripZeros(s: string) returns (z: nat)
    requires Numeric(s) && DecimalValue(s) > 0
    ensures s == Zeros(z) + Decimal(DecimalValue(s))
  {
    hide DecimalValue, Decimal;
    if s[0] != '0' {
      z := 0;
      DecimalOfValue(s);
    } else {
      RestIsNumeric(s);
      LeadingZero(s[1..]);
      var inner := StripZeros(s[1..]);
      z := inner + 1;
      OneMoreZero(z, Decimal(DecimalValue(s)));
    }
  }

  lemma CellFromParts(g: Grid, letters: string, number: string)
    requires g.Valid() && Alphabetic(letters) && Numeric(number)
    ensures var col, row := LettersValue(letters) - 1, DecimalValue(number) - 1;
            CellIndexFromLabel(g, letters + "-" + number) ==
            if 0 <= row < g.rows && 0 <= col < g.cols then Some(row * g.cols + col) else None
  {
    hide LettersValue, DecimalValue, BeforeHyphen;
    HyphenAfterLetters(letters, number);
    var text := letters + "-" + number;
    assert text[..|letters|] == letters && text[|letters| + 1..] == number;
  }

  lemma PartsOfLabel(g: Grid, text: string) returns (letters: string, number: string)
    requires g.Valid() && CellIndexFromLabel(g, text).Some?
    ensures text == letters + "-" + number && Alphabetic(letters) && Numeric(number)
  {
    hide LettersValue, DecimalValue, BeforeHyphen;
    var n := BeforeHyphen(text);
    letters, number := text[..n], text[n + 1..];
  }

  /** Every such text of a cell of the grid is understood as that cell. */
  lemma SpelledIsUnderstood(g: Grid, text: string, zeros: nat, row: nat, col: nat)
    requires g.Valid() && row < g.rows && col < g.cols && Spells(text, zeros, row, col)
    ensures CellIndexFromLabel(g, text) == Some(row * g.cols + col)
  {
    hide Letters, Decimal, LettersValue, DecimalValue, BeforeHyphen, Word, Number, Zeros, CellIndexFromLabel;
    LettersCount(col + 1);
    DecimalCounts(row + 1);
    LettersAlphabetic(col + 1);
    ValueOfLetters(col + 1);
    ValueOfDecimal(row + 1);
    ZerosBefore(zeros, Decimal(row + 1));
    CellFromParts(g, Letters(col + 1), Zeros(zeros) + Decimal(row + 1));
  }

  /** And no other text is. */
  lemma UnderstoodIsSpelled(g: Grid, text: string) returns (zeros: nat, row: nat, col: nat)
    requires g.Valid() && CellIndexFromLabel(g, text).Some?
    ensures row < g.rows && col < g.cols && Spells(text, zeros, row, col)
    ensures CellIndexFromLabel(g, text) == Some(row * g.cols + col)
  {
    hide Letters, Decimal, LettersValue, DecimalValue, BeforeHyphen, Word, Number, Zeros, CellIndexFromLabel;
    var letters, number := PartsOfLabel(g, text);
    CellFromParts(g, letters, number);
    row, col := DecimalValue(number) - 1, LettersValue(letters) - 1;
    zeros := StripZeros(number);
    LettersOfValue(letters);
    LettersCount(col + 1);
    DecimalCounts(row + 1);
  }
}

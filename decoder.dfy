/** Readers for what the encoder writes. A number's text reads back as the number. Bodies built
    from boards whose cells are single digits, the boards the puzzle service deals in, read
    back as the board, so two different such boards are never sent as the same body. */
module Decoder {
  import opened Wrappers
  import opened Encoder
  import opened Patterns
  import opened EncoderFacts

  predicate IsDigitBoard(board: seq<seq<int>>)
  {
    forall i, j :: 0 <= i < |board| && 0 <= j < |board[i]| ==> 0 <= board[i][j] <= 9
  }

  function DigitValue(c: char): (d: int)
    requires IsDigit(c)
    ensures 0 <= d <= 9
  {
    c as int - '0' as int
  }

  /** The number a string of decimal digits stands for, read most significant digit first. */
  function NaturalValue(t: string): (n: nat)
    requires forall i :: 0 <= i < |t| ==> IsDigit(t[i])
    ensures |t| == 1 ==> n == DigitValue(t[0])
  {
    if t == [] then 0 else NaturalValue(t[..|t| - 1]) * 10 + DigitValue(t[|t| - 1])
  }

  /** The number a text of `NumberText` stands for: digits, after a minus sign when negative. */
  function NumberValue(t: string): int
    requires forall i :: 0 <= i < |t| ==> IsDigit(t[i]) || t[i] == '-'
  {
    if |t| > 0 && t[0] == '-' && forall i :: 1 <= i < |t| ==> IsDigit(t[i]) then
      -(NaturalValue(t[1..]) as int)
    else if forall i :: 0 <= i < |t| ==> IsDigit(t[i]) then NaturalValue(t)
    else 0
  }

  /** Reading the digits of `n` back gives `n`. */
  lemma {:induction false} NaturalTextValue(n: nat)
    ensures NaturalValue(NaturalText(n)) == n
  {
    var t := NaturalText(n);
    if n >= 10 {
      NaturalTextValue(n / 10);
      assert t[..|t| - 1] == NaturalText(n / 10);
      assert t[|t| - 1] == DigitChar(n % 10);
    } else {
      assert t == [DigitChar(n)];
    }
  }

  /** The text of a number stands for that number, with the sign. */
  lemma NumberTextValue(n: int)
    ensures NumberValue(NumberText(n)) == n
  {
    var t := NumberText(n);
    if n < 0 {
      NaturalTextValue(-n);
      assert t[1..] == NaturalText(-n);
    } else {
      NaturalTextValue(n);
      assert !IsDigit('-');
    }
  }

  /** Different numbers have different texts. */
  lemma NumberTextInjective(a: int, b: int)
    requires NumberText(a) == NumberText(b)
    ensures a == b
  {
    NumberTextValue(a);
    NumberTextValue(b);
  }

  /** Reads `d (%2C d)* %5D` and returns the digits and what follows the `%5D`. */
  function DecodeCells(s: string): (r: Option<(seq<int>, string)>)
    ensures r.Some? ==> |r.value.1| < |s|
  {
    if |s| == 0 || !IsDigit(s[0]) then None
    else
      var d := DigitValue(s[0]);
      var rest := s[1..];
      if StartsWith(rest, "%5D") then Some(([d], rest[3..]))
      else if StartsWith(rest, EscapedComma) then
        match DecodeCells(rest[3..])
        case None => None
        case Some((ds, tail)) => Some(([d] + ds, tail))
      else None
  }

  /** Reads one row `%5B ... %5D` and returns its digits and what follows it. */
  function DecodeRow(s: string): (r: Option<(seq<int>, string)>)
    ensures r.Some? ==> |r.value.1| < |s|
  {
    if !StartsWith(s, "%5B") then None
    else if StartsWith(s[3..], "%5D") then Some(([], s[6..]))
    else DecodeCells(s[3..])
  }

  /** Reads one or more rows separated by `%2C` up to the end of the string. */
  function DecodeRows(s: string): Option<seq<seq<int>>>
    decreases |s|
  {
    match DecodeRow(s)
    case None => None
    case Some((row, rest)) =>
      if rest == [] then Some([row])
      else if StartsWith(rest, EscapedComma) then
        match DecodeRows(rest[3..])
        case None => None
        case Some(rows) => Some([row] + rows)
      else None
  }

  function DecodeBoard(s: string): Option<seq<seq<int>>>
  {
    if s == [] then Some([]) else DecodeRows(s)
  }

  lemma DecodeCellsLast(c: char, t: string)
    requires IsDigit(c)
    ensures DecodeCells([c] + "%5D" + t) == Some(([DigitValue(c)], t))
  {
    var s := [c] + "%5D" + t;
    assert s[1..] == "%5D" + t;
    assert s[1..][..3] == "%5D";
    assert s[1..][3..] == t;
  }

  lemma DecodeCellsNext(c: char, rest: string)
    requires IsDigit(c)
    ensures DecodeCells([c] + EscapedComma + rest) ==
      match DecodeCells(rest)
      case None => None
      case Some((ds, tail)) => Some(([DigitValue(c)] + ds, tail))
  {
    var s := [c] + EscapedComma + rest;
    assert s[1..] == EscapedComma + rest;
    assert s[1..][..3] == EscapedComma;
    assert s[1..][..3][1] != "%5D"[1];
    assert s[1..][3..] == rest;
  }

  lemma CellsTextCons(row: seq<int>)
    requires |row| > 0
    ensures |row| == 1 ==> CellsText(row) == NumberText(row[0])
    ensures |row| > 1 ==> CellsText(row) == NumberText(row[0]) + EscapedComma + CellsText(row[1..])
  {
    assert NumberTexts(row)[1..] == NumberTexts(row[1..]);
  }

  lemma {:induction false} DecodeCellsRoundTrip(row: seq<int>, t: string)
    requires |row| > 0 && forall j :: 0 <= j < |row| ==> 0 <= row[j] <= 9
    ensures DecodeCells(CellsText(row) + "%5D" + t) == Some((row, t))
  {
    if |row| == 1 {
      DecodeOneCell(row, t);
    } else {
      DecodeCellsRoundTrip(row[1..], t);
      DecodeMoreCells(row, t);
    }
  }

  lemma DecodeOneCell(row: seq<int>, t: string)
    requires |row| == 1 && 0 <= row[0] <= 9
    ensures DecodeCells(CellsText(row) + "%5D" + t) == Some((row, t))
  {
    var c := DigitChar(row[0]);
    DigitText(row[0]);
    CellsTextCons(row);
    DecodeCellsLast(c, t);
    assert [row[0]] == row;
  }

  /** One step of the round trip: the first digit is read, the rest by hypothesis. */
  lemma DecodeMoreCells(row: seq<int>, t: string)
    requires |row| > 1 && 0 <= row[0] <= 9
    requires DecodeCells(CellsText(row[1..]) + "%5D" + t) == Some((row[1..], t))
    ensures DecodeCells(CellsText(row) + "%5D" + t) == Some((row, t))
  {
    var c := DigitChar(row[0]);
    DigitText(row[0]);
    CellsTextCons(row);
    var rest := CellsText(row[1..]) + "%5D" + t;
    Regroup([c], EscapedComma, CellsText(row[1..]), "%5D", t);
    DecodeCellsNext(c, rest);
    assert [row[0]] + row[1..] == row;
  }

  lemma DigitText(d: int)
    requires 0 <= d <= 9
    ensures NumberText(d) == [DigitChar(d)] && DigitValue(DigitChar(d)) == d
  {
  }

  lemma Regroup(a: string, b: string, c: string, d: string, e: string)
    ensures a + b + c + d + e == a + b + (c + d + e)
  {
  }

  lemma DecodeRowEmpty(t: string)
    ensures DecodeRow("%5B" + "%5D" + t) == Some(([], t))
  {
    var s := "%5B" + "%5D" + t;
    assert s[..3] == "%5B";
    assert s[3..][..3] == "%5D";
    assert s[6..] == t;
  }

  lemma DecodeRowOpen(body: string)
    requires |body| > 0 && body[0] != '%'
    ensures DecodeRow("%5B" + body) == DecodeCells(body)
  {
    var s := "%5B" + body;
    assert s[..3] == "%5B";
    assert s[3..] == body;
    assert !StartsWith(body, "%5D");
  }

  lemma DecodeRowRoundTrip(row: seq<int>, t: string)
    requires forall j :: 0 <= j < |row| ==> 0 <= row[j] <= 9
    ensures DecodeRow(EncodeRow(row) + t) == Some((row, t))
  {
    EncodeRowShape(row);
    var body := CellsText(row) + "%5D" + t;
    assert EncodeRow(row) + t == "%5B" + body;
    if row == [] {
      assert body == "%5D" + t;
      DecodeRowEmpty(t);
    } else {
      CellsTextCons(row);
      assert NumberText(row[0]) == [DigitChar(row[0])];
      assert body[0] == DigitChar(row[0]);
      DecodeRowOpen(body);
      DecodeCellsRoundTrip(row, t);
    }
  }

  lemma DecodeRowsLast(s: string, row: seq<int>)
    requires DecodeRow(s) == Some((row, []))
    ensures DecodeRows(s) == Some([row])
  {
  }

  lemma DecodeRowsNext(s: string, row: seq<int>, rest: string, rows: seq<seq<int>>)
    requires DecodeRow(s) == Some((row, EscapedComma + rest))
    requires DecodeRows(rest) == Some(rows)
    ensures DecodeRows(s) == Some([row] + rows)
  {
    assert (EscapedComma + rest)[..3] == EscapedComma;
    assert (EscapedComma + rest)[3..] == rest;
  }

  lemma {:induction false} DecodeRowsRoundTrip(board: seq<seq<int>>)
    requires |board| > 0 && IsDigitBoard(board)
    ensures DecodeRows(Join(RowCodes(board), EscapedComma)) == Some(board)
  {
    DigitBoardRows(board);
    if |board| == 1 {
      DecodeOneRow(board);
    } else {
      var rest := Join(RowCodes(board[1..]), EscapedComma);
      var s := EncodeRow(board[0]) + (EscapedComma + rest);
      assert DecodeRows(rest) == Some(board[1..]) by {
        DecodeRowsRoundTrip(board[1..]);
      }
      assert DecodeRow(s) == Some((board[0], EscapedComma + rest)) by {
        DecodeRowRoundTrip(board[0], EscapedComma + rest);
      }
      assert Join(RowCodes(board), EscapedComma) == s by {
        RowsJoinCons(board);
      }
      DecodeRowsNext(s, board[0], rest, board[1..]);
      assert [board[0]] + board[1..] == board;
    }
  }

  lemma DecodeOneRow(board: seq<seq<int>>)
    requires |board| == 1 && forall j :: 0 <= j < |board[0]| ==> 0 <= board[0][j] <= 9
    ensures DecodeRows(Join(RowCodes(board), EscapedComma)) == Some(board)
  {
    var s := Join(RowCodes(board), EscapedComma);
    assert s == EncodeRow(board[0]) + "";
    DecodeRowRoundTrip(board[0], "");
    DecodeRowsLast(s, board[0]);
    assert [board[0]] == board;
  }

  lemma RowsJoinCons(board: seq<seq<int>>)
    requires |board| > 1
    ensures Join(RowCodes(board), EscapedComma)
         == EncodeRow(board[0]) + (EscapedComma + Join(RowCodes(board[1..]), EscapedComma))
  {
    var codes := RowCodes(board);
    assert codes[1..] == RowCodes(board[1..]);
    JoinCons(codes, EscapedComma);
  }

  lemma DigitBoardRows(board: seq<seq<int>>)
    requires |board| > 0 && IsDigitBoard(board)
    ensures forall j :: 0 <= j < |board[0]| ==> 0 <= board[0][j] <= 9
    ensures IsDigitBoard(board[1..])
  {
    forall i, j | 0 <= i < |board| - 1 && 0 <= j < |board[1..][i]| ensures 0 <= board[1..][i][j] <= 9 {
      assert board[1..][i] == board[i + 1];
    }
  }

  /** Decoding an encoded digit board gives the board back. */
  lemma DecodeEncode(board: seq<seq<int>>)
    requires IsDigitBoard(board)
    ensures DecodeBoard(EncodeBoard(board)) == Some(board)
  {
    EncodeBoardIsJoin(board);
    if board != [] {
      DecodeRowsRoundTrip(board);
      RowCodesJoin(board);
      assert EncodeBoard(board)[0] == '%';
    }
  }

  /** Two digit boards with the same encoding are the same board. */
  lemma EncodeBoardInjective(a: seq<seq<int>>, b: seq<seq<int>>)
    requires IsDigitBoard(a) && IsDigitBoard(b)
    requires EncodeBoard(a) == EncodeBoard(b)
    ensures a == b
  {
    DecodeEncode(a);
    DecodeEncode(b);
  }

  /** Two digit boards sent under the same key give the same body only when they are equal. */
  lemma RequestBodyInjective(key: string, a: seq<seq<int>>, b: seq<seq<int>>)
    requires IsDigitBoard(a) && IsDigitBoard(b)
    requires EncodeParams([(key, a)]) == EncodeParams([(key, b)])
    ensures a == b
  {
    SingleParam(key, a);
    SingleParam(key, b);
    var n := |key| + 4;
    var sa := EncodeParams([(key, a)]);
    assert EncodeBoard(a) == sa[n..|sa| - 3];
    assert EncodeBoard(b) == sa[n..|sa| - 3];
    EncodeBoardInjective(a, b);
  }
}

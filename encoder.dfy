/** The request encoder of the component (`encodeBoard`, `encodeParams`): it turns a board
    into the form-urlencoded body that the validate and solve endpoints read. */
module Encoder {

  predicate IsDigit(c: char)
  {
    '0' <= c <= '9'
  }

  function DigitChar(d: int): (c: char)
    requires 0 <= d <= 9
    ensures IsDigit(c)
  {
    ('0' as int + d) as char
  }

  /** Decimal digits of a natural number, most significant first, without leading zeros. */
  function NaturalText(n: nat): (t: string)
    ensures |t| > 0
    ensures forall i :: 0 <= i < |t| ==> IsDigit(t[i])
  {
    if n < 10 then [DigitChar(n)] else NaturalText(n / 10) + [DigitChar(n % 10)]
  }

  /** The text JavaScript gives an integral number when an array of numbers is turned into
      a string: its decimal digits, after a minus sign when it is negative. */
  function NumberText(n: int): (t: string)
    ensures |t| > 0
    ensures forall i :: 0 <= i < |t| ==> IsDigit(t[i]) || t[i] == '-'
  {
    if n < 0 then "-" + NaturalText(-n) else NaturalText(n)
  }

  /** The texts of the numbers of a row, in order. */
  function NumberTexts(row: seq<int>): (ts: seq<string>)
    ensures |ts| == |row|
    ensures forall i :: 0 <= i < |row| ==> ts[i] == NumberText(row[i])
  {
    if row == [] then [] else [NumberText(row[0])] + NumberTexts(row[1..])
  }

  /** The parts with `sep` between consecutive ones, as `Array.prototype.join` builds it. */
  function Join(parts: seq<string>, sep: string): string
  {
    if |parts| == 0 then ""
    else if |parts| == 1 then parts[0]
    else parts[0] + sep + Join(parts[1..], sep)
  }

  /** A row turned into a string (`String(row)`): its numbers separated by commas. */
  function RowText(row: seq<int>): string
  {
    Join(NumberTexts(row), ",")
  }

  /** `encodeURIComponent` on the characters a row's text holds: decimal digits and the minus
      sign are left as they are and each comma becomes `%2C`. */
  function EncodeUriComponent(s: string): string
  {
    if s == [] then []
    else (if s[0] == ',' then "%2C" else [s[0]]) + EncodeUriComponent(s[1..])
  }

  /** One row of the body: `%5B`, the escaped row text, `%5D`. */
  function EncodeRow(row: seq<int>): string
  {
    "%5B" + EncodeUriComponent(RowText(row)) + "%5D"
  }

  /** The accumulator of the `reduce` in `encodeBoard` after its first `k` rows: each row is
      appended followed by `%2C`, except the last row of the board. */
  function ReduceRows(board: seq<seq<int>>, k: nat): string
    requires k <= |board|
  {
    if k == 0 then ""
    else ReduceRows(board, k - 1) + EncodeRow(board[k - 1]) + (if k - 1 == |board| - 1 then "" else "%2C")
  }

  function EncodeBoard(board: seq<seq<int>>): string
  {
    ReduceRows(board, |board|)
  }

  /** One entry of the body: the key, `=`, and the encoded board wrapped in `%5B` ... `%5D`.
      The key itself is not escaped. */
  function EncodeParam(key: string, board: seq<seq<int>>): string
  {
    key + "=" + "%5B" + EncodeBoard(board) + "%5D"
  }

  /** The entries of a parameter object, in the order of its keys. */
  function ParamTexts(params: seq<(string, seq<seq<int>>)>): (ts: seq<string>)
    ensures |ts| == |params|
    ensures forall i :: 0 <= i < |params| ==> ts[i] == EncodeParam(params[i].0, params[i].1)
  {
    if params == [] then [] else [EncodeParam(params[0].0, params[0].1)] + ParamTexts(params[1..])
  }

  /** `encodeParams`: the entries joined by `&`. */
  function EncodeParams(params: seq<(string, seq<seq<int>>)>): string
  {
    Join(ParamTexts(params), "&")
  }
}

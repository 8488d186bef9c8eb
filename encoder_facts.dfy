/** What the request body looks like: the `reduce` in `encodeBoard` is a join of the encoded
    rows, each row is its numbers joined by `%2C`, and the separators can be counted. */
module EncoderFacts {
  import opened Encoder
  import opened Patterns

  /** The escaped comma: it separates the numbers of a row and the rows of a board. */
  const EscapedComma := "%2C"
  /** The whole text between two consecutive rows: a row's close, the comma, the next open. */
  const RowSeparator := "%5D%2C%5B"

  /** The encoded rows of a board, in order. */
  function RowCodes(board: seq<seq<int>>): (cs: seq<string>)
    ensures |cs| == |board|
    ensures forall i :: 0 <= i < |board| ==> cs[i] == EncodeRow(board[i])
  {
    if board == [] then [] else [EncodeRow(board[0])] + RowCodes(board[1..])
  }

  /** A row's numbers separated by `%2C`: what stands between the brackets of its code. */
  function CellsText(row: seq<int>): string
  {
    Join(NumberTexts(row), EscapedComma)
  }

  /** The cells texts of a board's rows, in order. */
  function CellsTexts(board: seq<seq<int>>): (ts: seq<string>)
    ensures |ts| == |board|
    ensures forall i :: 0 <= i < |board| ==> ts[i] == CellsText(board[i])
  {
    if board == [] then [] else [CellsText(board[0])] + CellsTexts(board[1..])
  }

  lemma JoinCons(parts: seq<string>, sep: string)
    requires |parts| > 1
    ensures Join(parts, sep) == parts[0] + (sep + Join(parts[1..], sep))
  {
  }

  lemma {:induction false} JoinSnoc(parts: seq<string>, x: string, sep: string)
    requires |parts| > 0
    ensures Join(parts + [x], sep) == Join(parts, sep) + sep + x
  {
    if |parts| == 1 {
      assert (parts + [x])[1..] == [x];
    } else {
      assert (parts + [x])[1..] == parts[1..] + [x];
      JoinSnoc(parts[1..], x, sep);
    }
  }

  /** After `k` rows the accumulator of the `reduce` holds those rows joined by `%2C`,
      followed by one more `%2C` unless the board is finished. */
  lemma {:induction false} ReduceRowsIsJoin(board: seq<seq<int>>, k: nat)
    requires 0 < k <= |board|
    ensures ReduceRows(board, k) == Join(RowCodes(board)[..k], EscapedComma) + (if k == |board| then "" else EscapedComma)
  {
    var codes := RowCodes(board);
    ReduceRowsStep(board, k);
    if k > 1 {
      ReduceRowsIsJoin(board, k - 1);
      JoinPrefixStep(codes, k, EscapedComma);
    } else {
      assert codes[..1] == [codes[0]];
    }
  }

  lemma ReduceRowsStep(board: seq<seq<int>>, k: nat)
    requires 0 < k <= |board|
    ensures ReduceRows(board, k) == ReduceRows(board, k - 1) + RowCodes(board)[k - 1] + (if k == |board| then "" else EscapedComma)
  {
  }

  lemma JoinPrefixStep(parts: seq<string>, k: nat, sep: string)
    requires 1 < k <= |parts|
    ensures Join(parts[..k], sep) == Join(parts[..k - 1], sep) + sep + parts[k - 1]
  {
    assert parts[..k] == parts[..k - 1] + [parts[k - 1]];
    JoinSnoc(parts[..k - 1], parts[k - 1], sep);
  }

  /** `encodeBoard` is `""` for an empty board and otherwise the encoded rows with `%2C`
      between consecutive rows and none after the last. */
  lemma EncodeBoardIsJoin(board: seq<seq<int>>)
    ensures EncodeBoard(board) == Join(RowCodes(board), EscapedComma)
    ensures board == [] ==> EncodeBoard(board) == ""
  {
    if board != [] {
      ReduceRowsIsJoin(board, |board|);
      assert RowCodes(board)[..|board|] == RowCodes(board);
    }
  }

  lemma {:induction false} EncodeUriComponentConcat(a: string, b: string)
    ensures EncodeUriComponent(a + b) == EncodeUriComponent(a) + EncodeUriComponent(b)
  {
    if a == [] {
      assert a + b == b;
    } else {
      assert (a + b)[1..] == a[1..] + b;
      EncodeUriComponentConcat(a[1..], b);
    }
  }

  lemma {:induction false} EncodeUriComponentKeeps(s: string)
    requires Avoids(s, ',')
    ensures EncodeUriComponent(s) == s
  {
    if s != [] {
      EncodeUriComponentKeeps(s[1..]);
      assert s == [s[0]] + s[1..];
    }
  }

  lemma {:induction false} EncodeUriComponentJoin(parts: seq<string>)
    requires forall i :: 0 <= i < |parts| ==> Avoids(parts[i], ',')
    ensures EncodeUriComponent(Join(parts, ",")) == Join(parts, EscapedComma)
  {
    if |parts| == 1 {
      EncodeUriComponentKeeps(parts[0]);
    } else if |parts| > 1 {
      var rest := Join(parts[1..], ",");
      EncodeUriComponentJoin(parts[1..]);
      EncodeUriComponentKeeps(parts[0]);
      EncodeUriComponentConcat(parts[0] + ",", rest);
      EncodeUriComponentConcat(parts[0], ",");
    }
  }

  /** Each row is `%5B`, its numbers separated by `%2C`, then `%5D`: the commas that
      `String(row)` puts between the numbers reach the wire escaped. */
  lemma EncodeRowShape(row: seq<int>)
    ensures EncodeRow(row) == "%5B" + Join(NumberTexts(row), "%2C") + "%5D"
  {
    var ts := NumberTexts(row);
    forall i | 0 <= i < |ts| ensures Avoids(ts[i], ',') {
    }
    EncodeUriComponentJoin(ts);
  }

  lemma {:induction false} JoinAvoids(parts: seq<string>, sep: string, c: char)
    requires Avoids(sep, c)
    requires forall i :: 0 <= i < |parts| ==> Avoids(parts[i], c)
    ensures Avoids(Join(parts, sep), c)
  {
    if |parts| > 1 {
      JoinAvoids(parts[1..], sep, c);
    }
  }

  /** The text of a row's numbers holds only digits, minus signs and `%2C`. */
  lemma CellsTextAvoids(row: seq<int>, c: char)
    requires !IsDigit(c) && c != '-' && c != '%' && c != '2' && c != 'C'
    ensures Avoids(CellsText(row), c)
  {
    JoinAvoids(NumberTexts(row), EscapedComma, c);
  }

  /** With the row brackets moved out, the board is its cells texts joined by the row
      separator `%5D%2C%5B`, wrapped once in `%5B` ... `%5D`. */
  lemma RowCodesJoin(board: seq<seq<int>>)
    requires |board| > 0
    ensures Join(RowCodes(board), EscapedComma) == "%5B" + Join(CellsTexts(board), RowSeparator) + "%5D"
  {
    var codes := RowCodes(board);
    var cells := CellsTexts(board);
    forall i | 0 <= i < |board| ensures codes[i] == "%5B" + cells[i] + "%5D" {
      EncodeRowShape(board[i]);
    }
    JoinWrapped(codes, cells, "%5B", "%5D", EscapedComma);
    SeparatorParts();
  }

  lemma SeparatorParts()
    ensures "%5D" + EscapedComma + "%5B" == RowSeparator
  {
  }

  /** Parts that each sit between `open` and `close`, joined by `sep`: the same as the bare
      parts joined by `close + sep + open`, wrapped once. */
  lemma {:induction false} JoinWrapped(codes: seq<string>, cells: seq<string>, open: string, close: string, sep: string)
    requires |codes| == |cells| > 0
    requires forall i :: 0 <= i < |codes| ==> codes[i] == open + cells[i] + close
    ensures Join(codes, sep) == open + Join(cells, close + sep + open) + close
  {
    if |codes| > 1 {
      var rest := Join(cells[1..], close + sep + open);
      JoinWrapped(codes[1..], cells[1..], open, close, sep);
      assert Join(codes, sep) == (open + cells[0] + close) + sep + (open + rest + close);
      assert Join(cells, close + sep + open) == cells[0] + (close + sep + open) + rest;
    }
  }

  /** A row of `n` numbers holds `n - 1` escaped commas. */
  lemma CellSeparatorCount(row: seq<int>)
    requires |row| > 0
    ensures Occurrences(EncodeRow(row), EscapedComma) == |row| - 1
  {
    var ts := NumberTexts(row);
    EncodeRowShape(row);
    CellSeparatorUnbordered();
    forall i | 0 <= i < |ts| ensures Occurrences(ts[i], EscapedComma) == 0 {
      OccurrencesAbsent(ts[i], EscapedComma, 0);
    }
    OccurrencesInJoin(ts, EscapedComma);
    CellSeparatorsInBrackets(Join(ts, EscapedComma));
  }

  /** The brackets around a row add no `%2C`. */
  lemma CellSeparatorsInBrackets(body: string)
    ensures Occurrences("%5B" + body + "%5D", EscapedComma) == Occurrences(body, EscapedComma)
  {
    assert "%5B" + body + "%5D" == "%5B" + (body + "%5D");
    NoStraddleByLastChar("%5B", body + "%5D", EscapedComma);
    OccurrencesConcat("%5B", body + "%5D", EscapedComma);
    NoStraddleByFirstChar(body, "%5D", EscapedComma);
    OccurrencesConcat(body, "%5D", EscapedComma);
  }

  lemma CellSeparatorUnbordered()
    ensures Unbordered(EscapedComma)
  {
    forall k | 1 <= k < 3 ensures EscapedComma[k..] != EscapedComma[..3 - k] {
      assert EscapedComma[k..][0] != EscapedComma[..3 - k][0];
    }
  }

  /** A board of `n` rows holds `n - 1` row separators `%5D%2C%5B`. */
  lemma RowSeparatorCount(board: seq<seq<int>>)
    requires |board| > 0
    ensures Occurrences(EncodeBoard(board), RowSeparator) == |board| - 1
  {
    var ts := CellsTexts(board);
    EncodeBoardIsJoin(board);
    RowCodesJoin(board);
    RowSeparatorUnbordered();
    forall i | 0 <= i < |ts| ensures Occurrences(ts[i], RowSeparator) == 0 {
      CellsTextAvoids(board[i], 'D');
      OccurrencesAbsent(ts[i], RowSeparator, 2);
    }
    OccurrencesInJoin(ts, RowSeparator);
    RowSeparatorsInBrackets(Join(ts, RowSeparator));
  }

  /** The outer brackets of a board add no row separator. */
  lemma RowSeparatorsInBrackets(body: string)
    ensures Occurrences("%5B" + body + "%5D", RowSeparator) == Occurrences(body, RowSeparator)
  {
    assert "%5B" + body + "%5D" == "%5B" + (body + "%5D");
    NoStraddleByLastChar("%5B", body + "%5D", RowSeparator);
    OccurrencesConcat("%5B", body + "%5D", RowSeparator);
    NoStraddleBeforeClose(body);
    OccurrencesConcat(body, "%5D", RowSeparator);
  }

  lemma RowSeparatorUnbordered()
    ensures Unbordered(RowSeparator)
  {
    forall k | 1 <= k < 9 ensures RowSeparator[k..] != RowSeparator[..9 - k] {
      if k == 3 || k == 6 {
        assert RowSeparator[k..][2] != RowSeparator[..9 - k][2];
      } else {
        assert RowSeparator[k..][0] != RowSeparator[..9 - k][0];
      }
    }
  }

  lemma NoStraddleBeforeClose(a: string)
    ensures NoStraddle(a, "%5D", RowSeparator)
  {
    forall k | 1 <= k < 9 ensures !StartsWith("%5D", RowSeparator[k..]) {
      if k >= 6 {
        assert "%5D"[..9 - k][9 - k - 1] != RowSeparator[k..][9 - k - 1];
      }
    }
  }

  /** Parts that never contain an unbordered separator, joined by it, contain it exactly
      once between each two consecutive parts. */
  lemma {:induction false} OccurrencesInJoin(parts: seq<string>, sep: string)
    requires |sep| > 0 && Unbordered(sep) && |parts| > 0
    requires forall i :: 0 <= i < |parts| ==> Occurrences(parts[i], sep) == 0
    ensures Occurrences(Join(parts, sep), sep) == |parts| - 1
  {
    if |parts| > 1 {
      var rest := Join(parts[1..], sep);
      OccurrencesInJoin(parts[1..], sep);
      assert Join(parts, sep) == parts[0] + (sep + rest);
      NoStraddleIntoSelf(parts[0], rest, sep);
      OccurrencesConcat(parts[0], sep + rest, sep);
      NoStraddleOutOfSelf(sep, rest);
      OccurrencesConcat(sep, rest, sep);
      OccurrencesSelf(sep);
    }
  }

  /** A 9 x 9 board is sent with exactly 8 row separators, and each of its rows carries 8
      escaped commas between its numbers. */
  lemma NineByNineSeparators(board: seq<seq<int>>)
    requires |board| == 9 && forall i :: 0 <= i < 9 ==> |board[i]| == 9
    ensures Occurrences(EncodeBoard(board), RowSeparator) == 8
    ensures forall i :: 0 <= i < 9 ==> Occurrences(EncodeRow(board[i]), EscapedComma) == 8
  {
    RowSeparatorCount(board);
    forall i | 0 <= i < 9 ensures Occurrences(EncodeRow(board[i]), EscapedComma) == 8 {
      CellSeparatorCount(board[i]);
    }
  }

  /** The encoded board never contains `&`, so it cannot be confused with an entry break. */
  lemma EncodeBoardAvoidsAmpersand(board: seq<seq<int>>)
    ensures Avoids(EncodeBoard(board), '&')
  {
    EncodeBoardIsJoin(board);
    var codes := RowCodes(board);
    forall i | 0 <= i < |codes| ensures Avoids(codes[i], '&') {
      EncodeRowAvoidsAmpersand(board[i]);
    }
    JoinAvoids(codes, EscapedComma, '&');
  }

  lemma EncodeRowAvoidsAmpersand(row: seq<int>)
    ensures Avoids(EncodeRow(row), '&')
  {
    EncodeRowShape(row);
    CellsTextAvoids(row, '&');
    AvoidsInBrackets(CellsText(row), '&');
  }

  lemma AvoidsInBrackets(body: string, c: char)
    requires Avoids(body, c) && c != '%' && c != '5' && c != 'B' && c != 'D'
    ensures Avoids("%5B" + body + "%5D", c)
  {
  }

  /** A parameter object with one key is sent as that key, `=`, and the wrapped board, with
      no `&` anywhere when the key has none. */
  lemma SingleParam(key: string, board: seq<seq<int>>)
    ensures EncodeParams([(key, board)]) == key + "=%5B" + EncodeBoard(board) + "%5D"
    ensures Avoids(key, '&') ==> Avoids(EncodeParams([(key, board)]), '&')
  {
    EncodeBoardAvoidsAmpersand(board);
    assert EncodeParams([(key, board)]) == key + "=" + "%5B" + EncodeBoard(board) + "%5D";
  }

  /** With keys free of `&`, a body of `n` entries has exactly `n - 1` ampersands: one
      between each two consecutive entries, in key order. */
  lemma AmpersandCount(params: seq<(string, seq<seq<int>>)>)
    requires |params| > 0
    requires forall i :: 0 <= i < |params| ==> Avoids(params[i].0, '&')
    ensures Occurrences(EncodeParams(params), "&") == |params| - 1
  {
    var ts := ParamTexts(params);
    forall i | 0 <= i < |ts| ensures Occurrences(ts[i], "&") == 0 {
      EncodeBoardAvoidsAmpersand(params[i].1);
      OccurrencesAbsent(ts[i], "&", 0);
    }
    OccurrencesInJoin(ts, "&");
  }
}

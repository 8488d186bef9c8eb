/** The board controller of `SugokuGame`: the component's four state cells (`board`,
    `originalBoard`, `readOnly`, `status`) and the handlers that update them. The puzzle
    service is a parameter of each handler: a function from the request body to the reply,
    `None` standing for a fetch that rejects or a reply that cannot be read. */
module Game {
  import opened Wrappers
  import opened Grids
  import opened Encoder
  import Decoder

  /** The reply of the solve endpoint that the handler reads. */
  datatype SolveReply = SolveReply(status: string, solution: Grid)

  /** The cells of a two-dimensional array, row by row. */
  function Rows<T>(a: array2<T>): (g: seq<seq<T>>)
    reads a
    ensures |g| == a.Length0
    ensures forall i :: 0 <= i < a.Length0 ==> |g[i]| == a.Length1
    ensures forall i, j :: 0 <= i < a.Length0 && 0 <= j < a.Length1 ==> g[i][j] == a[i, j]
  {
    seq(a.Length0, i requires 0 <= i < a.Length0 reads a =>
      seq(a.Length1, j requires 0 <= j < a.Length1 reads a => a[i, j]))
  }

  /** The body of a validate or solve request: the board under the key `board`. */
  function BoardRequest(g: seq<seq<int>>): string
  {
    EncodeParams([("board", g)])
  }

  /** A copy of a fetched board (`data.board.map(row => row.map(col => col))`). */
  method CopyGrid(g: Grid) returns (a: array2<int>)
    ensures fresh(a) && Rows(a) == g && a.Length1 == Width(g)
  {
    var w := Width(g);
    a := new int[|g|, w]((i, j) requires 0 <= i < |g| && 0 <= j < w => g[i][j]);
    forall i | 0 <= i < |g| ensures Rows(a)[i] == g[i] {
    }
  }

  /** The read-only mask of a fetched board, in an array of the board's shape. */
  method MaskOf(g: Grid) returns (a: array2<bool>)
    ensures fresh(a) && Rows(a) == ReadOnlyMask(g) && a.Length1 == Width(g)
  {
    var w := Width(g);
    a := new bool[|g|, w]((i, j) requires 0 <= i < |g| && 0 <= j < w => g[i][j] != 0);
    var m := ReadOnlyMask(g);
    forall i | 0 <= i < |g| ensures Rows(a)[i] == m[i] {
    }
  }

  class BoardState {
    var board: array2<int>
    var originalBoard: array2<int>
    var readOnly: array2<bool>
    var status: string

    /** The state before the first puzzle arrives: two distinct empty boards, no locked
        cell, status "unsolved". */
    constructor ()
      ensures board.Length0 == 0 && originalBoard.Length0 == 0 && readOnly.Length0 == 0
      ensures board != originalBoard
      ensures status == "unsolved"
    {
      board := new int[0, 0];
      originalBoard := new int[0, 0];
      readOnly := new bool[0, 0];
      status := "unsolved";
    }

    /** The two board fields hold the same array, so an edit to one is an edit to both. */
    predicate SharesOriginal()
      reads this
    {
      board == originalBoard
    }

    /** The input of cell (r, c) is rendered and not marked read-only, so it can be edited. */
    predicate Editable(r: int, c: int)
      reads this, readOnly
    {
      0 <= r < board.Length0 && 0 <= c < board.Length1 &&
      r < readOnly.Length0 && c < readOnly.Length1 && !readOnly[r, c]
    }

    function ValidateBody(): string
      reads this, board
    {
      BoardRequest(Rows(board))
    }

    function SolveBody(): string
      reads this, originalBoard
    {
      BoardRequest(Rows(originalBoard))
    }

    /** A fetched puzzle becomes the board: one copy is held by both board fields, the
        mask locks exactly the filled cells and the status is "unsolved". */
    method Capture(fetched: Grid)
      modifies this
      ensures fresh(board) && fresh(readOnly)
      ensures SharesOriginal()
      ensures Rows(board) == fetched && board.Length1 == Width(fetched)
      ensures Rows(readOnly) == ReadOnlyMask(fetched) && readOnly.Length1 == Width(fetched)
      ensures status == "unsolved"
    {
      var copy := CopyGrid(fetched);
      var mask := MaskOf(fetched);
      board := copy;
      originalBoard := copy;
      readOnly := mask;
      status := "unsolved";
    }

    /** Fetch a puzzle and capture it; when the fetch fails nothing changes. */
    method Reset(reply: Option<Grid>)
      modifies this
      ensures reply.None? ==>
                board == old(board) && originalBoard == old(originalBoard)
                && readOnly == old(readOnly) && status == old(status)
      ensures reply.Some? ==>
                fresh(board) && fresh(readOnly) && SharesOriginal()
                && Rows(board) == reply.value && board.Length1 == Width(reply.value)
                && Rows(readOnly) == ReadOnlyMask(reply.value) && readOnly.Length1 == Width(reply.value)
                && status == "unsolved"
    {
      if reply.Some? {
        Capture(reply.value);
      }
    }

    /** The user types `v` into cell (r, c): that one cell of the board array changes and
        nothing else; the original board sees the edit when it is the same array. */
    method EditCell(r: int, c: int, v: int)
      requires Editable(r, c)
      modifies board
      ensures Rows(board) == old(Rows(board))[r := old(Rows(board))[r][c := v]]
      ensures SharesOriginal() ==> Rows(originalBoard) == Rows(board)
      ensures !SharesOriginal() ==> Rows(originalBoard) == old(Rows(originalBoard))
      ensures Rows(readOnly) == old(Rows(readOnly)) && status == old(status)
    {
      ghost var before := Rows(board);
      board[r, c] := v;
      forall i | 0 <= i < board.Length0 ensures Rows(board)[i] == before[r := before[r][c := v]][i] {
      }
    }

    /** Send the current board to the validator and take over the status it replies with;
        when the request fails nothing changes. */
    method Validate(service: string -> Option<string>)
      modifies this`status
      ensures board == old(board) && Rows(board) == old(Rows(board))
      ensures readOnly == old(readOnly) && Rows(readOnly) == old(Rows(readOnly))
      ensures originalBoard == old(originalBoard)
      ensures service(ValidateBody()).Some? ==> status == service(ValidateBody()).value
      ensures service(ValidateBody()).None? ==> status == old(status)
    {
      var reply := service(ValidateBody());
      if reply.Some? {
        status := reply.value;
      }
    }

    /** Send the original board to the solver. On a reply the board becomes the solution,
        every cell of a 9 x 9 mask is locked and the status is the reply's; the original
        board is left as it is. When the request fails nothing changes. */
    method Solve(service: string -> Option<SolveReply>)
      modifies this`board, this`readOnly, this`status
      ensures originalBoard == old(originalBoard) && Rows(originalBoard) == old(Rows(originalBoard))
      ensures service(old(SolveBody())).None? ==>
        board == old(board) && readOnly == old(readOnly) && status == old(status)
      ensures service(old(SolveBody())).Some? ==>
        var reply := service(old(SolveBody())).value;
        fresh(board) && Rows(board) == reply.solution && status == reply.status
        && readOnly.Length0 == 9 && readOnly.Length1 == 9
        && forall r, c :: 0 <= r < 9 && 0 <= c < 9 ==> readOnly[r, c]
    {
      var reply := service(SolveBody());
      if reply.Some? {
        board := CopyGrid(reply.value.solution);
        readOnly := SolvedMask();
        status := reply.value.status;
      }
    }
  }

  /** The mask set after a solve: every cell of a 9x9 board is locked. */
  method SolvedMask() returns (a: array2<bool>)
    ensures fresh(a) && a.Length0 == 9 && a.Length1 == 9
    ensures forall r, c :: 0 <= r < 9 && 0 <= c < 9 ==> a[r, c]
  {
    a := new bool[9, 9]((r, c) => true);
  }

  /** Filling an empty cell of a digit board with a non-zero digit changes the request body
      that carries the board. */
  lemma EditChangesRequest(puzzle: seq<seq<int>>, r: nat, c: nat, v: int)
    requires Decoder.IsDigitBoard(puzzle) && 1 <= v <= 9
    requires r < |puzzle| && c < |puzzle[r]| && puzzle[r][c] == 0
    ensures BoardRequest(puzzle[r := puzzle[r][c := v]]) != BoardRequest(puzzle)
  {
    var edited := puzzle[r := puzzle[r][c := v]];
    assert edited[r][c] != puzzle[r][c];
    if BoardRequest(edited) == BoardRequest(puzzle) {
      Decoder.RequestBodyInjective("board", edited, puzzle);
    }
  }

  /** A puzzle is captured, the user fills an empty cell and asks for the solution: the
      solver receives the puzzle WITH the edit, because the original board is the same
      array as the edited one. For digit boards the request therefore differs from the one
      the unedited puzzle would give. */
  method SolveAfterEdit(puzzle: Grid, r: nat, c: nat, v: int) returns (body: string)
    requires r < |puzzle| && c < Width(puzzle) && puzzle[r][c] == 0
    ensures body == BoardRequest(puzzle[r := puzzle[r][c := v]])
    ensures Decoder.IsDigitBoard(puzzle) && 1 <= v <= 9 ==> body != BoardRequest(puzzle)
  {
    var game := new BoardState();
    game.Capture(puzzle);
    assert Rows(game.readOnly)[r][c] == ReadOnlyMask(puzzle)[r][c] == false;
    game.EditCell(r, c, v);
    body := game.SolveBody();
    if Decoder.IsDigitBoard(puzzle) && 1 <= v <= 9 {
      EditChangesRequest(puzzle, r, c, v);
    }
  }
}

/** The `Gomoku` engine (gomoku.py): the 15 × 15 board updated in place,
    whose turn it is, whether the game is over, and how many times in a row
    the language model has failed to give a usable move. Each operation is
    what one of the source's handlers does once its input is known: a click
    already turned into a cell, a model reply already streamed and parsed.
    What a handler schedules next is returned as a `Follow`. */
module GomokuGame {
  import opened Wrappers
  import opened Chars
  import opened Board
  import BoardText
  import CoordPattern
  import SearchParser
  import GeminiBlack
  import DeepSeek

  /** `game_mode`. */
  datatype Mode = Pvp | Pve | PvLlm | AiVsAi

  /** `llm_ai_color`: the colour the model plays against a person. */
  datatype Side = BlackSide | WhiteSide

  /** What a handler schedules with `master.after`, if anything. */
  datatype Follow = Idle | RandomMove | ModelMove | NextAiVsAiMove

  /** How a model's turn went on the network side: the stream raised an
      exception, or the whole reply arrived and `parse_response` read it. */
  datatype Reply = Failed | Parsed(move: Option<CoordPattern.Coord>)

  /** A model turn that starts with this many consecutive failures forfeits. */
  const MaxRetries := 3

  /** A parsed move the engine applies: on the board, on an empty cell. */
  predicate Acceptable(g: Grid, move: Option<CoordPattern.Coord>)
    requires Square(g)
  {
    move.Some? && InBounds(move.value.0, move.value.1) && g[move.value.0][move.value.1] == Empty
  }

  /** Whom `on_click` hands the turn to after a stone that does not win. */
  function AfterClick(mode: Mode, side: Side, player: int): Follow {
    if mode == Pve && player == White then RandomMove
    else if mode == PvLlm && player == White then ModelMove
    else if mode == PvLlm && player == Black && side == BlackSide then ModelMove
    else Idle
  }

  /** `on_click` ignores the click before looking at the cell. */
  predicate ClickBlocked(gameOver: bool, mode: Mode, side: Side, player: int) {
    gameOver || mode == AiVsAi || (mode == PvLlm && side == BlackSide && player == Black)
  }

  /** Row-major order, the order in which `ai_move` lists empty cells. */
  predicate Precedes(a: (int, int), b: (int, int)) {
    a.0 < b.0 || (a.0 == b.0 && a.1 < b.1)
  }

  /** The model playing a colour, `llm_models[api][colour]`, named by the
      class whose `parse_response` reads its replies. */
  datatype Model = GeminiLLM | GeminiBlackLLM | DeepSeekLLM | DeepSeekBlackLLM | QWQBlackLLM

  /** `current_llm.parse_response(text)`: the first pair with unbounded
      numbers for three of the models, the last pair of at most two digits
      each for the other two, whose results are therefore below 100. */
  function ParseReply(m: Model, text: string): (r: Option<CoordPattern.Coord>)
    ensures (m == GeminiBlackLLM || m == DeepSeekLLM) && r.Some? ==> r.value.0 < 100 && r.value.1 < 100
  {
    match m
    case GeminiBlackLLM =>
      var r := GeminiBlack.ParseResponse(text);
      if r.Some? then GeminiBlack.ParseBound(text); r else r
    case DeepSeekLLM =>
      var r := DeepSeek.ParseResponse(text);
      if r.Some? then DeepSeek.ParseBound(text); r else r
    case _ => SearchParser.ParseResponse(text)
  }

  /** Every model reads a reply that is just `[r,c]` (no spaces, numbers
      below 100) as the move (r, c). */
  lemma BarePairReadByEveryModel(m: Model, r: nat, c: nat)
    requires r < 100 && c < 100
    ensures ParseReply(m, CoordPattern.Spell(Digits(r), Digits(c), "", false, false)) == Some((r, c))
  {
    var t := CoordPattern.Spell(Digits(r), Digits(c), "", false, false);
    ValueOfDigits(r);
    ValueOfDigits(c);
    assert "" + t == t;
    match m
    case GeminiBlackLLM =>
      GeminiBlack.ParseAppendedPair("", Digits(r), Digits(c), "");
    case DeepSeekLLM =>
      assert |t| < |DeepSeek.Marker|;
      DeepSeek.ParseAppendedPair("", Digits(r), Digits(c), "", false, false);
    case _ =>
      assert t + "" == t;
      SearchParser.ParseAnyPair(r, c, "");
  }

  /** The model's reply text: `llm_response_text += chunk` for every non-empty chunk. */
  method CollectReply(chunks: seq<string>) returns (text: string)
    ensures text == Concat(chunks)
  {
    text := "";
    for i := 0 to |chunks|
      invariant text == Concat(chunks[..i])
    {
      assert chunks[..i + 1][..i] == chunks[..i];
      if chunks[i] != "" {
        text := text + chunks[i];
      }
    }
    assert chunks[..|chunks|] == chunks;
  }

  /** `[[0 for _ in range(size)] for _ in range(size)]`. */
  method NewBoard() returns (b: array2<int>)
    ensures fresh(b) && b.Length0 == Size && b.Length1 == Size
    ensures forall i, j :: 0 <= i < Size && 0 <= j < Size ==> b[i, j] == Empty
  {
    b := new int[Size, Size]((i, j) => Empty);
  }

  class Gomoku {
    var board: array2<int>
    var player: int
    var gameOver: bool
    var retryCount: nat
    var mode: Mode
    var modelSide: Side

    /** The board as a value, kept equal to `board` cell by cell. */
    ghost var cells: Grid

    ghost predicate Valid()
      reads this, board
    {
      board.Length0 == Size && board.Length1 == Size && IsPlayer(player) && WellFormed(cells)
      && forall i, j :: 0 <= i < Size && 0 <= j < Size ==> board[i, j] == cells[i][j]
    }

    /** The move count matches the turn: Black has one stone more exactly
        when White is to move. Every move operation keeps it until the game ends. */
    ghost predicate Balanced()
      reads this, board
    {
      Valid() && Board.Balanced(cells, player)
    }

    /** `__init__`, its engine part. */
    constructor()
      ensures Valid() && Balanced() && fresh(board)
      ensures cells == EmptyGrid() && player == Black && !gameOver && retryCount == 0
      ensures mode == Pvp && modelSide == WhiteSide
    {
      var b := NewBoard();
      board := b;
      player := Black;
      gameOver := false;
      mode := Pvp;
      modelSide := WhiteSide;
      retryCount := 0;
      cells := EmptyGrid();
      EmptyBalanced();
    }

    // -------------------------------------------------------------------
    // check_win

    /** One of `check_win`'s loops: step along (dx, dy) while the cell is
        on the board and holds the player's stone, at most 4 steps. */
    method Steps(x: int, y: int, dx: int, dy: int) returns (n: nat)
      requires Valid() && InBounds(x, y)
      ensures n == Run(cells, x, y, dx, dy, player, 1)
    {
      ghost var g := cells;
      n := 0;
      for i := 1 to 5
        invariant n == i - 1
        invariant Run(g, x, y, dx, dy, player, 1) == n + Run(g, x, y, dx, dy, player, i)
      {
        var px, py := x + Scale(dx, i), y + Scale(dy, i);
        if InBounds(px, py) && board[px, py] == player {
          assert Holds(g, x, y, dx, dy, player, i);
          n := n + 1;
        } else {
          assert !Holds(g, x, y, dx, dy, player, i);
          break;
        }
      }
    }

    /** `count` for one axis: the stone itself, forward, backward. */
    method CountLine(x: int, y: int, a: Axis) returns (count: nat)
      requires Valid() && InBounds(x, y)
      ensures count == AxisCount(cells, x, y, a, player)
    {
      count := 1;
      var forward := Steps(x, y, Dx(a), Dy(a));
      count := count + forward;
      var backward := Steps(x, y, -Dx(a), -Dy(a));
      count := count + backward;
    }

    /** `check_win(x, y)`: true exactly when the player's stone on (x, y) is
        one of five or more of the player's stones in a row. */
    method CheckWin(x: int, y: int) returns (win: bool)
      requires Valid() && InBounds(x, y)
      ensures win == CountsFive(cells, x, y, player)
      ensures board[x, y] == player ==> (win <==> FiveThrough(cells, x, y, player))
    {
      if board[x, y] == player {
        CountsFiveIffFive(cells, x, y, player);
      }
      var count := CountLine(x, y, Horizontal);
      if count >= 5 {
        return true;
      }
      count := CountLine(x, y, Vertical);
      if count >= 5 {
        return true;
      }
      count := CountLine(x, y, Diagonal);
      if count >= 5 {
        return true;
      }
      count := CountLine(x, y, AntiDiagonal);
      if count >= 5 {
        return true;
      }
      return false;
    }

    // -------------------------------------------------------------------
    // Applying a move

    /** The accepted-move block shared by `on_click`, `ai_move`, `llm_move`
        and `aivai_move`: the player's stone lands on the empty cell; a win
        ends the game with the winner still to move, anything else passes the
        turn with `3 - player`. */
    method Place(x: int, y: int) returns (won: bool)
      requires Valid() && InBounds(x, y) && board[x, y] == Empty
      modifies this, board
      ensures Valid() && board == old(board)
      ensures cells == Put(old(cells), x, y, old(player))
      ensures won <==> FiveThrough(cells, x, y, old(player))
      ensures won ==> gameOver && player == old(player)
      ensures !won ==> gameOver == old(gameOver) && player == 3 - old(player)
      ensures retryCount == old(retryCount) && mode == old(mode) && modelSide == old(modelSide)
      ensures old(Balanced()) && !won ==> Balanced()
    {
      ghost var before := cells;
      board[x, y] := player;
      cells := Put(cells, x, y, player);
      won := CheckWin(x, y);
      if won {
        gameOver := true;
      } else {
        if Board.Balanced(before, player) {
          PlaceKeepsBalance(before, x, y, player);
        }
        player := 3 - player;
      }
    }

    /** `on_click` on cell (x, y): ignored when the game is over, in AI-vs-AI
        mode, on the Black model's turn, off the board or on an occupied
        cell; otherwise the move is applied and, unless it won, the turn goes
        to the random player or the model as the mode says. */
    method OnClick(x: int, y: int) returns (follow: Follow)
      requires Valid()
      modifies this, board
      ensures Valid() && board == old(board)
      ensures retryCount == old(retryCount) && mode == old(mode) && modelSide == old(modelSide)
      ensures ClickBlocked(old(gameOver), mode, modelSide, old(player)) || !InBounds(x, y) || old(cells)[x][y] != Empty ==>
                cells == old(cells) && player == old(player) && gameOver == old(gameOver) && follow == Idle
      ensures !ClickBlocked(old(gameOver), mode, modelSide, old(player)) && InBounds(x, y) && old(cells)[x][y] == Empty ==>
                cells == Put(old(cells), x, y, old(player))
                && (FiveThrough(cells, x, y, old(player)) ==> gameOver && player == old(player) && follow == Idle)
                && (!FiveThrough(cells, x, y, old(player)) ==>
                      !gameOver && player == 3 - old(player) && follow == AfterClick(mode, modelSide, player))
      ensures old(Balanced()) ==> Balanced() || gameOver
    {
      follow := Idle;
      if gameOver {
        return;
      }
      if mode == AiVsAi {
        return;
      }
      if mode == PvLlm && modelSide == BlackSide && player == Black {
        return;
      }
      if x < 0 || x >= Size || y < 0 || y >= Size {
        return;
      }
      if board[x, y] == Empty {
        var won := Place(x, y);
        if won {
          return;
        }
        if mode == Pve && player == White && !gameOver {
          follow := RandomMove;
        } else if mode == PvLlm && player == White && !gameOver {
          follow := ModelMove;
        } else if mode == PvLlm && player == Black && modelSide == BlackSide && !gameOver {
          follow := ModelMove;
        }
      }
    }

    // -------------------------------------------------------------------
    // ai_move

    /** `possible_moves`: every empty cell, each once, in row-major order. */
    method EmptyCells() returns (free: seq<(int, int)>)
      requires Valid()
      ensures forall c :: c in free <==> InBounds(c.0, c.1) && cells[c.0][c.1] == Empty
      ensures forall k, l :: 0 <= k < l < |free| ==> Precedes(free[k], free[l])
      ensures |free| > 0 <==> HasEmpty(cells)
    {
      ghost var g := cells;
      free := [];
      for i := 0 to Size
        invariant forall c :: c in free <==> InBounds(c.0, c.1) && c.0 < i && g[c.0][c.1] == Empty
        invariant forall k, l :: 0 <= k < l < |free| ==> Precedes(free[k], free[l])
      {
        for j := 0 to Size
          invariant forall c :: c in free <==> InBounds(c.0, c.1) && Precedes(c, (i, j)) && g[c.0][c.1] == Empty
          invariant forall k, l :: 0 <= k < l < |free| ==> Precedes(free[k], free[l])
        {
          if board[i, j] == Empty {
            free := free + [(i, j)];
          }
        }
      }
      if HasEmpty(g) {
        var i, j :| 0 <= i < Size && 0 <= j < Size && g[i][j] == Empty;
        assert (i, j) in free;
      }
      if |free| > 0 {
        assert free[0] in free;
      }
    }

    /** `ai_move`: a stone on an empty cell chosen at will (`random.choice`),
        or, with no empty cell left, a draw that ends the game. */
    method AiMove() returns (move: Option<(int, int)>)
      requires Valid()
      modifies this, board
      ensures Valid() && board == old(board)
      ensures retryCount == old(retryCount) && mode == old(mode) && modelSide == old(modelSide)
      ensures move.None? <==> !HasEmpty(old(cells))
      ensures move.None? ==> cells == old(cells) && gameOver && player == old(player)
      ensures move.Some? ==>
                InBounds(move.value.0, move.value.1) && old(cells)[move.value.0][move.value.1] == Empty
                && cells == Put(old(cells), move.value.0, move.value.1, old(player))
                && (FiveThrough(cells, move.value.0, move.value.1, old(player)) ==> gameOver && player == old(player))
                && (!FiveThrough(cells, move.value.0, move.value.1, old(player)) ==>
                      gameOver == old(gameOver) && player == 3 - old(player))
      ensures old(Balanced()) ==> Balanced() || gameOver
    {
      var free := EmptyCells();
      if |free| > 0 {
        assert free[0] in free;
        var c :| c in free;
        var won := Place(c.0, c.1);
        move := Some(c);
      } else {
        gameOver := true;
        move := None;
      }
    }

    // -------------------------------------------------------------------
    // Model turns

    /** What both model turns do with a parsed reply: apply an acceptable
        move (a win ends the game; otherwise the failure count restarts and
        `next` follows), or count one more failure and try again. */
    method Answer(move: Option<CoordPattern.Coord>, next: Follow, again: Follow) returns (follow: Follow)
      requires Valid()
      modifies this, board
      ensures Valid() && board == old(board) && mode == old(mode) && modelSide == old(modelSide)
      ensures Acceptable(old(cells), move) ==>
                cells == Put(old(cells), move.value.0, move.value.1, old(player))
                && (FiveThrough(cells, move.value.0, move.value.1, old(player)) ==>
                      gameOver && player == old(player) && retryCount == old(retryCount) && follow == Idle)
                && (!FiveThrough(cells, move.value.0, move.value.1, old(player)) ==>
                      gameOver == old(gameOver) && player == 3 - old(player) && retryCount == 0 && follow == next)
      ensures !Acceptable(old(cells), move) ==>
                cells == old(cells) && player == old(player) && gameOver == old(gameOver)
                && retryCount == old(retryCount) + 1 && follow == again
      ensures old(Balanced()) ==> Balanced() || gameOver
    {
      if move.Some? && InBounds(move.value.0, move.value.1) && board[move.value.0, move.value.1] == Empty {
        var won := Place(move.value.0, move.value.1);
        if won {
          follow := Idle;
        } else {
          retryCount := 0;
          follow := next;
        }
      } else {
        retryCount := retryCount + 1;
        follow := again;
      }
    }

    /** `llm_move` with the reply known: forfeit after `MaxRetries` failures
        in a row, stop on a failed stream, else answer; a usable move hands
        the turn back to the person, a useless one is asked for again. */
    method LlmMove(reply: Reply) returns (follow: Follow)
      requires Valid()
      modifies this, board
      ensures Valid() && board == old(board) && mode == old(mode) && modelSide == old(modelSide)
      ensures old(retryCount) >= MaxRetries || reply.Failed? ==>
                gameOver && cells == old(cells) && player == old(player)
                && retryCount == old(retryCount) && follow == Idle
      ensures old(retryCount) < MaxRetries && reply.Parsed? && Acceptable(old(cells), reply.move) ==>
                cells == Put(old(cells), reply.move.value.0, reply.move.value.1, old(player)) && follow == Idle
                && (FiveThrough(cells, reply.move.value.0, reply.move.value.1, old(player)) ==>
                      gameOver && player == old(player) && retryCount == old(retryCount))
                && (!FiveThrough(cells, reply.move.value.0, reply.move.value.1, old(player)) ==>
                      gameOver == old(gameOver) && player == 3 - old(player) && retryCount == 0)
      ensures old(retryCount) < MaxRetries && reply.Parsed? && !Acceptable(old(cells), reply.move) ==>
                cells == old(cells) && player == old(player) && gameOver == old(gameOver)
                && retryCount == old(retryCount) + 1 && follow == ModelMove
      ensures old(Balanced()) ==> Balanced() || gameOver
    {
      if retryCount >= MaxRetries {
        gameOver := true;
        return Idle;
      }
      match reply {
        case Failed =>
          gameOver := true;
          follow := Idle;
        case Parsed(move) =>
          follow := Answer(move, Idle, ModelMove);
      }
    }

    /** A whole `llm_move` turn whose stream completes: the non-empty chunks
        are collected into the reply text, the model's `parse_response` reads
        it, and the move is answered as in `LlmMove`. */
    method LlmTurn(m: Model, chunks: seq<string>) returns (follow: Follow)
      requires Valid()
      modifies this, board
      ensures Valid() && board == old(board) && mode == old(mode) && modelSide == old(modelSide)
      ensures var move := ParseReply(m, Concat(chunks));
        (old(retryCount) >= MaxRetries ==>
           gameOver && cells == old(cells) && player == old(player) && retryCount == old(retryCount) && follow == Idle)
        && (old(retryCount) < MaxRetries && Acceptable(old(cells), move) ==>
              cells == Put(old(cells), move.value.0, move.value.1, old(player)) && follow == Idle
              && (FiveThrough(cells, move.value.0, move.value.1, old(player)) ==>
                    gameOver && player == old(player) && retryCount == old(retryCount))
              && (!FiveThrough(cells, move.value.0, move.value.1, old(player)) ==>
                    gameOver == old(gameOver) && player == 3 - old(player) && retryCount == 0))
        && (old(retryCount) < MaxRetries && !Acceptable(old(cells), move) ==>
              cells == old(cells) && player == old(player) && gameOver == old(gameOver)
              && retryCount == old(retryCount) + 1 && follow == ModelMove)
      ensures old(Balanced()) ==> Balanced() || gameOver
    {
      var text := CollectReply(chunks);
      follow := LlmMove(Parsed(ParseReply(m, text)));
    }

    /** `aivai_move` with the reply known: nothing once the game is over;
        forfeit after `MaxRetries` failures in a row (the count is shared by
        both colours), stop on a failed stream, else answer; either way the
        next model turn follows unless the game ended. */
    method AiVsAiMove(reply: Reply) returns (follow: Follow)
      requires Valid()
      modifies this, board
      ensures Valid() && board == old(board) && mode == old(mode) && modelSide == old(modelSide)
      ensures old(gameOver) ==>
                gameOver && cells == old(cells) && player == old(player)
                && retryCount == old(retryCount) && follow == Idle
      ensures !old(gameOver) && (old(retryCount) >= MaxRetries || reply.Failed?) ==>
                gameOver && cells == old(cells) && player == old(player)
                && retryCount == old(retryCount) && follow == Idle
      ensures !old(gameOver) && old(retryCount) < MaxRetries && reply.Parsed? && Acceptable(old(cells), reply.move) ==>
                cells == Put(old(cells), reply.move.value.0, reply.move.value.1, old(player))
                && (FiveThrough(cells, reply.move.value.0, reply.move.value.1, old(player)) ==>
                      gameOver && player == old(player) && retryCount == old(retryCount) && follow == Idle)
                && (!FiveThrough(cells, reply.move.value.0, reply.move.value.1, old(player)) ==>
                      !gameOver && player == 3 - old(player) && retryCount == 0 && follow == NextAiVsAiMove)
      ensures !old(gameOver) && old(retryCount) < MaxRetries && reply.Parsed? && !Acceptable(old(cells), reply.move) ==>
                cells == old(cells) && player == old(player) && !gameOver
                && retryCount == old(retryCount) + 1 && follow == NextAiVsAiMove
      ensures old(Balanced()) ==> Balanced() || gameOver
    {
      if gameOver {
        return Idle;
      }
      if retryCount >= MaxRetries {
        gameOver := true;
        return Idle;
      }
      match reply {
        case Failed =>
          gameOver := true;
          follow := Idle;
        case Parsed(move) =>
          follow := Answer(move, NextAiVsAiMove, NextAiVsAiMove);
      }
    }

    // -------------------------------------------------------------------
    // Starting over

    /** `restart_game`: a fresh empty board, Black to move, the game on and
        the failure count cleared; against a Black model, the model moves first. */
    method RestartGame() returns (follow: Follow)
      modifies this
      ensures Valid() && Balanced() && fresh(board)
      ensures cells == EmptyGrid() && player == Black && !gameOver && retryCount == 0
      ensures mode == old(mode) && modelSide == old(modelSide)
      ensures follow == if mode == PvLlm && modelSide == BlackSide then ModelMove else Idle
    {
      board := NewBoard();
      cells := EmptyGrid();
      player := Black;
      gameOver := false;
      retryCount := 0;
      follow := Idle;
      if mode == PvLlm && modelSide == BlackSide {
        player := Black;
        follow := ModelMove;
      }
      EmptyBalanced();
    }

    /** `start_aivai_game`: AI-vs-AI mode on a fresh board, then the first model turn. */
    method StartAiVsAi() returns (follow: Follow)
      modifies this
      ensures Valid() && Balanced() && fresh(board)
      ensures cells == EmptyGrid() && player == Black && !gameOver && retryCount == 0
      ensures mode == AiVsAi && modelSide == old(modelSide) && follow == NextAiVsAiMove
    {
      mode := AiVsAi;
      var _ := RestartGame();
      gameOver := false;
      retryCount := 0;
      follow := NextAiVsAiMove;
    }

    /** `update_game_mode`: the mode changes, the game does not restart. */
    method SetMode(m: Mode)
      modifies this
      ensures mode == m && board == old(board) && player == old(player) && gameOver == old(gameOver)
      ensures retryCount == old(retryCount) && modelSide == old(modelSide) && cells == old(cells)
    {
      mode := m;
    }

    /** `update_llm_ai_color`: the model's colour changes, the game does not restart. */
    method SetModelSide(s: Side)
      modifies this
      ensures modelSide == s && board == old(board) && player == old(player) && gameOver == old(gameOver)
      ensures retryCount == old(retryCount) && mode == old(mode) && cells == old(cells)
    {
      modelSide := s;
    }

    // -------------------------------------------------------------------
    // get_board_state

    /** One row of `get_board_state`: its two label characters, two
        spaces, then each cell's glyph and a space, then a line break. */
    method RowText(r: int) returns (line: string)
      requires Valid() && 0 <= r < Size
      ensures line == BoardText.RowLine(r, cells[r])
    {
      ghost var row := cells[r];
      line := BoardText.Tens(r) + BoardText.Units(r) + "  ";
      for c := 0 to Size
        invariant line == BoardText.Tens(r) + BoardText.Units(r) + "  " + BoardText.Cells(row[..c])
      {
        BoardText.CellsStep(row, c);
        line := line + [BoardText.Glyph(board[r, c]), ' '];
      }
      assert row[..Size] == row;
      line := line + "\n";
    }

    /** `get_board_state`: the two header lines, then one line per row. */
    method GetBoardState() returns (text: string)
      requires Valid()
      ensures text == BoardText.Render(cells)
    {
      ghost var g := cells;
      var h := BoardText.Header;
      text := h;
      for r := 0 to Size
        invariant text == h + BoardText.Rows(g, r)
      {
        var line := RowText(r);
        BoardText.RowsStep(h, g, r);
        text := text + line;
      }
    }
  }
}

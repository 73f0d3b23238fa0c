/** One session of the word game: the board of five rows of five cells,
    the cursor (current row and column), the game-over flag, the countdown
    and the hidden word.  Keys typed by the player fill the current row;
    enter on a full row colours it and either wins the game or moves to the
    next row; the game is lost when the fifth row is wrong or the countdown
    reaches zero.

    The hidden word is passed in by the caller (the game fetches it over the
    network), and the board is held in memory rather than in page elements.
    The countdown text is Clock.TimerText of timeLeft. */
module Wordle {
  import Evaluator

  const Rows: nat := 5
  const Cols: nat := 5
  /** Seconds on the countdown when a game starts. */
  const StartTime: int := 300
  /** What an empty cell holds (the page shows an empty text). */
  const Blank: char := ' '

  /** Background colour of a cell. */
  datatype Paint = Unpainted | Green | Yellow | Gray

  function Colour(v: Evaluator.Verdict): Paint
  {
    match v
    case Exact => Green
    case Present => Yellow
    case Absent => Gray
  }

  predicate IsUpper(ch: char) { 'A' <= ch <= 'Z' }

  /** A key that passes the test /^[a-z]$/: one lower-case letter. */
  predicate IsLetterKey(key: string) { |key| == 1 && 'a' <= key[0] <= 'z' }

  /** toUpperCase of a lower-case letter. */
  function UpperCase(ch: char): (u: char)
    requires 'a' <= ch <= 'z'
    ensures IsUpper(u)
  {
    (ch as int - 'a' as int + 'A' as int) as char
  }

  /** Five lower-case letters, as typed on the keyboard. */
  predicate IsLowerWord(w: string)
  {
    |w| == Cols && forall k :: 0 <= k < |w| ==> 'a' <= w[k] <= 'z'
  }

  function UpperWord(w: string): (u: string)
    requires IsLowerWord(w)
  {
    seq(|w|, k requires 0 <= k < |w| => UpperCase(w[k]))
  }

  /** The text of a cell, as joined into the word of its row. */
  function CellText(ch: char): string { if ch == Blank then "" else [ch] }

  class Game {
    var targetWord: string
    var currentRow: nat
    var currentCol: nat
    var gameOver: bool
    var timeLeft: int
    /** Whether the one-second countdown interval is scheduled. */
    var timerRunning: bool
    /** The letters on the board, by row and column. */
    const board: array2<char>
    /** The background colours of the board, by row and column. */
    const paint: array2<Paint>

    ghost predicate Shape()
    {
      board.Length0 == Rows && board.Length1 == Cols && paint.Length0 == Rows && paint.Length1 == Cols
    }

    /** The session invariant. */
    ghost predicate Valid()
      reads this, board, paint
    {
      && Shape()
      && currentRow <= Rows && currentCol <= Cols
      && (currentRow == Rows ==> gameOver && currentCol == 0)
      && timerRunning == !gameOver
      && 0 <= timeLeft <= StartTime
      && (timerRunning ==> timeLeft > 0)
      // finished rows are full and coloured
      && (forall r, c :: 0 <= r < currentRow && 0 <= c < Cols ==> IsUpper(board[r, c]) && paint[r, c] != Unpainted)
      // the current row holds currentCol letters, then empty cells
      && (forall c :: 0 <= c < Cols && currentRow < Rows ==>
            if c < currentCol then IsUpper(board[currentRow, c]) else board[currentRow, c] == Blank)
      // the current row is coloured only once the game is over
      && (!gameOver && currentRow < Rows ==> forall c :: 0 <= c < Cols ==> paint[currentRow, c] == Unpainted)
      // the rows below the current one are untouched
      && (forall r, c :: currentRow < r < Rows && 0 <= c < Cols ==> board[r, c] == Blank && paint[r, c] == Unpainted)
    }

    /** Every cell empty and uncoloured. */
    ghost predicate Cleared()
      reads board, paint
    {
      Shape() && forall r, c :: 0 <= r < Rows && 0 <= c < Cols ==> board[r, c] == Blank && paint[r, c] == Unpainted
    }

    /** The texts of the first n cells of row r, joined. */
    function RowPrefix(r: nat, n: nat): string
      reads board
      requires r < board.Length0 && n <= board.Length1
    {
      if n == 0 then "" else RowPrefix(r, n - 1) + CellText(board[r, n - 1])
    }

    /** The word on row r: the texts of its cells, joined. */
    function RowWord(r: nat): string
      reads board
      requires r < board.Length0
    {
      RowPrefix(r, board.Length1)
    }

    // -------------------------------------------------------------------
    // What each transition does, over the state before and after it.
    // -------------------------------------------------------------------

    twostate predicate Unchanged()
      reads this, board, paint
    {
      unchanged(this) && unchanged(board) && unchanged(paint)
    }

    /** A letter was written at the cursor, which moved one column right. */
    twostate predicate Typed(ch: char)
      reads this, board, paint
    {
      && currentRow == old(currentRow) && currentCol == old(currentCol) + 1
      && gameOver == old(gameOver) && timeLeft == old(timeLeft)
      && timerRunning == old(timerRunning) && targetWord == old(targetWord)
      && unchanged(paint)
      && forall r, c :: 0 <= r < board.Length0 && 0 <= c < board.Length1 ==>
           board[r, c] == if r == currentRow && c == old(currentCol) then ch else old(board[r, c])
    }

    /** The cursor moved one column left and the cell there was emptied. */
    twostate predicate Erased()
      reads this, board, paint
    {
      && currentRow == old(currentRow) && currentCol + 1 == old(currentCol)
      && gameOver == old(gameOver) && timeLeft == old(timeLeft)
      && timerRunning == old(timerRunning) && targetWord == old(targetWord)
      && unchanged(paint)
      && forall r, c :: 0 <= r < board.Length0 && 0 <= c < board.Length1 ==>
           board[r, c] == if r == currentRow && c == currentCol then Blank else old(board[r, c])
    }

    /** The full current row was judged: on a correct guess it is all green
        and the game is won on that row; otherwise it is coloured by the
        evaluator, the cursor moves to the start of the next row, and the
        game is lost when that was the last row.  The guess judged has
        exactly five letters. */
    twostate predicate Checked()
      reads this, board, paint
    {
      && Shape() && old(currentRow) < Rows
      && unchanged(board)
      && targetWord == old(targetWord) && timeLeft == old(timeLeft)
      && timerRunning == !gameOver
      && (forall r, c :: 0 <= r < Rows && r != old(currentRow) && 0 <= c < Cols ==> paint[r, c] == old(paint[r, c]))
      && var row, guess := old(currentRow), old(RowWord(currentRow));
      && |guess| == Cols
      && if guess == targetWord then
           && currentRow == row && currentCol == old(currentCol) && gameOver
           && forall c :: 0 <= c < Cols ==> paint[row, c] == Green
         else
           && currentRow == row + 1 && currentCol == 0 && gameOver == (currentRow == Rows)
           && forall c :: 0 <= c < Cols ==> paint[row, c] == Colour(Evaluator.Evaluate(guess, targetWord)[c])
    }

    // -------------------------------------------------------------------
    // Operations.
    // -------------------------------------------------------------------

    /** A new game on the given hidden word, with the countdown started. */
    constructor (target: string)
      ensures Valid() && Cleared()
      ensures targetWord == target && currentRow == 0 && currentCol == 0
      ensures !gameOver && timeLeft == StartTime && timerRunning
    {
      targetWord := target;
      currentRow, currentCol := 0, 0;
      gameOver := false;
      timeLeft := StartTime;
      timerRunning := true;
      board := new char[Rows, Cols]((_, _) => Blank);
      paint := new Paint[Rows, Cols]((_, _) => Unpainted);
    }

    /** Restart on a new hidden word: cursor home, board emptied and
        uncoloured, countdown restarted from the full time. */
    method Reset(newTarget: string)
      requires Shape()
      modifies this, board, paint
      ensures Valid() && Cleared()
      ensures targetWord == newTarget && currentRow == 0 && currentCol == 0
      ensures !gameOver && timeLeft == StartTime && timerRunning
    {
      currentRow, currentCol := 0, 0;
      gameOver := false;
      ClearBoard();
      targetWord := newTarget;
      timerRunning := false;
      timeLeft := StartTime;
      timerRunning := true;
    }

    /** Empties and uncolours every cell. */
    method ClearBoard()
      requires Shape()
      modifies board, paint
      ensures Cleared()
    {
      var r := 0;
      while r < Rows
        invariant 0 <= r <= Rows
        invariant forall i, j :: 0 <= i < r && 0 <= j < Cols ==> board[i, j] == Blank && paint[i, j] == Unpainted
      {
        var c := 0;
        while c < Cols
          invariant 0 <= c <= Cols
          invariant forall i, j :: 0 <= i < r && 0 <= j < Cols ==> board[i, j] == Blank && paint[i, j] == Unpainted
          invariant forall j :: 0 <= j < c ==> board[r, j] == Blank && paint[r, j] == Unpainted
        {
          board[r, c] := Blank;
          paint[r, c] := Unpainted;
          c := c + 1;
        }
        r := r + 1;
      }
    }

    /** One key from the keyboard or the on-screen keys: "enter" judges a
        full row, "backspace" or "del" erases the last letter, a single
        lower-case letter is written upper-cased; once the game is over no
        key has any effect. */
    method ProcessInput(key: string)
      requires Valid()
      modifies this, board, paint
      ensures Valid()
      ensures old(gameOver) ==> Unchanged()
      ensures !old(gameOver) && key == "enter" ==>
                if old(currentCol) == Cols then Checked() else Unchanged()
      ensures !old(gameOver) && key != "enter" && (key == "backspace" || key == "del") ==>
                if old(currentCol) > 0 then Erased() else Unchanged()
      ensures !old(gameOver) && key != "enter" && key != "backspace" && key != "del" ==>
                if old(currentCol) < Cols && IsLetterKey(key) then Typed(UpperCase(key[0])) else Unchanged()
    {
      if gameOver {
        return;
      }
      if key == "enter" {
        if currentCol == Cols {
          CheckGuess();
        }
      } else if key == "backspace" || key == "del" {
        if currentCol > 0 {
          currentCol := currentCol - 1;
          board[currentRow, currentCol] := Blank;
        }
      } else if currentCol < Cols && IsLetterKey(key) {
        board[currentRow, currentCol] := UpperCase(key[0]);
        currentCol := currentCol + 1;
      }
    }

    /** Judges the full current row against the hidden word. */
    method CheckGuess()
      requires Valid() && !gameOver && currentCol == Cols
      modifies this, paint
      ensures Valid() && Checked()
      ensures |targetWord| != Cols ==> currentRow == old(currentRow) + 1
    {
      CurrentRowWord(Cols);
      var guess := ReadRow(currentRow);
      if guess == targetWord {
        ColorRow(currentRow, true);
        EndGame();
      } else {
        ColorRow(currentRow, false);
        currentRow := currentRow + 1;
        currentCol := 0;
        if currentRow == Rows {
          EndGame();
        }
      }
    }

    /** Colours row r: all green when asked to, otherwise by the two-pass
        evaluation of the row's word against the hidden word. */
    method ColorRow(r: nat, allGreen: bool)
      requires Shape() && r < Rows && |RowWord(r)| == Cols
      modifies paint
      ensures forall i, c :: 0 <= i < Rows && i != r && 0 <= c < Cols ==> paint[i, c] == old(paint[i, c])
      ensures forall c :: 0 <= c < Cols ==>
                paint[r, c] == if allGreen then Green else Colour(Evaluator.Evaluate(RowWord(r), targetWord)[c])
    {
      var guess := ReadRow(r);
      var verdicts: seq<Evaluator.Verdict> := [];
      if !allGreen {
        verdicts := Evaluator.Score(guess, targetWord);
      }
      var c := 0;
      while c < Cols
        invariant 0 <= c <= Cols
        invariant forall i, j :: 0 <= i < Rows && i != r && 0 <= j < Cols ==> paint[i, j] == old(paint[i, j])
        invariant forall j :: 0 <= j < c ==>
                    paint[r, j] == if allGreen then Green else Colour(Evaluator.Evaluate(guess, targetWord)[j])
      {
        paint[r, c] := if allGreen then Green else Colour(verdicts[c]);
        c := c + 1;
      }
    }

    /** Reads the word on row r from its cells. */
    method ReadRow(r: nat) returns (word: string)
      requires Shape() && r < Rows
      ensures word == RowWord(r)
    {
      word := "";
      var c := 0;
      while c < Cols
        invariant 0 <= c <= Cols
        invariant word == RowPrefix(r, c)
      {
        word := word + CellText(board[r, c]);
        c := c + 1;
      }
    }

    /** Ends the game and stops the countdown. */
    method EndGame()
      modifies this
      ensures gameOver && !timerRunning
      ensures targetWord == old(targetWord) && currentRow == old(currentRow) && currentCol == old(currentCol)
      ensures timeLeft == old(timeLeft)
    {
      gameOver := true;
      timerRunning := false;
    }

    /** One second of the countdown.  While the countdown runs, it loses one
        second, and the game ends when none is left; a stopped countdown
        does not tick. */
    method Tick()
      requires Valid()
      modifies this
      ensures Valid()
      ensures targetWord == old(targetWord) && currentRow == old(currentRow) && currentCol == old(currentCol)
      ensures old(timerRunning) ==> timeLeft == old(timeLeft) - 1 && (gameOver <==> timeLeft <= 0)
      ensures !old(timerRunning) ==> unchanged(this)
    {
      if !timerRunning {
        return;
      }
      timeLeft := timeLeft - 1;
      if timeLeft <= 0 {
        timerRunning := false;
        EndGame();
      }
    }

    // -------------------------------------------------------------------
    // Lemmas.
    // -------------------------------------------------------------------

    /** The first n cells of the current row join to min(n, currentCol)
        upper-case letters. */
    lemma {:induction false} CurrentRowWord(n: nat)
      requires Valid() && currentRow < Rows && n <= Cols
      ensures |RowPrefix(currentRow, n)| == Evaluator.Min(n, currentCol)
      ensures forall k :: 0 <= k < |RowPrefix(currentRow, n)| ==>
                RowPrefix(currentRow, n)[k] == board[currentRow, k] && IsUpper(RowPrefix(currentRow, n)[k])
    {
      if n > 0 {
        CurrentRowWord(n - 1);
      }
    }
  }

  /** Lets the countdown run out: a running countdown ends the game after
      exactly as many ticks as it had seconds left. */
  method RunOutClock(g: Game) returns (ticks: nat)
    requires g.Valid()
    modifies g
    ensures g.Valid() && g.gameOver
    ensures old(g.timerRunning) ==> ticks == old(g.timeLeft) && g.timeLeft == 0
  {
    ticks := 0;
    while g.timerRunning
      invariant g.Valid()
      invariant old(g.timerRunning) ==> ticks + g.timeLeft == old(g.timeLeft)
      invariant old(g.timerRunning) && !g.timerRunning ==> g.timeLeft == 0
      invariant !old(g.timerRunning) ==> ticks == 0 && g.gameOver
      decreases g.timeLeft
    {
      g.Tick();
      ticks := ticks + 1;
    }
  }

  /** Types a five-letter word into an empty current row and presses enter:
      exactly that word, upper-cased, is judged.  Guessing the hidden word
      wins on this row; any other word is coloured by the evaluator and
      moves on to the next row, and losing when it was the last. */
  method PlayWord(g: Game, word: string)
    requires g.Valid() && !g.gameOver && g.currentCol == 0 && IsLowerWord(word)
    modifies g, g.board, g.paint
    ensures g.Valid() && g.targetWord == old(g.targetWord)
    ensures var row, guess := old(g.currentRow), UpperWord(word);
            if guess == g.targetWord then
              g.gameOver && g.currentRow == row && forall c :: 0 <= c < Cols ==> g.paint[row, c] == Green
            else
              && g.currentRow == row + 1 && g.currentCol == 0 && (g.gameOver <==> g.currentRow == Rows)
              && forall c :: 0 <= c < Cols ==> g.paint[row, c] == Colour(Evaluator.Evaluate(guess, g.targetWord)[c])
  {
    var i := 0;
    while i < Cols
      invariant 0 <= i <= Cols
      invariant g.Valid() && !g.gameOver && g.currentCol == i
      invariant g.currentRow == old(g.currentRow) && g.targetWord == old(g.targetWord)
      invariant forall k :: 0 <= k < i ==> g.board[g.currentRow, k] == UpperCase(word[k])
    {
      g.ProcessInput([word[i]]);
      i := i + 1;
    }
    g.CurrentRowWord(Cols);
    assert g.RowWord(g.currentRow) == UpperWord(word);
    g.ProcessInput("enter");
  }

  /** Five wrong words in a row lose the game on its last row. */
  method MissEveryRow(g: Game, words: seq<string>)
    requires g.Valid() && !g.gameOver && g.currentRow == 0 && g.currentCol == 0
    requires |words| == Rows
    requires forall i :: 0 <= i < |words| ==> IsLowerWord(words[i]) && UpperWord(words[i]) != g.targetWord
    modifies g, g.board, g.paint
    ensures g.Valid() && g.gameOver && g.currentRow == Rows
  {
    var i := 0;
    while i < Rows
      invariant 0 <= i <= Rows
      invariant g.Valid() && g.currentRow == i && g.currentCol == 0
      invariant g.targetWord == old(g.targetWord)
      invariant i < Rows ==> !g.gameOver
    {
      PlayWord(g, words[i]);
      i := i + 1;
    }
  }
}

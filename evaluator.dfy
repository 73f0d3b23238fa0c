/** The guess evaluator of the word game: a finished row (the guess) is
    compared with the hidden word (the target) and every position receives
    one verdict, shown as a green, yellow or gray cell.

    `Score` is the two-pass algorithm as the game runs it, on a scratch copy
    of the target.  `Evaluate` is an independent, closed-form description of
    the same verdicts, and the lemmas below state what the verdicts mean:
    which positions are green, and how often a repeated letter is credited. */
module Evaluator {

  /** Exact = green, Present = yellow, Absent = gray. */
  datatype Verdict = Exact | Present | Absent

  /** One slot of the scratch copy of the target: a letter that may still be
      claimed, or a slot already consumed (the game writes null there). */
  datatype Slot = Taken | Free(letter: char)

  function Min(a: int, b: int): int { if a <= b then a else b }

  // ---------------------------------------------------------------------
  // Counting helpers.  Each counts over the first n positions, so that a
  // left-to-right loop extends the count by one position at a time.
  // ---------------------------------------------------------------------

  /** Number of occurrences of c among s[0..n). */
  function Occurrences(s: string, c: char, n: nat): nat
    requires n <= |s|
  {
    if n == 0 then 0 else Occurrences(s, c, n - 1) + (if s[n - 1] == c then 1 else 0)
  }

  /** Number of occurrences of c in the whole of s. */
  function CountOf(s: string, c: char): nat { Occurrences(s, c, |s|) }

  /** Number of slots among s[0..n) that still hold c. */
  function FreeCount(s: seq<Slot>, c: char, n: nat): nat
    requires n <= |s|
  {
    if n == 0 then 0 else FreeCount(s, c, n - 1) + (if s[n - 1] == Free(c) then 1 else 0)
  }

  /** Position i of the guess holds the target's letter at i (a green cell).
      Beyond the end of either word nothing is aligned. */
  predicate Aligned(guess: string, target: string, i: int)
  {
    0 <= i < |guess| && i < |target| && guess[i] == target[i]
  }

  /** Number of aligned positions among the first n whose letter is c. */
  function AlignedCount(guess: string, target: string, c: char, n: nat): nat
  {
    if n == 0 then 0
    else AlignedCount(guess, target, c, n - 1) + (if Aligned(guess, target, n - 1) && target[n - 1] == c then 1 else 0)
  }

  /** Number of non-aligned positions among guess[0..n) whose letter is c. */
  function LooseCount(guess: string, target: string, c: char, n: nat): nat
    requires n <= |guess|
  {
    if n == 0 then 0
    else LooseCount(guess, target, c, n - 1) + (if !Aligned(guess, target, n - 1) && guess[n - 1] == c then 1 else 0)
  }

  /** The scratch copy of the target once the aligned slots are consumed. */
  function Unmatched(guess: string, target: string): seq<Slot>
  {
    seq(|target|, k requires 0 <= k < |target| => if Aligned(guess, target, k) then Taken else Free(target[k]))
  }

  /** Copies of c in the target that no aligned position has claimed. */
  function Spare(guess: string, target: string, c: char): nat
  {
    FreeCount(Unmatched(guess, target), c, |target|)
  }

  /** The verdict at position i, stated without a scratch array: green when
      aligned; otherwise yellow exactly when fewer earlier non-aligned
      positions hold the same letter than there are spare copies of it. */
  function VerdictAt(guess: string, target: string, i: nat): Verdict
    requires i < |guess|
  {
    if Aligned(guess, target, i) then Exact
    else if LooseCount(guess, target, guess[i], i) < Spare(guess, target, guess[i]) then Present
    else Absent
  }

  /** All verdicts of a guess, one per position. */
  function Evaluate(guess: string, target: string): (v: seq<Verdict>)
    ensures |v| == |guess|
  {
    seq(|guess|, i requires 0 <= i < |guess| => VerdictAt(guess, target, i))
  }

  /** Number of positions among guess[0..n) holding c whose verdict is
      green or yellow. */
  function Credited(guess: string, v: seq<Verdict>, c: char, n: nat): nat
    requires n <= |guess| && |v| == |guess|
  {
    if n == 0 then 0
    else Credited(guess, v, c, n - 1) + (if guess[n - 1] == c && v[n - 1] != Absent then 1 else 0)
  }

  // ---------------------------------------------------------------------
  // The algorithm.
  // ---------------------------------------------------------------------

  /** Array.prototype.indexOf on the scratch copy: the first slot still
      holding c, or -1. */
  method IndexOf(scratch: array<Slot>, c: char) returns (j: int)
    ensures -1 <= j < scratch.Length
    ensures j == -1 <==> forall k :: 0 <= k < scratch.Length ==> scratch[k] != Free(c)
    ensures j != -1 ==> scratch[j] == Free(c) && forall k :: 0 <= k < j ==> scratch[k] != Free(c)
  {
    j := 0;
    while j < scratch.Length
      invariant 0 <= j <= scratch.Length
      invariant forall k :: 0 <= k < j ==> scratch[k] != Free(c)
    {
      if scratch[j] == Free(c) {
        return;
      }
      j := j + 1;
    }
    j := -1;
  }

  /** The two-pass colouring of a guess.  The target is split into a
      scratch copy; pass one marks the aligned positions green and consumes
      their slots of the copy; pass two visits every position that is not
      green, left to right, and marks it yellow while consuming the first
      free slot with its letter, or gray when there is none. */
  method Score(guess: string, target: string) returns (v: seq<Verdict>)
    ensures v == Evaluate(guess, target)
  {
    var scratch := new Slot[|target|](k requires 0 <= k < |target| => Free(target[k]));
    var marks := new Verdict[|guess|](_ => Absent);
    MarkAligned(guess, target, scratch, marks);
    PassOneDone(guess, target);
    MarkRest(guess, target, scratch, marks);
    v := marks[..];
  }

  /** Pass one of Score. */
  method MarkAligned(guess: string, target: string, scratch: array<Slot>, marks: array<Verdict>)
    requires scratch.Length == |target| && marks.Length == |guess|
    requires forall k :: 0 <= k < |target| ==> scratch[k] == Free(target[k])
    requires forall k :: 0 <= k < |guess| ==> marks[k] == Absent
    modifies scratch, marks
    ensures scratch[..] == Unmatched(guess, target)
    ensures forall k :: 0 <= k < |guess| ==> marks[k] == if Aligned(guess, target, k) then Exact else Absent
  {
    var i := 0;
    while i < |guess|
      invariant 0 <= i <= |guess|
      invariant forall k :: 0 <= k < |target| ==>
                  scratch[k] == if k < i && Aligned(guess, target, k) then Taken else Free(target[k])
      invariant forall k :: 0 <= k < |guess| ==>
                  marks[k] == if k < i && Aligned(guess, target, k) then Exact else Absent
    {
      if i < |target| && guess[i] == target[i] {
        marks[i] := Exact;
        scratch[i] := Taken;
      }
      i := i + 1;
    }
    assert forall k :: 0 <= k < |target| ==> scratch[k] == Unmatched(guess, target)[k];
  }

  /** Pass two of Score. */
  method MarkRest(guess: string, target: string, scratch: array<Slot>, marks: array<Verdict>)
    requires marks.Length == |guess|
    requires ScratchMatches(guess, target, scratch[..], 0)
    requires forall k :: 0 <= k < |guess| ==> marks[k] == if Aligned(guess, target, k) then Exact else Absent
    modifies scratch, marks
    ensures marks[..] == Evaluate(guess, target)
  {
    var i := 0;
    while i < |guess|
      invariant 0 <= i <= |guess|
      invariant forall k :: 0 <= k < i ==> marks[k] == VerdictAt(guess, target, k)
      invariant forall k :: i <= k < |guess| ==>
                  marks[k] == if Aligned(guess, target, k) then Exact else Absent
      invariant ScratchMatches(guess, target, scratch[..], i)
    {
      Visit(guess, target, scratch, marks, i);
      i := i + 1;
    }
    assert forall k :: 0 <= k < |guess| ==> marks[k] == Evaluate(guess, target)[k];
  }

  /** One step of pass two, at position i: a green cell is left alone; any
      other cell turns yellow and consumes the first free slot holding its
      letter, or turns gray when there is none. */
  method Visit(guess: string, target: string, scratch: array<Slot>, marks: array<Verdict>, i: nat)
    requires marks.Length == |guess| && i < |guess|
    requires marks[i] == if Aligned(guess, target, i) then Exact else Absent
    requires ScratchMatches(guess, target, scratch[..], i)
    modifies scratch, marks
    ensures marks[i] == VerdictAt(guess, target, i)
    ensures forall k :: 0 <= k < |guess| && k != i ==> marks[k] == old(marks[k])
    ensures ScratchMatches(guess, target, scratch[..], i + 1)
  {
    if marks[i] != Exact {
      ghost var before := scratch[..];
      var j := IndexOf(scratch, guess[i]);
      assert forall k :: 0 <= k < |before| ==> before[k] == scratch[k];
      PassTwoStep(guess, target, i, before, j);
      if j != -1 {
        marks[i] := Present;
        scratch[j] := Taken;
        assert scratch[..] == before[j := Taken];
      } else {
        marks[i] := Absent;
      }
    } else {
      PassTwoSkip(guess, target, i, scratch[..]);
    }
  }

  // ---------------------------------------------------------------------
  // Lemmas about the scratch counts used by Score.
  // ---------------------------------------------------------------------

  /** The scratch copy s after pass two has visited guess[0..i): every
      letter has lost one spare copy per loose position of it visited, as
      long as copies remained. */
  predicate ScratchMatches(guess: string, target: string, s: seq<Slot>, i: nat)
  {
    |s| == |target| && i <= |guess| &&
    forall c :: FreeCount(s, c, |target|)
                == Spare(guess, target, c) - Min(Spare(guess, target, c), LooseCount(guess, target, c, i))
  }

  /** Pass one leaves exactly the spare copies in the scratch copy. */
  lemma PassOneDone(guess: string, target: string)
    ensures ScratchMatches(guess, target, Unmatched(guess, target), 0)
  {
  }

  /** Pass two skips a green position; nothing it counts changes. */
  lemma PassTwoSkip(guess: string, target: string, i: nat, s: seq<Slot>)
    requires i < |guess| && Aligned(guess, target, i)
    requires ScratchMatches(guess, target, s, i)
    ensures ScratchMatches(guess, target, s, i + 1)
  {
  }

  /** Pass two at a position that is not green: the lookup finds a slot
      exactly when the closed-form verdict is yellow, and consuming that slot
      keeps the scratch copy in step with the counts. */
  lemma PassTwoStep(guess: string, target: string, i: nat, s: seq<Slot>, j: int)
    requires i < |guess| && !Aligned(guess, target, i)
    requires ScratchMatches(guess, target, s, i)
    requires -1 <= j < |s|
    requires j == -1 <==> forall k :: 0 <= k < |s| ==> s[k] != Free(guess[i])
    requires j != -1 ==> s[j] == Free(guess[i])
    ensures VerdictAt(guess, target, i) == if j == -1 then Absent else Present
    ensures ScratchMatches(guess, target, if j == -1 then s else s[j := Taken], i + 1)
  {
    var c := guess[i];
    if j == -1 {
      FreeCountZero(s, c, |target|);
    } else {
      FreeCountPositive(s, c, |target|, j);
      forall d | true
        ensures FreeCount(s[j := Taken], d, |target|) == FreeCount(s, d, |target|) - (if d == c then 1 else 0)
      {
        FreeCountTake(s, j, d, |target|);
      }
    }
  }

  /** A slot holding c among the first n makes the count positive. */
  lemma {:induction false} FreeCountPositive(s: seq<Slot>, c: char, n: nat, j: nat)
    requires n <= |s| && j < n && s[j] == Free(c)
    ensures FreeCount(s, c, n) > 0
  {
    if j < n - 1 {
      FreeCountPositive(s, c, n - 1, j);
    }
  }

  /** With no slot holding c among the first n, the count is zero. */
  lemma {:induction false} FreeCountZero(s: seq<Slot>, c: char, n: nat)
    requires n <= |s|
    requires forall k :: 0 <= k < |s| ==> s[k] != Free(c)
    ensures FreeCount(s, c, n) == 0
  {
    if n > 0 {
      FreeCountZero(s, c, n - 1);
    }
  }

  /** Consuming slot j, which held d, lowers the count of d by one and
      leaves every other letter's count as it was. */
  lemma {:induction false} FreeCountTake(s: seq<Slot>, j: nat, c: char, n: nat)
    requires n <= |s| && j < |s| && s[j].Free?
    ensures FreeCount(s[j := Taken], c, n)
            == FreeCount(s, c, n) - (if j < n && s[j] == Free(c) then 1 else 0)
  {
    if n > 0 {
      FreeCountTake(s, j, c, n - 1);
    }
  }

  // ---------------------------------------------------------------------
  // What the verdicts mean.
  // ---------------------------------------------------------------------

  /** A position is green exactly when its letter is the target's letter at
      that index; every other position is yellow or gray. */
  lemma ExactIffAligned(guess: string, target: string, i: nat)
    requires i < |guess|
    ensures Evaluate(guess, target)[i] == Exact <==> i < |target| && guess[i] == target[i]
  {
  }

  /** A guess equal to the target is all green, so the whole-row shortcut
      the game takes on a correct guess agrees with the two passes. */
  lemma SelfEvaluationAllExact(target: string)
    ensures forall i :: 0 <= i < |target| ==> Evaluate(target, target)[i] == Exact
  {
  }

  /** A yellow letter occurs in the target at some position that is not
      green, hence at another index than its own. */
  lemma PresentHasUnmatchedCopy(guess: string, target: string, i: nat)
    requires i < |guess| && Evaluate(guess, target)[i] == Present
    ensures exists k :: 0 <= k < |target| && k != i && target[k] == guess[i] && !Aligned(guess, target, k)
  {
    var c := guess[i];
    var k := FreeSlotOf(Unmatched(guess, target), c, |target|);
    assert target[k] == c && !Aligned(guess, target, k);
  }

  /** A positive count has a witness slot. */
  lemma {:induction false} FreeSlotOf(s: seq<Slot>, c: char, n: nat) returns (k: nat)
    requires n <= |s| && FreeCount(s, c, n) > 0
    ensures k < n && s[k] == Free(c)
  {
    if s[n - 1] == Free(c) {
      k := n - 1;
    } else {
      k := FreeSlotOf(s, c, n - 1);
    }
  }

  /** The target's copies of c split into the aligned ones and the spare ones. */
  lemma {:induction false} TargetSplit(guess: string, target: string, c: char, n: nat)
    requires n <= |target|
    ensures Occurrences(target, c, n) == FreeCount(Unmatched(guess, target), c, n) + AlignedCount(guess, target, c, n)
  {
    if n > 0 {
      TargetSplit(guess, target, c, n - 1);
    }
  }

  /** The guess's copies of c split into the aligned ones and the loose ones. */
  lemma {:induction false} GuessSplit(guess: string, target: string, c: char, n: nat)
    requires n <= |guess|
    ensures Occurrences(guess, c, n) == AlignedCount(guess, target, c, n) + LooseCount(guess, target, c, n)
  {
    if n > 0 {
      GuessSplit(guess, target, c, n - 1);
    }
  }

  /** No position at or beyond the end of either word is aligned. */
  lemma {:induction false} AlignedCountSettles(guess: string, target: string, c: char, n: nat)
    requires n >= Min(|guess|, |target|)
    ensures AlignedCount(guess, target, c, n) == AlignedCount(guess, target, c, Min(|guess|, |target|))
  {
    if n > Min(|guess|, |target|) {
      AlignedCountSettles(guess, target, c, n - 1);
    }
  }

  /** Over a prefix of the guess, the credited copies of c are the aligned
      ones plus as many loose ones as there are spare copies. */
  lemma {:induction false} CreditedPrefix(guess: string, target: string, c: char, n: nat)
    requires n <= |guess|
    ensures Credited(guess, Evaluate(guess, target), c, n)
            == AlignedCount(guess, target, c, n) + Min(LooseCount(guess, target, c, n), Spare(guess, target, c))
  {
    if n > 0 {
      CreditedPrefix(guess, target, c, n - 1);
    }
  }

  /** The duplicate-letter rule: for every letter, the positions holding it
      that are green or yellow number exactly the smaller of its count in the
      guess and its count in the target. */
  lemma CreditedIsMin(guess: string, target: string, c: char)
    ensures Credited(guess, Evaluate(guess, target), c, |guess|) == Min(CountOf(guess, c), CountOf(target, c))
  {
    CreditedPrefix(guess, target, c, |guess|);
    GuessSplit(guess, target, c, |guess|);
    TargetSplit(guess, target, c, |target|);
    AlignedCountSettles(guess, target, c, |guess|);
    AlignedCountSettles(guess, target, c, |target|);
  }

  /** In particular a letter is never credited more often than the target
      holds it. */
  lemma CreditedWithinTarget(guess: string, target: string, c: char)
    ensures Credited(guess, Evaluate(guess, target), c, |guess|) <= CountOf(target, c)
  {
    CreditedIsMin(guess, target, c);
  }

  /** A gray letter has every copy of it in the target claimed by some
      green or yellow position of the same guess. */
  lemma AbsentMeansExhausted(guess: string, target: string, c: char, i: nat)
    requires i < |guess| && guess[i] == c && Evaluate(guess, target)[i] == Absent
    ensures Credited(guess, Evaluate(guess, target), c, |guess|) == CountOf(target, c)
  {
    LooseGrows(guess, target, c, i + 1, |guess|);
    CreditedPrefix(guess, target, c, |guess|);
    TargetSplit(guess, target, c, |target|);
    AlignedCountSettles(guess, target, c, |guess|);
    AlignedCountSettles(guess, target, c, |target|);
  }

  /** Loose counts only grow along the guess. */
  lemma {:induction false} LooseGrows(guess: string, target: string, c: char, m: nat, n: nat)
    requires m <= n <= |guess|
    ensures LooseCount(guess, target, c, m) <= LooseCount(guess, target, c, n)
  {
    if m < n {
      LooseGrows(guess, target, c, m, n - 1);
    }
  }

  /** The trace of a guess with repeated letters: target SPEED, guess ERASE.
      No position is aligned; the first E and the S claim target copies,
      R and A are not in the target, and the last E claims the second E. */
  lemma SpeedEraseExample()
    ensures Evaluate("ERASE", "SPEED") == [Present, Absent, Absent, Present, Present]
  {
    var g, t := "ERASE", "SPEED";
    var u := Unmatched(g, t);
    assert u == [Free('S'), Free('P'), Free('E'), Free('E'), Free('D')];
    assert FreeCount(u, 'E', 1) == 0;
    assert FreeCount(u, 'E', 2) == 0;
    assert FreeCount(u, 'E', 3) == 1;
    assert FreeCount(u, 'E', 4) == 2;
    assert FreeCount(u, 'E', 5) == 2;
    assert FreeCount(u, 'S', 1) == 1;
    assert FreeCount(u, 'S', 2) == 1;
    assert FreeCount(u, 'S', 3) == 1;
    assert FreeCount(u, 'S', 4) == 1;
    assert FreeCount(u, 'S', 5) == 1;
    FreeCountZero(u, 'R', 5);
    FreeCountZero(u, 'A', 5);
    assert LooseCount(g, t, 'E', 1) == 1;
    assert LooseCount(g, t, 'E', 4) == 1;
  }
}

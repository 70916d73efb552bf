/**
  The pick-a-case game of the RickRollGame component, as values.

  The component keeps four slots ("cases"), each either unrevealed or showing
  one of two result images; a winning slot fixed when the component mounts; a
  game-over flag; and the image shown in the result dialog, if any. A pick
  reveals one slot and ends the game; closing the dialog hides the image.

  This module states the transitions as functions on a `State` value and
  proves what they keep; the class in module App is proved against them.
 */
module GameSpec {

  datatype Option<T> = None | Some(value: T)

  /** The two result images: opaque and distinct, their URLs play no part. */
  datatype Gif = RickRoll | Winner

  /** Number of cases on the board. */
  const Slots: nat := 4

  /** Everything the component keeps in its state cells. */
  datatype State = State(
    revealed: seq<Option<Gif>>,
    winningIndex: int,
    gameOver: bool,
    selectedGif: Option<Gif>)

  /** The image a pick of `index` reveals. */
  function GifFor(index: int, winningIndex: int): Gif {
    if index == winningIndex then Winner else RickRoll
  }

  /** Number of revealed slots. */
  function CountRevealed(r: seq<Option<Gif>>): nat {
    if r == [] then 0 else (if r[0].Some? then 1 else 0) + CountRevealed(r[1..])
  }

  /** The result dialog is open exactly when an image is selected. */
  predicate DialogOpen(s: State) {
    s.selectedGif.Some?
  }

  /**
    The guard of a pick: the game is not over and the slot reads as null.
    An index outside the board reads as undefined, which is not null, so
    such a pick is refused like a pick of an already revealed slot.
   */
  predicate CanPick(s: State, index: int) {
    !s.gameOver && 0 <= index < |s.revealed| && s.revealed[index] == None
  }

  /**
    What every reachable state satisfies: four slots and a winning index among
    them; a revealed slot shows the image its index earns; at most one slot is
    revealed, and one is exactly when the game is over; a selected image is
    one that is on the board.
   */
  ghost predicate Inv(s: State) {
    && |s.revealed| == Slots
    && 0 <= s.winningIndex < Slots
    && (forall i :: 0 <= i < |s.revealed| && s.revealed[i].Some? ==>
          s.revealed[i].value == GifFor(i, s.winningIndex))
    && CountRevealed(s.revealed) <= 1
    && (s.gameOver <==> CountRevealed(s.revealed) == 1)
    && (s.selectedGif.Some? ==> s.selectedGif in s.revealed)
  }

  /**
    How a later state may differ from an earlier one: same board size, same
    winning index, a finished game stays finished, a revealed slot keeps its
    image.
   */
  ghost predicate Evolves(s: State, t: State) {
    && |t.revealed| == |s.revealed|
    && t.winningIndex == s.winningIndex
    && (s.gameOver ==> t.gameOver)
    && (forall i :: 0 <= i < |s.revealed| && s.revealed[i].Some? ==> t.revealed[i] == s.revealed[i])
  }

  /** The state on mount, with the random draw of the winning slot given as `w`. */
  function Initial(w: int): (s: State)
    requires 0 <= w < Slots
    ensures Inv(s) && !DialogOpen(s) && !s.gameOver && s.winningIndex == w
    ensures forall i :: 0 <= i < Slots ==> CanPick(s, i)
  {
    State([None, None, None, None], w, false, None)
  }

  /** The pick handler. */
  function Pick(s: State, index: int): (t: State)
    ensures !CanPick(s, index) ==> t == s
    ensures CanPick(s, index) ==>
      && t.gameOver
      && t.winningIndex == s.winningIndex
      && |t.revealed| == |s.revealed|
      && t.revealed[index].Some?
      && (t.revealed[index] == Some(Winner) <==> index == s.winningIndex)
      && (forall j :: 0 <= j < |s.revealed| && j != index ==> t.revealed[j] == s.revealed[j])
      && t.selectedGif == t.revealed[index]
      && DialogOpen(t)
    ensures Evolves(s, t)
    ensures Inv(s) ==> Inv(t)
  {
    if CanPick(s, index) then
      var gif := GifFor(index, s.winningIndex);
      CountUpdate(s.revealed, index, gif);
      var r := s.revealed[index := Some(gif)];
      assert r[index] == Some(gif);
      State(r, s.winningIndex, true, Some(gif))
    else
      s
  }

  /** The dialog's close handlers (its onClose and its Close button). */
  function Close(s: State): (t: State)
    ensures !DialogOpen(t)
    ensures t.revealed == s.revealed && t.winningIndex == s.winningIndex && t.gameOver == s.gameOver
    ensures Evolves(s, t)
    ensures Inv(s) ==> Inv(t)
  {
    s.(selectedGif := None)
  }

  /** The user's actions on the component. */
  datatype Event = PickCase(index: int) | CloseDialog

  function Step(s: State, e: Event): (t: State)
    ensures Evolves(s, t)
    ensures Inv(s) ==> Inv(t)
  {
    match e
    case PickCase(i) => Pick(s, i)
    case CloseDialog => Close(s)
  }

  /** The state after a sequence of actions, in order. */
  function Run(s: State, es: seq<Event>): (t: State)
    ensures Evolves(s, t)
    ensures Inv(s) ==> Inv(t)
    decreases |es|
  {
    if es == [] then s else Run(Step(s, es[0]), es[1..])
  }

  /** Revealing an unrevealed slot adds one to the count. */
  lemma {:induction false} CountUpdate(r: seq<Option<Gif>>, i: int, g: Gif)
    requires 0 <= i < |r| && r[i] == None
    ensures CountRevealed(r[i := Some(g)]) == CountRevealed(r) + 1
  {
    if i == 0 {
      assert r[i := Some(g)][1..] == r[1..];
    } else {
      CountUpdate(r[1..], i - 1, g);
      assert r[i := Some(g)][1..] == r[1..][i - 1 := Some(g)];
    }
  }

  /** A board with a revealed slot has a positive count. */
  lemma {:induction false} CountPositive(r: seq<Option<Gif>>, i: int)
    requires 0 <= i < |r| && r[i].Some?
    ensures CountRevealed(r) >= 1
  {
    if i > 0 {
      CountPositive(r[1..], i - 1);
    }
  }

  /** The count is zero exactly when no slot is revealed. */
  lemma {:induction false} CountZero(r: seq<Option<Gif>>)
    ensures CountRevealed(r) == 0 <==> forall i :: 0 <= i < |r| ==> r[i] == None
  {
    if r != [] {
      CountZero(r[1..]);
      if r[0] == None {
        assert forall i :: 1 <= i < |r| ==> r[i] == r[1..][i - 1];
      }
    }
  }

  /** With a count of at most one, two revealed slots are the same slot. */
  lemma {:induction false} AtMostOneRevealed(r: seq<Option<Gif>>, i: int, j: int)
    requires CountRevealed(r) <= 1
    requires 0 <= i < |r| && r[i].Some?
    requires 0 <= j < |r| && r[j].Some?
    ensures i == j
  {
    if i > 0 && j > 0 {
      AtMostOneRevealed(r[1..], i - 1, j - 1);
    } else if i > 0 {
      CountPositive(r[1..], i - 1);
    } else if j > 0 {
      CountPositive(r[1..], j - 1);
    }
  }

  /** Once the game is over, no action changes the board or restarts the game. */
  lemma {:induction false} GameOverFreezesBoard(s: State, es: seq<Event>)
    requires s.gameOver
    ensures Run(s, es).revealed == s.revealed
    ensures Run(s, es).gameOver && Run(s, es).winningIndex == s.winningIndex
    decreases |es|
  {
    if es != [] {
      GameOverFreezesBoard(Step(s, es[0]), es[1..]);
    }
  }

  /** After any actions from mount, the game is over exactly when some slot is revealed. */
  lemma GameOverIffPicked(w: int, es: seq<Event>)
    requires 0 <= w < Slots
    ensures Run(Initial(w), es).gameOver <==>
      exists i :: 0 <= i < Slots && Run(Initial(w), es).revealed[i].Some?
  {
  }

  /**
    After any actions from mount, a revealed slot is the only revealed slot,
    it shows the winner image exactly when it is the winning slot, and the
    game is over.
   */
  lemma PickedSlotDecides(w: int, es: seq<Event>, i: int)
    requires 0 <= w < Slots && 0 <= i < Slots
    requires Run(Initial(w), es).revealed[i].Some?
    ensures Run(Initial(w), es).gameOver
    ensures Run(Initial(w), es).revealed[i] == Some(Winner) <==> i == w
    ensures forall j :: 0 <= j < Slots && j != i ==> Run(Initial(w), es).revealed[j] == None
    ensures DialogOpen(Run(Initial(w), es)) ==> Run(Initial(w), es).selectedGif == Run(Initial(w), es).revealed[i]
  {
    var t := Run(Initial(w), es);
    CountPositive(t.revealed, i);
    forall j | 0 <= j < Slots && t.revealed[j].Some?
      ensures j == i
    {
      AtMostOneRevealed(t.revealed, i, j);
    }
  }

  /** Of the four possible first picks, exactly the winning slot's one wins. */
  lemma OnlyWinningPickWins(w: int, i: int)
    requires 0 <= w < Slots && 0 <= i < Slots
    ensures Pick(Initial(w), i).revealed[i] == Some(Winner) <==> i == w
    ensures Pick(Initial(w), i).revealed[i] == Some(RickRoll) <==> i != w
  {
  }
}

/**
  The RickRollGame component as an object: its state cells become fields, the
  pick handler and the dialog's close handlers become methods. Each method is
  proved to move the object's state as the functions of GameSpec say.
 */
module App {
  import opened GameSpec

  class RickRollGame {
    /** The four cases; None is an unrevealed case. */
    var revealed: array<Option<Gif>>
    /** Drawn once on mount and never set again (the state cell has no setter). */
    const winningIndex: int
    var gameOver: bool
    /** The image the result dialog shows; the dialog is open while it is set. */
    var selectedGif: Option<Gif>

    ghost function Model(): State
      reads this, revealed
    {
      State(revealed[..], winningIndex, gameOver, selectedGif)
    }

    ghost predicate Valid()
      reads this, revealed
    {
      revealed.Length == Slots && Inv(Model())
    }

    /** Mounting the component; `w` stands for the random draw in [0, 4). */
    constructor (w: int)
      requires 0 <= w < Slots
      ensures Valid() && fresh(revealed)
      ensures Model() == Initial(w)
    {
      revealed := new Option<Gif>[Slots](_ => None);
      winningIndex := w;
      gameOver := false;
      selectedGif := None;
      new;
      assert revealed[..] == [None, None, None, None];
      assert Model() == Initial(w);
    }

    /**
      The pick handler. A refused pick changes nothing; an accepted one
      replaces the board by a copy with slot `index` revealed, selects that
      image and ends the game. The previous board is never written to.
     */
    method Pick(index: int)
      requires Valid()
      modifies this
      ensures Valid()
      ensures Model() == GameSpec.Pick(old(Model()), index)
      ensures !CanPick(old(Model()), index) ==> unchanged(this) && unchanged(revealed)
      ensures CanPick(old(Model()), index) ==> fresh(revealed)
      ensures unchanged(old(revealed))
    {
      if !gameOver && 0 <= index < revealed.Length && revealed[index] == None {
        var board := revealed[..];
        var newRevealed := new Option<Gif>[revealed.Length](i => if 0 <= i < |board| then board[i] else None);
        var gif := if index == winningIndex then Winner else RickRoll;
        newRevealed[index] := Some(gif);
        assert newRevealed[..] == board[index := Some(gif)];
        revealed := newRevealed;
        selectedGif := Some(gif);
        gameOver := true;
        assert Model() == GameSpec.Pick(old(Model()), index);
      }
    }

    /** Closing the result dialog: clears the selected image, nothing else. */
    method Close()
      requires Valid()
      modifies this
      ensures Valid()
      ensures Model() == GameSpec.Close(old(Model()))
      ensures revealed == old(revealed) && unchanged(revealed)
      ensures gameOver == old(gameOver) && selectedGif == None
    {
      selectedGif := None;
    }
  }

  /** A session with the winning case at 2, seen only through the contracts above. */
  method PlaySession() {
    var game := new RickRollGame(2);
    game.Pick(7);
    assert !game.gameOver && game.revealed[..] == [None, None, None, None];
    game.Pick(0);
    assert game.revealed[0] == Some(RickRoll) && game.selectedGif == Some(RickRoll);
    assert game.gameOver && DialogOpen(game.Model());
    game.Pick(2);
    assert game.revealed[2] == None;
    game.Close();
    assert !DialogOpen(game.Model()) && game.revealed[0] == Some(RickRoll);
  }
}

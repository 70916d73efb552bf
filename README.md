# Rick-Roll game: a verified model of the pick handler

The `RickRollGame` React component shows four cases. Exactly one case is the
winning one. It is drawn at random when the component mounts and never changes.
Picking a case reveals it: the winner image if it is the winning case, the
Rick-Roll image otherwise. The pick also opens a result dialog with that image
and ends the game. Closing the dialog hides the image and changes nothing else.
Further picks are ignored. So are picks of an already revealed case and picks
of an index outside the board. For such an index `revealed[index]` reads as
`undefined`, which fails the handler's `=== null` test.

The project has two modules:

- `GameSpec` (GameSpec.dfy) states the component's state as a value `State`.
  It holds the four slots, the winning index, the game-over flag and the
  selected image. It defines the transitions `Pick` and `Close`, and `Run` for
  a sequence of user actions. It also defines the invariant `Inv` that every
  reachable state satisfies, and proves the properties of the game.
- `App` (Game.dfy) holds the class `RickRollGame`. Its fields are the
  component's state cells, with the board as an `array<Option<Gif>>`. Its
  methods `Pick` and `Close` are proved to change the object exactly as
  `GameSpec.Pick` and `GameSpec.Close` say, under the class invariant
  `Valid()`. `Pick` copies the board into a fresh array, writes one slot and
  installs the copy, as the handler does. The old array is left unchanged.

The two image URLs are modelled as the two distinct constructors of
`datatype Gif = RickRoll | Winner`. The random draw of the winning slot is the
constructor's argument `w`, required to lie in [0, 4).

## Model

| member | source | states |
|---|---|---|
| `GameSpec.Initial` | src/App.tsx:9-14 | On mount all four slots are unrevealed, the game is not over, no image is selected (dialog closed), the winning index is the drawn one in [0, 4), every slot may be picked, and the invariant holds |
| `GameSpec.Pick` | src/App.tsx:16-25 | A pick when the game is over, of a revealed slot or of an index off the board leaves the state unchanged. An accepted pick reveals slot `index`, with the winner image iff `index` is the winning index. It leaves every other slot and the winning index as they were, ends the game, selects exactly the revealed image (opening the dialog) and preserves the invariant |
| `GameSpec.Close` | src/App.tsx:50-52 | Closing the dialog clears the selected image (dialog closed) and leaves the board, game-over flag and winning index unchanged; the invariant is preserved |
| `GameSpec.Step` | src/App.tsx:16-25 | Every user action (a pick or a close) keeps the winning index and the board size, never clears game-over, never changes a revealed slot, and preserves the invariant |
| `GameSpec.Run` | src/App.tsx:12-25 | Any sequence of actions has those same guarantees: winning index fixed, game-over monotone, slots write-once, invariant kept |
| `GameSpec.CountUpdate` | src/App.tsx:18-20 | Revealing an unrevealed slot raises the number of revealed slots by exactly one |
| `GameSpec.CountZero` | src/App.tsx:9-11 | The revealed count is zero iff every slot is null |
| `GameSpec.AtMostOneRevealed` | src/App.tsx:17-23 | When at most one slot is counted as revealed, two revealed slots are the same slot |
| `GameSpec.GameOverFreezesBoard` | src/App.tsx:17 | Once the game is over, no sequence of picks and closes changes the board; the game stays over and the winning index stays put |
| `GameSpec.GameOverIffPicked` | src/App.tsx:17-23 | After any actions from mount, the game is over iff some slot is revealed |
| `GameSpec.PickedSlotDecides` | src/App.tsx:17-23 | After any actions from mount, a revealed slot is the only one revealed; it shows the winner image iff it is the winning slot; the game is over; an open dialog shows exactly that slot's image |
| `GameSpec.OnlyWinningPickWins` | src/App.tsx:19 | Of the four possible first picks, the winning slot's reveals the winner image and every other reveals the Rick-Roll image |
| `App.RickRollGame.constructor` | src/App.tsx:9-14 | A fresh board of four null slots, the given winning index, game not over, nothing selected, class invariant established |
| `App.RickRollGame.Pick` | src/App.tsx:16-25 | The object's new state is `GameSpec.Pick` of its old state. A refused pick changes no field and no slot. An accepted pick installs a freshly allocated board. The previous board array is never written. The class invariant is kept |
| `App.RickRollGame.Close` | src/App.tsx:65 | The object's new state is `GameSpec.Close` of its old state: same board array and contents, same game-over flag, no selected image; the class invariant is kept |

## Left out

- Rendering: the grid, the case buttons and their labels, Tailwind classes, and the `pointer-events-none` class on buttons once the game is over. That styling blocks the same clicks the handler's `gameOver` guard already ignores.
- The framer-motion flip animation and the headlessui `Dialog` component are foreign library code. The only part modelled is the dialog's `open={!!selectedGif}` link, as `GameSpec.DialogOpen`.
- `Math.random`: the drawn winning index is the constructor's argument instead. Uniformity of the draw is not modelled.
- The image URLs and image loading: the two images are two distinct opaque tokens.
- React's asynchronous state updates. The model assumes that each handler call sees the state left by the previous one. React guarantees this for separate clicks, because it re-renders between discrete events. Two calls in one batch, which would both read the same stale closure, are not modelled.
- The pick index is an `int`. A JavaScript number that is not an integer would also read `undefined` and be refused. The model does not represent such numbers.
- Suspense delays, the partial reveal of the other three cases, and audio/video playback belong to other revisions of the component. They are not in src/App.tsx and are not part of this model.

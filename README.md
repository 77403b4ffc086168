# Concentration game: verified model of the round engine and the configuration page

This project models the two pages of a browser concentration (memory) card
game in which players take turns turning cards over to find sets of equal
faces.

- `src/pages/game.tsx` holds the round engine. It deals a deck of face values
  (`generateCardId`, then `shuffleArray`, then `chooseJoker` when a joker is
  wanted). It handles a card click (`flipCard`) and the acknowledgement of a
  mismatch (`closeMismatchModal`). It opens the end dialog once every set is
  matched, names the winners or declares a draw, and starts over with the
  same settings (`resetGame`).
- `src/pages/config.tsx` holds the configuration page. It keeps the name list
  in step with the player count, edits single names, offers five pair counts,
  and opens the game only for two or more players.

Layout:

- `deck.dfy`, module `Deck`: deck construction. The Fisher–Yates shuffle
  (`ShuffleArray`) and the joker removal (`ChooseJoker`) are methods with
  loops over arrays. Each is proved equal to a reference function
  (`Shuffled`, `Without`). Lemmas prove the multiplicities of the dealt deck
  for every choice the random source can make.
- `round.dfy`, module `Round`: the round state as a value (`RoundState`)
  and its transitions as functions: `Flip`, `CloseMismatch`, `EndCheck` and
  `Reset`. The invariant `Inv` holds in every reachable state. The
  properties of each transition are proved as lemmas.
- `game.dfy`, module `Game`: the page component as the class `GameBoard`.
  Its fields mirror the component state. Its methods update them step by
  step and are proved to perform exactly the transitions of `Round`.
- `outcome.dfy`, module `Outcome`: the maximum score, the winners, the draw,
  and the score label.
- `config.dfy`, module `Config`: the name-list functions, the class
  `ConfigForm` for the page state, and the submit gate.

Randomness is a parameter. `ShuffleArray` receives, for every step `i`, the
index `js[i]` in `[0, i]` that `Math.random` would pick. `ChooseJoker`
receives the removed position. Every property is proved for all such
choices.

In these places the code behaves differently from what a reader might expect; the model follows the code:

- The end dialog opens when the matched count equals `pairs * numOfDuplicates`
  (game.tsx:49), not when it equals the deck length. The two coincide only
  without a joker (`Round.EndIffAllMatched`).
- A completed set is judged by comparing the first (and, in hard mode, the
  second) selected card with the last one. `Round.ComparisonIsSameFace` shows
  that this is the same as "all selected faces are equal".
- The code has no hard-mode "skip" action and never reorders the players,
  not even on reset. The flag `isPlayerOrderRandom` is only passed along in
  the stored record.

## Model

| member | source | states |
|---|---|---|
| `Deck.GenerateCardId` | src/pages/game.tsx:60-65 | the id of position `index` lies in 1..FaceCount and is `index mod FaceCount` plus one, where FaceCount is `pairs + 1` with a joker and `pairs` without |
| `Deck.UnshuffledCounts` | src/pages/game.tsx:39-45 | the unshuffled deck holds every value 1..FaceCount exactly `dups` times and no other value |
| `Deck.ShuffledPermutes` | src/pages/game.tsx:73-80 | for any indices the random source picks, the shuffle keeps the length and the multiset of the input |
| `Deck.ShuffleArray` | src/pages/game.tsx:73-80 | returns a new array equal to the Fisher–Yates steps from the last index down to 1 applied to the input, hence a permutation of it; the input array is not modified |
| `Deck.Without` | src/pages/game.tsx:89 | removing position k gives a sequence one shorter, the same elements before k, the following ones shifted down, and the multiset minus one copy of the removed value |
| `Deck.ChooseJoker` | src/pages/game.tsx:83-91 | returns a copy of the input without the element at the drawn position, order of the rest preserved; an empty input stays empty |
| `Deck.ShuffledIsDeal` | src/pages/game.tsx:43 | without a joker the dealt deck has `pairs * dups` cards and every face exactly `dups` times |
| `Deck.JokerRemovalIsDeal` | src/pages/game.tsx:41 | with a joker the dealt deck has `(pairs + 1) * dups - 1` cards; the removed face (the joker) appears `dups - 1` times and every other face in 1..pairs+1 appears `dups` times |
| `Deck.BuildDeck` | src/pages/game.tsx:39-45 | the deck built at page load and on reset is the shuffle of the unshuffled runs, less the drawn card when a joker is wanted, and is a deal as above |
| `Round.FlipIgnored` | src/pages/game.tsx:94-106 | a click on a matched position, with a full selection, or on a selected position changes nothing |
| `Round.FlipSelects` | src/pages/game.tsx:107-108 | a click that does not complete a set only appends the position to the selection |
| `Round.ComparisonIsSameFace` | src/pages/game.tsx:110-133 | the comparisons of the first (and second) card with the last card hold exactly when every card of the completed set has the same id |
| `Round.FlipMatch` | src/pages/game.tsx:118-140 | completing a set of equal ids appends the whole selection to the matched positions, empties the selection, raises only the current player's score and by exactly one, keeps the turn, and opens the end dialog when the matched count reaches `pairs * dups` |
| `Round.FlipMismatch` | src/pages/game.tsx:128-143 | completing a set of differing ids opens the mismatch dialog with the selection full and changes nothing else |
| `Round.FlipPreservesInv` | src/pages/game.tsx:94-146 | every click keeps the invariant: the selection never exceeds `numOfDuplicates` entries and holds no duplicate; matched and selected positions are distinct deck positions; a full selection is exactly an open mismatch dialog; matched count is `numOfDuplicates` times the score total |
| `Round.FlipMonotone` | src/pages/game.tsx:94-146 | a click never changes the current player or the deck, never lowers a score, and only appends to the matched positions |
| `Round.FlipIdempotent` | src/pages/game.tsx:94-108 | clicking the same card twice in a row has the effect of clicking it once |
| `Round.SumIncrement` | src/pages/game.tsx:125-127 | raising one score by one raises the score total by exactly one |
| `Round.CloseMismatchPassesTurn` | src/pages/game.tsx:149-154 | acknowledging the mismatch empties the selection, closes the dialog and moves the turn to the next player cyclically, keeping scores, matched positions and deck |
| `Round.MismatchTurn` | src/pages/game.tsx:128-154 | a mismatching click followed by the acknowledgement leaves scores and matched positions as before the click, with the next player on turn |
| `Round.ResetIsFresh` | src/pages/game.tsx:178-190 | after reset: the new deck, player 0, empty selection and matched list, one zero score per player, both dialogs closed, invariant holds |
| `Round.EndWhenAllPairsScored` | src/pages/game.tsx:48-52 | the matched count equals `pairs * numOfDuplicates` exactly when the players have scored `pairs` points in total |
| `Round.EndIffAllMatched` | src/pages/game.tsx:48-52 | without a joker the end dialog is open exactly when every deck position is matched |
| `Game.Duplicates` | src/pages/game.tsx:27 | hard mode gives sets of three, normal mode sets of two |
| `Game.Load` | src/pages/game.tsx:25-29 | the settings read from the stored record: its names, pair count and joker flag, and the set size of its difficulty |
| `Game.SubmittedSettingsArePlayable` | src/pages/config.tsx:52-57 | a record that passed the two-player gate with an offered pair count gives settings a round can be played with |
| `Game.GameBoard.constructor` | src/pages/game.tsx:21-57 | page load: settings from the record, a dealt deck, zero scores, nothing selected or matched, dialogs closed — the state `Reset` describes |
| `Game.GameBoard.CheckEnd` | src/pages/game.tsx:48-52 | opens the end dialog when the matched count is `pairs * numOfDuplicates`, otherwise changes nothing |
| `Game.GameBoard.FlipCard` | src/pages/game.tsx:94-146 | the new state is `Round.Flip` of the old one and the invariant is kept |
| `Game.GameBoard.CloseMismatchModal` | src/pages/game.tsx:149-154 | the new state is `Round.CloseMismatch` of the old one and the invariant is kept |
| `Game.GameBoard.ResetGame` | src/pages/game.tsx:178-190 | the new state is `Round.Reset` with a freshly dealt deck for the same settings, and the invariant is kept |
| `Game.GameBoard.EndMessage` | src/pages/game.tsx:228-236 | returns the winners and reports a draw exactly when all scores are equal |
| `Outcome.MaxScore` | src/pages/game.tsx:229 | the maximum is one of the scores and no score exceeds it |
| `Outcome.Winners` | src/pages/game.tsx:230 | the winners are the names at the winning positions, in roster order |
| `Outcome.WinnersAreTopScorers` | src/pages/game.tsx:229-230 | a player is a winner exactly when no player has a higher score |
| `Outcome.SomeoneWins` | src/pages/game.tsx:229-230 | with at least one player there is at least one winner |
| `Outcome.DrawIffAllTied` | src/pages/game.tsx:232-234 | the dialog reads "Draw..." exactly when all players have the same score |
| `Outcome.ThreePlayersTwoWinners` | src/pages/game.tsx:228-236 | scores [2, 2, 1]: players 0 and 1 win, no draw |
| `Outcome.TwoPlayersTied` | src/pages/game.tsx:232-233 | scores [3, 3]: a draw |
| `Outcome.ScoreText` | src/pages/game.tsx:157-168 | "???" while hidden; otherwise the decimal score followed by " point" for 0 and 1 and " points" from 2 on |
| `Outcome.DecimalRoundTrip` | src/pages/game.tsx:164-166 | the printed score reads back as the score |
| `Config.ResizeNames` | src/pages/config.tsx:21-29 | the new name list has exactly `value` entries, keeps the names below min(old length, value) and fills new slots with "" |
| `Config.ResizeIdempotent` | src/pages/config.tsx:21-29 | setting the same player count twice changes nothing the second time |
| `Config.ResizeGrowThenBack` | src/pages/config.tsx:21-29 | growing the list and returning to the old count restores the old names |
| `Config.ResizeShrinkThenBack` | src/pages/config.tsx:21-29 | shrinking and growing back keeps the first names and leaves blank slots after them |
| `Config.SetName` | src/pages/config.tsx:34-38 | slot `index` becomes the typed value, the length is kept and every other slot is unchanged |
| `Config.SetNameUndo` | src/pages/config.tsx:34-38 | typing the old name back restores the list |
| `Config.ConfigForm.constructor` | src/pages/config.tsx:7-13 | two players with empty names, ten pairs, no joker, normal mode |
| `Config.ConfigForm.NumPlayersChanged` | src/pages/config.tsx:17-30 | stores the count and resizes the names; one name slot per player is kept |
| `Config.ConfigForm.PlayerNameChanged` | src/pages/config.tsx:32-39 | updates one name and nothing else |
| `Config.ConfigForm.PairsChosen` | src/pages/config.tsx:94-107 | the pair count becomes the chosen option, so it always stays one of 10, 20, 30, 40, 50 |
| `Config.ConfigForm.ToggleJoker` | src/pages/config.tsx:87 | flips the joker flag |
| `Config.ConfigForm.ToggleHardMode` | src/pages/config.tsx:115 | flips the hard-mode flag |
| `Config.ConfigForm.StartGame` | src/pages/config.tsx:134 | opens the question about shuffling the player order |
| `Config.ConfigForm.Submit` | src/pages/config.tsx:41-58 | the stored record carries the page's joker flag, difficulty, pair count, names and the given order flag; the game opens exactly when there are at least two players |
| `Config.ConfigForm.AnswerShuffle` | src/pages/config.tsx:143-153 | closes the question and submits with the order flag true for "はい" and false for "いいえ" |

## Left out

- Rendering (JSX, images, CSS, `Head`, `Link`) and the whole landing page `src/pages/index.tsx`: presentation and navigation with no logic.
- `localStorage` and JSON: the stored record is the `GameData` value that `Submit` returns and `Load` reads. The game page also reads a `numPlayers` field that the configuration page never writes; it is unused, and the model leaves it out.
- `Math.random`: replaced by the injected indices `js` and `jokerIndex`; properties hold for every choice within the range the random source can produce.
- React effect ordering and batched state updates: `flipCard` is one atomic transition on the state before the click, and the end-of-round effect runs after the matched list changes. The transient opening of the end dialog while the settings are still empty on first render (and its immediate closing, game.tsx:54-57) is not modelled; the constructor starts with the dialog closed.
- `router.push` and `alert` in `handleSubmit`: only the returned `navigate` flag remains.
- `parseInt` returning NaN or a negative number: the new player count is a `nat`.
- The score-visibility toggle `changeScoreDisplay`: cosmetic; `ScoreText` takes the visibility as a parameter.
- A hard-mode "skip" action and shuffling of the player order: the code implements neither. The `isPlayerOrderRandom` state of the configuration page is never set; the flag travels only as the argument of `handleSubmit`.
- Blank-name checks: no check for blank names exists on the path that starts a game. "Start Game" is a plain button (config.tsx:134) and both answers to the shuffle question call `handleSubmit` directly (config.tsx:143-153), so the form's `required` attributes are never enforced and blank names reach the game page; the model likewise accepts any names.
- `Config.ConfigForm.Submit`: the form's own submit handler (config.tsx:69) calls `handleSubmit` without the optional order flag, which then stays undefined (config.tsx:41, 49); the model's flag is a plain `bool` and does not represent the undefined case. The game page never reads the flag.
- `Round.Flip`: defined only on states that satisfy `Inv` and for positions inside the deck, which is all the page can produce (clicks come from the rendered cards).
- `Outcome.Winners`: requires one score per player, which the page maintains (game.tsx:35, 187).
- `Round.EndIffAllMatched`: proved only without a joker. With a joker, the fact that the lone joker copies can never be matched needs an invariant on the faces of matched positions, which the model does not carry. The invariant only states that an open end dialog means at least `pairs * numOfDuplicates` matched positions.
- Scores are natural numbers: the page only ever increments them from zero.

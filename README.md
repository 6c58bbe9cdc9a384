# StarWarsMatch game view model in Dafny

StarWarsMatch is a memory game. A deck holds two cards for each of up to eight
Star Wars characters, shuffled and dealt face down. The player turns cards over two
at a time. Two cards with the same character are matched; they stay face up and
earn 2 points. Two different cards cost 1 point, but the score never drops below 0.
They stay face up until an auto-close timer turns them back, or until the
player's next valid tap. Every valid tap counts as one move.

All of this logic lives in the class `GameViewModel`. This project models that class and
the two records it owns, `Card` and `GameModel`, in four modules:

- `Model`: the records, as the datatypes `Card` and `GameModel`. It also holds the
  deck-level facts the rest of the project needs:
  - rearranging a deck keeps each character's number of cards;
  - rearranging a deck keeps identifiers distinct;
  - the matched count moves by one card's contribution.
- `Shuffling`: Swift's in-place `shuffle()` as Fisher–Yates over a sequence. The
  random numbers are a parameter, so every possible shuffle is covered.
- `GameRules`: the view model's state as a value. The state is the game record,
  the pending face-up positions and whether the timer is set. Each operation
  (`choose`, `checkForMatch`, `closeUnmatchedCards`, the timer's callback) is a
  function on that state. The lemmas state, case by case, what each step does,
  and that every step keeps the game invariant:
  - at most two pending positions, distinct and in bounds;
  - the pending cards are exactly the face-up unmatched cards;
  - matched cards stay face up;
  - a pending pair is always a mismatch;
  - the timer is set only while such a pair waits;
  - `0 <= score <= matched cards`;
  - `matched + pending <= moves`;
  - identifiers are distinct.
- `ViewModel`: the class `GameViewModel`, whose fields are updated in place as
  in the source. `Choose`, `CheckForMatch`, `CloseUnmatchedCards` and
  `TimerFires` are proved to perform exactly the matching `GameRules` step.
  `Choose` and `TimerFires`, the steps the view triggers, also keep the
  invariant. `CheckForMatch` and `CloseUnmatchedCards` run in the middle of
  `choose`, so they promise only their step. The constructor and `NewGame`
  establish a fresh deal, which meets the invariant. `createNewGame`'s dealing loop
  is proved to produce a deal: 2n fresh cards, face down, two of each of the
  first n characters and no others.

The Combine timer is modelled as the flag `timerArmed` plus the method
`TimerFires`, which stands for the timer's callback. Card UUIDs are modelled as natural numbers handed out by the
counter `nextId`.

## Model

| member | source | states |
|---|---|---|
| Model.CharactersOf | StarWarsMatch/Model/Card.swift:11-17 | the characters of a deck, with multiplicity; its size is the number of cards |
| Model.MatchedCount | StarWarsMatch/Model/Card.swift:16 | the number of matched cards, never more than the deck size |
| Model.PermutationKeepsCharacters | StarWarsMatch/ViewModel/GameViewModel.swift:117-118 | any rearrangement of a deck has the same characters with the same multiplicities |
| Model.PermutationKeepsDistinctIds | StarWarsMatch/ViewModel/GameViewModel.swift:117-118 | a rearrangement of a deck with distinct identifiers still has distinct identifiers |
| Model.MatchedCountUpdate | StarWarsMatch/ViewModel/GameViewModel.swift:72-73 | replacing one card changes the matched count by exactly that card's matched flag, old and new |
| Model.MatchedCountSameFlags | StarWarsMatch/ViewModel/GameViewModel.swift:92-95 | decks that agree on every matched flag have the same matched count |
| Shuffling.Shuffle | StarWarsMatch/ViewModel/GameViewModel.swift:118 | the shuffled deck has the same length and is a permutation of the input, whatever the random draws |
| GameRules.FirstIndex | StarWarsMatch/ViewModel/GameViewModel.swift:39 | Some(i) only for the first card with the identifier; None exactly when no card has it |
| GameRules.TurnFaceDown | StarWarsMatch/ViewModel/GameViewModel.swift:93 | the listed positions are face down, every other card is unchanged, the length is kept |
| GameRules.CloseUnmatchedCards | StarWarsMatch/ViewModel/GameViewModel.swift:92-95 | only the listed cards are turned face down, the list is emptied, score, moves and timer are unchanged |
| GameRules.ChooseIgnored | StarWarsMatch/ViewModel/GameViewModel.swift:34-41 | a missing, face-up or matched card changes nothing except cancelling the timer |
| GameRules.ChooseOpensFirstCard | StarWarsMatch/ViewModel/GameViewModel.swift:48-53 | with nothing pending, exactly the chosen card turns face up, it becomes the only pending card, moves +1, score kept |
| GameRules.ChooseForceCloses | StarWarsMatch/ViewModel/GameViewModel.swift:43-53 | with a pair pending, both pending cards go face down first, the chosen card turns face up and is the only pending one, every other card is unchanged, moves +1 |
| GameRules.ChooseCompletesMatch | StarWarsMatch/ViewModel/GameViewModel.swift:69-77 | a second card with the same character: both cards matched and face up, nothing else changes, score +2, list emptied, moves +1 |
| GameRules.ChooseCompletesMismatch | StarWarsMatch/ViewModel/GameViewModel.swift:78-88 | a second card with a different character: both stay face up and pending, score becomes max(0, score - 1), the timer is set |
| GameRules.ChooseCountsMoves | StarWarsMatch/ViewModel/GameViewModel.swift:53 | moves grows by 1 exactly when the chosen card is selectable, and is unchanged otherwise |
| GameRules.ChooseKeepsMatchedCards | StarWarsMatch/ViewModel/GameViewModel.swift:34-60 | choose never moves a card and never alters a matched card: matched flags are never reset |
| GameRules.ChooseKeepsInvariant | StarWarsMatch/ViewModel/GameViewModel.swift:44-77 | choose keeps the game invariant (at most two distinct pending cards, exactly the open ones; score between 0 and the matched count) |
| GameRules.TimerFiresCloses | StarWarsMatch/ViewModel/GameViewModel.swift:84-87 | a set timer turns exactly the pending cards face down, empties the list and disarms itself, keeping matched cards, score and moves; a cancelled timer changes nothing |
| GameRules.FreshStateIsValid | StarWarsMatch/ViewModel/GameViewModel.swift:98-102 | a fresh deal satisfies the game invariant |
| GameRules.MismatchThenMatchOnABAB | StarWarsMatch/ViewModel/GameViewModel.swift:34-95 | a short game on a fresh four-card deck dealt A, B, A, B: a mismatch at score 0 keeps score 0 and sets the timer; the timer restores the deck; then A, A match for score 2 after 4 moves |
| ViewModel.GameViewModel.Cards | StarWarsMatch/ViewModel/GameViewModel.swift:22 | the exposed cards have distinct identifiers and every matched card is face up |
| ViewModel.GameViewModel.Score | StarWarsMatch/ViewModel/GameViewModel.swift:23 | the exposed score is between 0 and the number of matched cards |
| ViewModel.GameViewModel.Moves | StarWarsMatch/ViewModel/GameViewModel.swift:24 | the exposed moves are at least the number of matched cards |
| ViewModel.GameViewModel.constructor | StarWarsMatch/ViewModel/GameViewModel.swift:27-29 | the new view model holds a valid fresh deal of n pairs |
| ViewModel.GameViewModel.Choose | StarWarsMatch/ViewModel/GameViewModel.swift:34-60 | the fields change exactly as GameRules.Choose says, and the invariant is kept |
| ViewModel.GameViewModel.CheckForMatch | StarWarsMatch/ViewModel/GameViewModel.swift:63-89 | the fields change exactly as GameRules.CheckForMatch says |
| ViewModel.GameViewModel.CloseUnmatchedCards | StarWarsMatch/ViewModel/GameViewModel.swift:92-95 | the loop turns the listed cards face down one by one: the fields change exactly as GameRules.CloseUnmatchedCards says |
| ViewModel.GameViewModel.TimerFires | StarWarsMatch/ViewModel/GameViewModel.swift:84-87 | the fields change exactly as GameRules.TimerFires says, and the invariant is kept |
| ViewModel.GameViewModel.NewGame | StarWarsMatch/ViewModel/GameViewModel.swift:98-102 | the timer is cancelled, score and moves are 0, nothing is pending, and the deck is a fresh deal of 8 pairs with new identifiers |
| ViewModel.GameViewModel.CreateNewGame | StarWarsMatch/ViewModel/GameViewModel.swift:105-121 | exactly 2n face-down, unmatched cards with distinct fresh identifiers, each of the first n characters on exactly two cards; score and moves 0 |
| ViewModel.DealPair | StarWarsMatch/ViewModel/GameViewModel.swift:111-115 | each loop round appends the pair of the next character and keeps every dealt character on exactly two cards |
| ViewModel.CharacterNotDealtYet | StarWarsMatch/ViewModel/GameViewModel.swift:107 | the eight characters are all different, so each round deals a new one |
| ViewModel.ShuffledDeal | StarWarsMatch/ViewModel/GameViewModel.swift:117-121 | the shuffled deck is still a deal |
| ViewModel.ChooseKeepsIdsBelow | StarWarsMatch/ViewModel/GameViewModel.swift:34-60 | choose keeps the invariant and introduces no identifier |
| ViewModel.NewGameCancelsPendingClose | StarWarsMatch/ViewModel/GameViewModel.swift:98-102 | a new game started while a mismatched pair waits returns the fresh deal of 8 pairs it dealt, and the old timer's time coming leaves the state equal to that deal |

## Left out

- The SwiftUI views (`View/ContentView.swift`, `ContentView.swift`) are not part of this model: they only render and forward taps.
- `@Published` and `ObservableObject` change notification are framework reactivity, and are not modelled.
- The Combine timer is reduced to the flag `timerArmed` and the method `TimerFires`, its callback. The run loop, the 0.5 s period and real time are not modelled. The timer is
  repeating, but its callback cancels it on the first firing, so one firing is all the model needs.
- `UUID()` is modelled by the counter `nextId`. Its only modelled property is
  that identifiers are distinct from those already handed out.
- Shuffling.Shuffle: the randomness and uniformity of `shuffle()` are not modelled; the random draws are a parameter and only the permutation is proved.
- `imageName` (Card.swift:14) is not modelled. Only the view uses it, and `Card(character:)` at GameViewModel.swift:113-114 does not supply it.
- Swift's `Int` is 64 bits wide; score and moves are modelled as unbounded integers, since 2^63 taps are out of reach.
- ViewModel.GameViewModel.constructor: the default argument of 8 pairs is not modelled; the caller passes the number. A number above 8 traps in Swift by indexing past `characters`; the model requires `numberOfPairsOfCards <= 8` in its place. A negative number also traps, because `0..<n` is then an invalid range (GameViewModel.swift:111); the parameter's type `nat` rules it out.
- An ignored tap still cancels the timer (GameViewModel.swift:36), so a mismatched pair then stays face up until the next valid tap. The model follows the code in this: `ChooseIgnored` states it.

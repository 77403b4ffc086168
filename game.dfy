/** The game page as a stateful object: the settings loaded from the
    configuration handoff, and the round state that card clicks, the mismatch
    dialog and the reset button update. Every method is proved to perform the
    corresponding transition of module Round. */
module Game {
  import Deck
  import Config
  import Outcome
  import opened Round

  /** Duplicates per set chosen by the difficulty (game.tsx:27). */
  function Duplicates(isHardMode: bool): (d: nat)
    ensures d == 2 || d == 3
    ensures isHardMode <==> d == 3
  {
    if isHardMode then 3 else 2
  }

  /** The settings the game page reads from the stored record. */
  function Load(data: Config.GameData): (c: Settings)
    ensures c.playerNames == data.playerNames && c.pairs == data.numPairs
    ensures c.includeJoker == data.includeJoker
    ensures c.numOfDuplicates == Duplicates(data.isHardMode)
  {
    Settings(data.playerNames, data.numPairs, data.includeJoker, Duplicates(data.isHardMode))
  }

  /** A record that passed the configuration page's gate (at least two
      players, one name per player, an offered pair count) starts a playable round. */
  lemma SubmittedSettingsArePlayable(data: Config.GameData, numPlayers: int)
    requires numPlayers >= 2 && |data.playerNames| == numPlayers
    requires data.numPairs in Config.NumPairsOptions
    ensures ValidSettings(Load(data))
  {
  }

  class GameBoard {
    const playerNames: seq<string>
    const pairs: nat
    const includeJoker: bool
    const numOfDuplicates: nat
    var cardIds: seq<int>
    var flippedCards: seq<nat>
    var matchedCards: seq<nat>
    var currentPlayerIndex: nat
    var playerScores: seq<nat>
    var isMismatchModalOpen: bool
    var isEndModalOpen: bool

    function Rules(): (c: Settings)
    {
      Settings(playerNames, pairs, includeJoker, numOfDuplicates)
    }

    function State(): (r: RoundState)
      reads this
    {
      RoundState(cardIds, flippedCards, matchedCards, currentPlayerIndex, playerScores,
                 isMismatchModalOpen, isEndModalOpen)
    }

    ghost predicate Valid()
      reads this
    {
      ValidSettings(Rules()) && Inv(Rules(), State())
    }

    /** Page load: read the record, deal the deck, zero the scores. */
    constructor (data: Config.GameData, js: seq<nat>, jokerIndex: nat)
      requires ValidSettings(Load(data))
      requires Deck.ValidChoices(js, Deck.FaceCount(data.numPairs, data.includeJoker) * Duplicates(data.isHardMode))
      requires data.includeJoker ==> jokerIndex < (data.numPairs + 1) * Duplicates(data.isHardMode)
      ensures Valid() && Rules() == Load(data)
      ensures State() == Reset(Rules(), cardIds)
      ensures Deck.IsDeal(cardIds, pairs, numOfDuplicates, includeJoker)
    {
      playerNames := data.playerNames;
      pairs := data.numPairs;
      includeJoker := data.includeJoker;
      numOfDuplicates := Duplicates(data.isHardMode);
      var deck := Deck.BuildDeck(data.numPairs, Duplicates(data.isHardMode), data.includeJoker, js, jokerIndex);
      cardIds := deck;
      flippedCards := [];
      matchedCards := [];
      currentPlayerIndex := 0;
      playerScores := seq(|data.playerNames|, _ => 0);
      isMismatchModalOpen := false;
      isEndModalOpen := false;
      new;
      CheckEnd();
      ResetIsFresh(Rules(), cardIds);
    }

    /** The effect that opens the end dialog once every set is matched. */
    method CheckEnd()
      modifies this`isEndModalOpen
      ensures State() == EndCheck(Rules(), old(State()))
    {
      if |matchedCards| == pairs * numOfDuplicates {
        isEndModalOpen := true;
      }
    }

    /** flipCard(index): the click on the card at deck position `index`. */
    method FlipCard(index: nat)
      requires Valid() && index < |cardIds|
      modifies this
      ensures Valid()
      ensures State() == Flip(Rules(), old(State()), index)
    {
      ghost var before := State();
      if index in matchedCards {
        return;
      }
      if |flippedCards| == numOfDuplicates {
        return;
      }
      if index in flippedCards {
        return;
      }
      // the checks below read the selection as it was before this click
      var selected := flippedCards;
      flippedCards := flippedCards + [index];
      if |selected| == numOfDuplicates - 1 {
        var firstCardIndex := selected[0];
        var firstCardId := cardIds[firstCardIndex];
        var currentCardId := cardIds[index];
        if numOfDuplicates == 2 {
          if firstCardId == currentCardId {
            matchedCards := matchedCards + [firstCardIndex, index];
            flippedCards := [];
            playerScores := playerScores[currentPlayerIndex := playerScores[currentPlayerIndex] + 1];
            CheckEnd();
          } else {
            isMismatchModalOpen := true;
          }
        } else {
          var secondCardIndex := selected[1];
          var secondCardId := cardIds[secondCardIndex];
          if firstCardId == currentCardId && secondCardId == currentCardId {
            matchedCards := matchedCards + [firstCardIndex, secondCardIndex, index];
            flippedCards := [];
            playerScores := playerScores[currentPlayerIndex := playerScores[currentPlayerIndex] + 1];
            CheckEnd();
          } else {
            isMismatchModalOpen := true;
          }
        }
      }
      FlipPreservesInv(Rules(), before, index);
    }

    /** closeMismatchModal: the button of the mismatch dialog. */
    method CloseMismatchModal()
      requires Valid()
      modifies this
      ensures Valid()
      ensures State() == CloseMismatch(Rules(), old(State()))
    {
      ghost var before := State();
      flippedCards := [];
      isMismatchModalOpen := false;
      var nextPlayerIndex := (currentPlayerIndex + 1) % |playerNames|;
      currentPlayerIndex := nextPlayerIndex;
      CloseMismatchPassesTurn(Rules(), before);
    }

    /** resetGame: a new deal with the same settings and a fresh round. */
    method ResetGame(js: seq<nat>, jokerIndex: nat)
      requires Valid()
      requires Deck.ValidChoices(js, Deck.FaceCount(pairs, includeJoker) * numOfDuplicates)
      requires includeJoker ==> jokerIndex < (pairs + 1) * numOfDuplicates
      modifies this
      ensures Valid()
      ensures State() == Reset(Rules(), cardIds)
      ensures Deck.IsDeal(cardIds, pairs, numOfDuplicates, includeJoker)
    {
      cardIds := Deck.BuildDeck(pairs, numOfDuplicates, includeJoker, js, jokerIndex);
      currentPlayerIndex := 0;
      flippedCards := [];
      matchedCards := [];
      playerScores := seq(|playerNames|, _ => 0);
      isMismatchModalOpen := false;
      isEndModalOpen := false;
      CheckEnd();
      ResetIsFresh(Rules(), cardIds);
    }

    /** The names shown in the end dialog, and whether it reads "Draw...". */
    method EndMessage() returns (winners: seq<string>, draw: bool)
      requires Valid()
      ensures winners == Outcome.Winners(playerNames, playerScores)
      ensures draw <==> forall i, j :: 0 <= i < |playerScores| && 0 <= j < |playerScores| ==> playerScores[i] == playerScores[j]
    {
      winners := Outcome.Winners(playerNames, playerScores);
      draw := |winners| == |playerNames|;
      Outcome.DrawIffAllTied(playerNames, playerScores);
    }
  }
}

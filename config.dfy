/** The configuration page: the player-name list that follows the player
    count, single-name edits, the pair-count choice and the gate that lets a
    game start only with two or more players. */
module Config {

  /** The pair counts the page offers. */
  const NumPairsOptions: seq<nat> := [10, 20, 30, 40, 50]

  /** The record handed to the game page. */
  datatype GameData = GameData(
    includeJoker: bool,
    isHardMode: bool,
    numPairs: nat,
    playerNames: seq<string>,
    isPlayerOrderRandom: bool)

  /** The name list after the player count changes to `value`: padded with
      empty names when it grows, cut to its first `value` names otherwise. */
  function ResizeNames(prevNames: seq<string>, value: nat): (newNames: seq<string>)
    ensures |newNames| == value
    ensures forall i :: 0 <= i < |prevNames| && i < value ==> newNames[i] == prevNames[i]
    ensures forall i :: |prevNames| <= i < value ==> newNames[i] == ""
  {
    if value > |prevNames| then prevNames + seq(value - |prevNames|, _ => "")
    else prevNames[..value]
  }

  /** The name list after player `index` typed `value`. */
  function SetName(prevNames: seq<string>, index: nat, value: string): (newNames: seq<string>)
    requires index < |prevNames|
    ensures |newNames| == |prevNames|
    ensures newNames[index] == value
    ensures forall i :: 0 <= i < |prevNames| && i != index ==> newNames[i] == prevNames[i]
  {
    prevNames[index := value]
  }

  /** Changing the count twice to the same value changes nothing the second time. */
  lemma ResizeIdempotent(names: seq<string>, value: nat)
    ensures ResizeNames(ResizeNames(names, value), value) == ResizeNames(names, value)
  {
  }

  /** Growing the list and going back to the old count restores the names typed so far. */
  lemma ResizeGrowThenBack(names: seq<string>, value: nat)
    requires value >= |names|
    ensures ResizeNames(ResizeNames(names, value), |names|) == names
  {
  }

  /** Shrinking the list and growing it back leaves the kept names and blank slots. */
  lemma ResizeShrinkThenBack(names: seq<string>, value: nat)
    requires value <= |names|
    ensures ResizeNames(ResizeNames(names, value), |names|)
            == names[..value] + seq(|names| - value, _ => "")
  {
  }

  /** Typing the old name back undoes an edit. */
  lemma SetNameUndo(names: seq<string>, index: nat, value: string)
    requires index < |names|
    ensures SetName(SetName(names, index, value), index, names[index]) == names
  {
  }

  /** The component state of the configuration page. */
  class ConfigForm {
    var numPlayers: int
    var includeJoker: bool
    var numPairs: nat
    var playerNames: seq<string>
    var isHardMode: bool
    var isPlayerShuffleModalOpen: bool

    /** The name list always has one slot per player, and the pair count is
        always one of the offered options. */
    ghost predicate Valid()
      reads this
    {
      numPlayers >= 0 && |playerNames| == numPlayers && numPairs in NumPairsOptions
    }

    /** Two players with empty names, ten pairs, no joker, normal mode. */
    constructor ()
      ensures Valid()
      ensures numPlayers == 2 && playerNames == ["", ""] && numPairs == 10
      ensures !includeJoker && !isHardMode && !isPlayerShuffleModalOpen
    {
      numPlayers := 2;
      includeJoker := false;
      numPairs := 10;
      playerNames := ["", ""];
      isHardMode := false;
      isPlayerShuffleModalOpen := false;
    }

    /** handleNumPlayersChange with the parsed count `value`. */
    method NumPlayersChanged(value: nat)
      requires Valid()
      modifies this
      ensures Valid()
      ensures numPlayers == value && playerNames == ResizeNames(old(playerNames), value)
      ensures numPairs == old(numPairs) && includeJoker == old(includeJoker)
      ensures isHardMode == old(isHardMode) && isPlayerShuffleModalOpen == old(isPlayerShuffleModalOpen)
    {
      numPlayers := value;
      playerNames := ResizeNames(playerNames, value);
    }

    /** handlePlayerNameChange for the input of player `index`. */
    method PlayerNameChanged(index: nat, value: string)
      requires Valid() && index < |playerNames|
      modifies this
      ensures Valid()
      ensures playerNames == SetName(old(playerNames), index, value)
      ensures numPlayers == old(numPlayers) && numPairs == old(numPairs) && includeJoker == old(includeJoker)
      ensures isHardMode == old(isHardMode) && isPlayerShuffleModalOpen == old(isPlayerShuffleModalOpen)
    {
      playerNames := SetName(playerNames, index, value);
    }

    /** The radio button for `npo` was chosen. */
    method PairsChosen(npo: nat)
      requires Valid() && npo in NumPairsOptions
      modifies this`numPairs
      ensures Valid() && numPairs == npo
    {
      numPairs := npo;
    }

    method ToggleJoker()
      modifies this`includeJoker
      ensures includeJoker == !old(includeJoker)
    {
      includeJoker := !includeJoker;
    }

    method ToggleHardMode()
      modifies this`isHardMode
      ensures isHardMode == !old(isHardMode)
    {
      isHardMode := !isHardMode;
    }

    /** "Start Game" only asks whether to shuffle the player order. */
    method StartGame()
      modifies this`isPlayerShuffleModalOpen
      ensures isPlayerShuffleModalOpen
    {
      isPlayerShuffleModalOpen := true;
    }

    /** handleSubmit(random): the record is stored in every case; the game page
        is opened only when there are at least two players. */
    method Submit(random: bool) returns (stored: GameData, navigate: bool)
      ensures stored.playerNames == playerNames && stored.numPairs == numPairs
      ensures stored.includeJoker == includeJoker && stored.isHardMode == isHardMode
      ensures stored.isPlayerOrderRandom == random
      ensures navigate <==> numPlayers >= 2
    {
      stored := GameData(includeJoker, isHardMode, numPairs, playerNames, random);
      if numPlayers >= 2 {
        navigate := true;
      } else {
        navigate := false;
      }
    }

    /** The answer to the shuffle question: "はい" submits with the random-order
        flag set, "いいえ" with it cleared. */
    method AnswerShuffle(yes: bool) returns (stored: GameData, navigate: bool)
      requires Valid()
      modifies this`isPlayerShuffleModalOpen
      ensures !isPlayerShuffleModalOpen
      ensures stored == GameData(includeJoker, isHardMode, numPairs, playerNames, yes)
      ensures navigate <==> numPlayers >= 2
    {
      isPlayerShuffleModalOpen := false;
      stored, navigate := Submit(yes);
    }
  }
}

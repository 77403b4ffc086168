/** The round engine of the game page as pure transitions on a value: card
    selection (flipCard), mismatch acknowledgement (closeMismatchModal), the
    end-of-round check and reset (resetGame). The class Game.GameBoard updates
    its fields step by step and is proved to follow these functions. */
module Round {
  import Deck

  /** The settings a round is played with, loaded once from the configuration
      handoff. `numOfDuplicates` is the number of equal cards that form a set. */
  datatype Settings = Settings(
    playerNames: seq<string>,
    pairs: nat,
    includeJoker: bool,
    numOfDuplicates: nat)

  /** Settings a round can start with: at least two players (the configuration
      page refuses fewer), a positive number of pairs, and sets of 2 (normal) or
      3 (hard mode) cards. */
  predicate ValidSettings(c: Settings)
  {
    |c.playerNames| >= 2 && c.pairs >= 1 && (c.numOfDuplicates == 2 || c.numOfDuplicates == 3)
  }

  /** The state the page keeps for one round. `flippedCards` is the selection
      buffer (face-up, unresolved positions), `matchedCards` the resolved ones. */
  datatype RoundState = RoundState(
    cardIds: seq<int>,
    flippedCards: seq<nat>,
    matchedCards: seq<nat>,
    currentPlayerIndex: nat,
    playerScores: seq<nat>,
    isMismatchModalOpen: bool,
    isEndModalOpen: bool)

  predicate NoDup(s: seq<nat>)
  {
    forall i, j :: 0 <= i < j < |s| ==> s[i] != s[j]
  }

  predicate InDeck(s: seq<nat>, n: nat)
  {
    forall i :: 0 <= i < |s| ==> s[i] < n
  }

  function Sum(s: seq<nat>): (total: nat)
  {
    if |s| == 0 then 0 else s[0] + Sum(s[1..])
  }

  /** Every position in `ps` shows the same face value. */
  predicate SameFace(cardIds: seq<int>, ps: seq<nat>)
    requires InDeck(ps, |cardIds|)
  {
    forall a, b :: 0 <= a < |ps| && 0 <= b < |ps| ==> cardIds[ps[a]] == cardIds[ps[b]]
  }

  /** What holds in every reachable state of a round. */
  predicate Inv(c: Settings, r: RoundState)
  {
    var dups := c.numOfDuplicates;
    && |r.playerScores| == |c.playerNames|
    && r.currentPlayerIndex < |c.playerNames|
    // the selection never exceeds one set and never holds a position twice
    && |r.flippedCards| <= dups
    && NoDup(r.flippedCards)
    && NoDup(r.matchedCards)
    && InDeck(r.flippedCards, |r.cardIds|)
    && InDeck(r.matchedCards, |r.cardIds|)
    && (forall p :: p in r.flippedCards ==> p !in r.matchedCards)
    // a full selection is exactly a pending mismatch
    && (r.isMismatchModalOpen <==> |r.flippedCards| == dups)
    // every point scored resolved one set
    && |r.matchedCards| == dups * Sum(r.playerScores)
    && (|r.matchedCards| == c.pairs * dups ==> r.isEndModalOpen)
    && (r.isEndModalOpen ==> |r.matchedCards| >= c.pairs * dups)
  }

  /** The effect that opens the end dialog once `pairs * numOfDuplicates`
      positions are matched (game.tsx:48-52); it never closes it. */
  function EndCheck(c: Settings, r: RoundState): (r': RoundState)
  {
    if |r.matchedCards| == c.pairs * c.numOfDuplicates then r.(isEndModalOpen := true) else r
  }

  /** A completed set whose ids agree: the positions join the matched ones, the
      selection empties and the current player scores one point. */
  function Matched(c: Settings, r: RoundState, group: seq<nat>): (r': RoundState)
    requires r.currentPlayerIndex < |r.playerScores|
  {
    var i := r.currentPlayerIndex;
    EndCheck(c, r.(
      matchedCards := r.matchedCards + group,
      flippedCards := [],
      playerScores := r.playerScores[i := r.playerScores[i] + 1]))
  }

  /** flipCard(index), one atomic step on the state before the call. */
  function Flip(c: Settings, r: RoundState, index: nat): (r': RoundState)
    requires ValidSettings(c) && Inv(c, r) && index < |r.cardIds|
  {
    var dups := c.numOfDuplicates;
    if index in r.matchedCards || |r.flippedCards| == dups || index in r.flippedCards then r
    else if |r.flippedCards| == dups - 1 then
      var firstCardIndex := r.flippedCards[0];
      var currentCardId := r.cardIds[index];
      var mismatch := r.(flippedCards := r.flippedCards + [index], isMismatchModalOpen := true);
      if dups == 2 then
        if r.cardIds[firstCardIndex] == currentCardId then Matched(c, r, [firstCardIndex, index])
        else mismatch
      else
        // numOfDuplicates is 3 (hard mode)
        var secondCardIndex := r.flippedCards[1];
        if r.cardIds[firstCardIndex] == currentCardId && r.cardIds[secondCardIndex] == currentCardId
        then Matched(c, r, [firstCardIndex, secondCardIndex, index])
        else mismatch
    else r.(flippedCards := r.flippedCards + [index])
  }

  /** closeMismatchModal: turn the cards back and pass the turn on. */
  function CloseMismatch(c: Settings, r: RoundState): (r': RoundState)
    requires |c.playerNames| > 0
  {
    r.(flippedCards := [],
       isMismatchModalOpen := false,
       currentPlayerIndex := (r.currentPlayerIndex + 1) % |c.playerNames|)
  }

  /** The state right after resetGame (and after the page first loads) with a
      freshly dealt deck. */
  function Reset(c: Settings, deck: seq<int>): (r': RoundState)
  {
    EndCheck(c, RoundState(deck, [], [], 0, seq(|c.playerNames|, _ => 0), false, false))
  }

  // ---------------------------------------------------------------- lemmas

  lemma {:induction false} SumIncrement(s: seq<nat>, i: nat)
    requires i < |s|
    ensures Sum(s[i := s[i] + 1]) == Sum(s) + 1
  {
    if i > 0 {
      SumIncrement(s[1..], i - 1);
      assert s[i := s[i] + 1][1..] == s[1..][i - 1 := s[i] + 1];
    }
  }

  lemma {:induction false} SumZeros(n: nat)
    ensures Sum(seq(n, _ => 0)) == 0
  {
    if n > 0 {
      SumZeros(n - 1);
      assert seq(n, _ => 0)[1..] == seq(n - 1, _ => 0);
    }
  }

  /** In the match branch the appended positions are the whole selection. */
  lemma CompletedSet(c: Settings, r: RoundState, index: nat)
    requires ValidSettings(c) && Inv(c, r)
    requires |r.flippedCards| == c.numOfDuplicates - 1
    ensures c.numOfDuplicates == 2 ==> [r.flippedCards[0], index] == r.flippedCards + [index]
    ensures c.numOfDuplicates == 3 ==> [r.flippedCards[0], r.flippedCards[1], index] == r.flippedCards + [index]
  {
  }

  /** The source's pairwise comparisons against the last card decide exactly
      whether the whole completed set shows one face value. */
  lemma {:induction false} ComparisonIsSameFace(c: Settings, r: RoundState, index: nat)
    requires ValidSettings(c) && Inv(c, r) && index < |r.cardIds|
    requires |r.flippedCards| == c.numOfDuplicates - 1
    ensures InDeck(r.flippedCards + [index], |r.cardIds|)
    ensures SameFace(r.cardIds, r.flippedCards + [index])
            <==> (r.cardIds[r.flippedCards[0]] == r.cardIds[index] &&
                  (c.numOfDuplicates == 3 ==> r.cardIds[r.flippedCards[1]] == r.cardIds[index]))
  {
    var group := r.flippedCards + [index];
    var last := |group| - 1;
    if r.cardIds[r.flippedCards[0]] == r.cardIds[index] &&
       (c.numOfDuplicates == 3 ==> r.cardIds[r.flippedCards[1]] == r.cardIds[index]) {
      forall a | 0 <= a < |group| ensures r.cardIds[group[a]] == r.cardIds[index] {
        if a == last {
        } else if a == 0 {
        } else {
          assert a == 1 && c.numOfDuplicates == 3;
        }
      }
    } else {
      assert r.cardIds[group[0]] != r.cardIds[group[last]] || r.cardIds[group[1]] != r.cardIds[group[last]];
    }
  }

  /** flipCard ignores a matched position, a full selection and a position
      already selected. */
  lemma FlipIgnored(c: Settings, r: RoundState, index: nat)
    requires ValidSettings(c) && Inv(c, r) && index < |r.cardIds|
    requires index in r.matchedCards || |r.flippedCards| == c.numOfDuplicates || index in r.flippedCards
    ensures Flip(c, r, index) == r
  {
  }

  /** A selection that does not complete a set is only recorded. */
  lemma FlipSelects(c: Settings, r: RoundState, index: nat)
    requires ValidSettings(c) && Inv(c, r) && index < |r.cardIds|
    requires index !in r.matchedCards && index !in r.flippedCards
    requires |r.flippedCards| < c.numOfDuplicates - 1
    ensures Flip(c, r, index) == r.(flippedCards := r.flippedCards + [index])
  {
  }

  /** Completing a set of one face value: all selected positions are matched,
      the selection empties, only the current player's score grows, by one, and
      the turn stays with that player. The end dialog opens when the matched
      count reaches pairs * numOfDuplicates. */
  lemma FlipMatch(c: Settings, r: RoundState, index: nat)
    requires ValidSettings(c) && Inv(c, r) && index < |r.cardIds|
    requires index !in r.matchedCards && index !in r.flippedCards
    requires |r.flippedCards| == c.numOfDuplicates - 1
    requires InDeck(r.flippedCards + [index], |r.cardIds|)
    requires SameFace(r.cardIds, r.flippedCards + [index])
    ensures var r' := Flip(c, r, index);
      && r'.matchedCards == r.matchedCards + r.flippedCards + [index]
      && r'.flippedCards == []
      && r'.playerScores == r.playerScores[r.currentPlayerIndex := r.playerScores[r.currentPlayerIndex] + 1]
      && r'.currentPlayerIndex == r.currentPlayerIndex
      && r'.cardIds == r.cardIds
      && !r'.isMismatchModalOpen
      && r'.isEndModalOpen == (r.isEndModalOpen || |r'.matchedCards| == c.pairs * c.numOfDuplicates)
  {
    ComparisonIsSameFace(c, r, index);
    CompletedSet(c, r, index);
  }

  /** Completing a set of differing face values: the mismatch dialog opens and
      the selection stays full; scores, matched positions and turn are kept. */
  lemma FlipMismatch(c: Settings, r: RoundState, index: nat)
    requires ValidSettings(c) && Inv(c, r) && index < |r.cardIds|
    requires index !in r.matchedCards && index !in r.flippedCards
    requires |r.flippedCards| == c.numOfDuplicates - 1
    requires InDeck(r.flippedCards + [index], |r.cardIds|)
    requires !SameFace(r.cardIds, r.flippedCards + [index])
    ensures Flip(c, r, index)
            == r.(flippedCards := r.flippedCards + [index], isMismatchModalOpen := true)
    ensures |Flip(c, r, index).flippedCards| == c.numOfDuplicates
  {
  }

  lemma NoDupAppend(a: seq<nat>, b: seq<nat>)
    requires NoDup(a) && NoDup(b)
    requires forall p :: p in b ==> p !in a
    ensures NoDup(a + b)
  {
    forall i, j | 0 <= i < j < |a + b| ensures (a + b)[i] != (a + b)[j] {
      if i >= |a| {
        assert (a + b)[i] == b[i - |a|] && (a + b)[j] == b[j - |a|];
      } else if j >= |a| {
        assert (a + b)[j] == b[j - |a|] && b[j - |a|] in b;
      }
    }
  }

  /** Every reachable state stays within the invariant under flipCard. */
  lemma FlipPreservesInv(c: Settings, r: RoundState, index: nat)
    requires ValidSettings(c) && Inv(c, r) && index < |r.cardIds|
    ensures Inv(c, Flip(c, r, index))
  {
    var dups := c.numOfDuplicates;
    if index in r.matchedCards || |r.flippedCards| == dups || index in r.flippedCards {
    } else {
      var group := r.flippedCards + [index];
      NoDupAppend(r.flippedCards, [index]);
      if |r.flippedCards| == dups - 1 {
        ComparisonIsSameFace(c, r, index);
        if SameFace(r.cardIds, group) {
          FlipMatch(c, r, index);
          var r' := Flip(c, r, index);
          NoDupAppend(r.matchedCards, group);
          assert r'.matchedCards == r.matchedCards + group;
          SumIncrement(r.playerScores, r.currentPlayerIndex);
          assert |r'.matchedCards| == |r.matchedCards| + dups;
          assert dups * (Sum(r.playerScores) + 1) == dups * Sum(r.playerScores) + dups;
        } else {
          FlipMismatch(c, r, index);
        }
      }
    }
  }

  /** Flipping never changes whose turn it is, never lowers a score, keeps the
      deck and only ever appends to the matched positions. */
  lemma FlipMonotone(c: Settings, r: RoundState, index: nat)
    requires ValidSettings(c) && Inv(c, r) && index < |r.cardIds|
    ensures var r' := Flip(c, r, index);
      && r'.currentPlayerIndex == r.currentPlayerIndex
      && r'.cardIds == r.cardIds
      && |r'.playerScores| == |r.playerScores|
      && (forall i :: 0 <= i < |r.playerScores| ==> r.playerScores[i] <= r'.playerScores[i])
      && r.matchedCards <= r'.matchedCards
      && (r.isEndModalOpen ==> r'.isEndModalOpen)
  {
  }

  /** Selecting the same position twice in a row has the effect of selecting it once. */
  lemma FlipIdempotent(c: Settings, r: RoundState, index: nat)
    requires ValidSettings(c) && Inv(c, r) && index < |r.cardIds|
    ensures Inv(c, Flip(c, r, index))
    ensures Flip(c, Flip(c, r, index), index) == Flip(c, r, index)
  {
    FlipPreservesInv(c, r, index);
    var dups := c.numOfDuplicates;
    if !(index in r.matchedCards || |r.flippedCards| == dups || index in r.flippedCards) {
      var r' := Flip(c, r, index);
      if |r.flippedCards| == dups - 1 {
        ComparisonIsSameFace(c, r, index);
        if SameFace(r.cardIds, r.flippedCards + [index]) {
          FlipMatch(c, r, index);
          assert index in r'.matchedCards by {
            assert r'.matchedCards[|r'.matchedCards| - 1] == index;
          }
        } else {
          FlipMismatch(c, r, index);
          assert index in r'.flippedCards by { assert r'.flippedCards[|r.flippedCards|] == index; }
        }
      } else {
        assert index in r'.flippedCards by { assert r'.flippedCards[|r.flippedCards|] == index; }
      }
    }
  }

  /** Acknowledging a mismatch empties the selection, closes the dialog and
      passes the turn to the next player in cyclic order; scores, matched
      positions and the deck are untouched. */
  lemma CloseMismatchPassesTurn(c: Settings, r: RoundState)
    requires ValidSettings(c) && Inv(c, r)
    ensures var r' := CloseMismatch(c, r);
      && Inv(c, r')
      && r'.flippedCards == [] && !r'.isMismatchModalOpen
      && r'.currentPlayerIndex == (if r.currentPlayerIndex + 1 == |c.playerNames| then 0 else r.currentPlayerIndex + 1)
      && r'.playerScores == r.playerScores && r'.matchedCards == r.matchedCards && r'.cardIds == r.cardIds
  {
    var n := |c.playerNames|;
    var i := r.currentPlayerIndex;
    if i + 1 < n {
      Deck.ModUnique(i + 1, n, 0, i + 1);
    } else {
      Deck.ModUnique(i + 1, n, 1, 0);
    }
  }

  /** A mismatching turn, once acknowledged, leaves the round as it was before
      the last card was flipped except that the next player is on turn. */
  lemma MismatchTurn(c: Settings, r: RoundState, index: nat)
    requires ValidSettings(c) && Inv(c, r) && index < |r.cardIds|
    requires Flip(c, r, index).isMismatchModalOpen && !r.isMismatchModalOpen
    ensures var r' := CloseMismatch(c, Flip(c, r, index));
      && r'.flippedCards == [] && !r'.isMismatchModalOpen
      && r'.matchedCards == r.matchedCards && r'.playerScores == r.playerScores
      && r'.currentPlayerIndex == (r.currentPlayerIndex + 1) % |c.playerNames|
  {
  }

  /** resetGame starts a fresh round on the new deck: first player, nothing
      selected or matched, every player at zero and both dialogs closed. */
  lemma ResetIsFresh(c: Settings, deck: seq<int>)
    requires ValidSettings(c)
    ensures var r := Reset(c, deck);
      && Inv(c, r)
      && r.cardIds == deck
      && r.currentPlayerIndex == 0 && r.flippedCards == [] && r.matchedCards == []
      && |r.playerScores| == |c.playerNames|
      && (forall i :: 0 <= i < |r.playerScores| ==> r.playerScores[i] == 0)
      && !r.isMismatchModalOpen && !r.isEndModalOpen
  {
    SumZeros(|c.playerNames|);
    assert c.pairs * c.numOfDuplicates >= 1 * 2;
  }

  /** The matched count reaches pairs * numOfDuplicates exactly when the
      players have scored `pairs` points between them. */
  lemma EndWhenAllPairsScored(c: Settings, r: RoundState)
    requires ValidSettings(c) && Inv(c, r)
    ensures |r.matchedCards| == c.pairs * c.numOfDuplicates <==> Sum(r.playerScores) == c.pairs
  {
  }

  /** The positions 0 .. n-1. */
  function Positions(n: nat): (r: set<nat>)
    ensures forall p: int :: p in r <==> 0 <= p < n
    ensures |r| == n
  {
    if n == 0 then {} else Positions(n - 1) + {n - 1}
  }

  /** The set of values a sequence holds. */
  function Elems(s: seq<nat>): (r: set<nat>)
    ensures forall p :: p in r <==> p in s
  {
    if |s| == 0 then {} else Elems(s[..|s| - 1]) + {s[|s| - 1]}
  }

  lemma {:induction false} DistinctCount(s: seq<nat>)
    requires NoDup(s)
    ensures |Elems(s)| == |s|
  {
    if |s| > 0 {
      var front, last := s[..|s| - 1], s[|s| - 1];
      DistinctCount(front);
      forall i | 0 <= i < |front| ensures front[i] != last {
        assert s[i] != s[|s| - 1];
      }
      assert last !in Elems(front);
    }
  }

  lemma {:induction false} SubsetSize(a: set<nat>, b: set<nat>)
    requires a <= b
    ensures |a| <= |b|
    decreases |a|
  {
    if a != {} {
      var x :| x in a;
      SubsetSize(a - {x}, b - {x});
    }
  }

  /** Distinct positions of a deck of n cards number at most n. */
  lemma DistinctPositionsBound(s: seq<nat>, n: nat)
    requires NoDup(s) && InDeck(s, n)
    ensures |s| <= n
  {
    DistinctCount(s);
    SubsetSize(Elems(s), Positions(n));
  }

  /** Without a joker the deck has pairs * numOfDuplicates cards, and the end
      dialog is open exactly when every card of the deck is matched. */
  lemma EndIffAllMatched(c: Settings, r: RoundState)
    requires ValidSettings(c) && Inv(c, r)
    requires |r.cardIds| == c.pairs * c.numOfDuplicates
    ensures r.isEndModalOpen <==> |r.matchedCards| == |r.cardIds|
  {
    DistinctPositionsBound(r.matchedCards, |r.cardIds|);
  }
}

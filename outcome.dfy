/** Outcome of a finished round (the end-of-round dialog): the top score, the
    players holding it, whether the round is a draw, and the score label shown
    next to each player. */
module Outcome {

  /** Math.max over the scores. */
  function MaxScore(scores: seq<int>): (m: int)
    requires |scores| > 0
    ensures m in scores
    ensures forall i :: 0 <= i < |scores| ==> scores[i] <= m
  {
    if |scores| == 1 then scores[0]
    else
      var rest := MaxScore(scores[1..]);
      if scores[0] >= rest then scores[0] else rest
  }

  /** The positions k in [from, |scores|) whose score is m, in ascending order:
      the indices a filter over the roster keeps. */
  function Holders(scores: seq<int>, m: int, from: nat): (r: seq<nat>)
    requires from <= |scores|
    ensures forall k :: k in r <==> from <= k < |scores| && scores[k] == m
    ensures forall a, b :: 0 <= a < b < |r| ==> r[a] < r[b]
    ensures |r| == |scores| - from <==> forall k :: from <= k < |scores| ==> scores[k] == m
    decreases |scores| - from
  {
    if from == |scores| then []
    else
      var tail := Holders(scores, m, from + 1);
      assert |tail| <= |scores| - (from + 1) by { HoldersLength(scores, m, from + 1, tail); }
      assert forall a :: 0 <= a < |tail| ==> from < tail[a] by {
        forall a | 0 <= a < |tail| ensures from < tail[a] { assert tail[a] in tail; }
      }
      if scores[from] == m then [from] + tail else tail
  }

  /** A strictly ascending list of positions within [from, n) is at most n - from long. */
  lemma {:induction false} HoldersLength(scores: seq<int>, m: int, from: nat, r: seq<nat>)
    requires from <= |scores|
    requires forall k :: k in r ==> from <= k < |scores|
    requires forall a, b :: 0 <= a < b < |r| ==> r[a] < r[b]
    ensures |r| <= |scores| - from
    decreases |scores| - from
  {
    if |r| > 0 {
      assert r[0] in r;
      forall k | k in r[1..] ensures from + 1 <= k < |scores| {
        var a :| 1 <= a < |r| && r[a] == k;
        assert r[0] < r[a] && r[a] in r;
      }
      HoldersLength(scores, m, from + 1, r[1..]);
    }
  }

  /** Positions of the winners: every player whose score equals the maximum. */
  function WinnerPositions(scores: seq<int>): (r: seq<nat>)
    ensures forall i :: 0 <= i < |r| ==> r[i] < |scores|
  {
    if |scores| == 0 then []
    else
      var r := Holders(scores, MaxScore(scores), 0);
      assert forall i :: 0 <= i < |r| ==> r[i] in r;
      r
  }

  /** Names of the winners, in roster order. */
  function Winners(playerNames: seq<string>, scores: seq<int>): (w: seq<string>)
    requires |scores| == |playerNames|
    ensures |w| == |WinnerPositions(scores)|
    ensures forall i :: 0 <= i < |w| ==> w[i] == playerNames[WinnerPositions(scores)[i]]
  {
    var pos := WinnerPositions(scores);
    seq(|pos|, i requires 0 <= i < |pos| => playerNames[pos[i]])
  }

  /** The dialog shows "Draw..." when every player is a winner. */
  predicate IsDraw(playerNames: seq<string>, scores: seq<int>)
    requires |scores| == |playerNames|
  {
    |Winners(playerNames, scores)| == |playerNames|
  }

  /** The winners are exactly the players no one outscored. */
  lemma WinnersAreTopScorers(scores: seq<int>, k: int)
    ensures k in WinnerPositions(scores)
            <==> 0 <= k < |scores| && forall j :: 0 <= j < |scores| ==> scores[j] <= scores[k]
  {
  }

  /** A round with at least one player always has a winner. */
  lemma SomeoneWins(scores: seq<int>)
    requires |scores| > 0
    ensures |WinnerPositions(scores)| > 0
  {
  }

  /** The round is a draw exactly when all players have the same score. */
  lemma DrawIffAllTied(playerNames: seq<string>, scores: seq<int>)
    requires |scores| == |playerNames|
    ensures IsDraw(playerNames, scores) <==> forall i, j :: 0 <= i < |scores| && 0 <= j < |scores| ==> scores[i] == scores[j]
  {
  }

  /** Scores [2, 2, 1]: the first two players win and it is not a draw. */
  lemma ThreePlayersTwoWinners()
    ensures WinnerPositions([2, 2, 1]) == [0, 1]
    ensures !IsDraw(["A", "B", "C"], [2, 2, 1])
  {
  }

  /** Scores [3, 3]: a draw. */
  lemma TwoPlayersTied()
    ensures IsDraw(["A", "B"], [3, 3])
  {
  }

  /** Decimal representation of a non-negative number, as a template literal prints it. */
  function Decimal(n: nat): (s: string)
    ensures |s| > 0
    ensures forall i :: 0 <= i < |s| ==> '0' <= s[i] <= '9'
  {
    if n < 10 then [Digit(n)] else Decimal(n / 10) + [Digit(n % 10)]
  }

  function Digit(d: nat): (c: char)
    requires d < 10
    ensures '0' <= c <= '9'
  {
    "0123456789"[d]
  }

  /** Reads back a string of decimal digits. */
  function ParseDecimal(s: string): (n: nat)
    requires forall i :: 0 <= i < |s| ==> '0' <= s[i] <= '9'
  {
    if |s| == 0 then 0 else 10 * ParseDecimal(s[..|s| - 1]) + (s[|s| - 1] as int - '0' as int)
  }

  /** The printed score reads back as the score. */
  lemma {:induction false} DecimalRoundTrip(n: nat)
    ensures ParseDecimal(Decimal(n)) == n
  {
    var s := Decimal(n);
    if n >= 10 {
      DecimalRoundTrip(n / 10);
      assert s[..|s| - 1] == Decimal(n / 10);
    }
  }

  /** getScoreText: "???" while scores are hidden, otherwise the score and
      "point" for 0 and 1, "points" from 2 on. */
  function ScoreText(score: nat, scoreDisplay: bool): (text: string)
    ensures !scoreDisplay ==> text == "???"
    ensures scoreDisplay ==> text == Decimal(score) + (if score <= 1 then " point" else " points")
  {
    if !scoreDisplay then "???"
    else if score == 0 then "0 point"
    else if score == 1 then Decimal(score) + " point"
    else Decimal(score) + " points"
  }
}

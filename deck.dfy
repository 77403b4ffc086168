/** Deck construction of the concentration game: the unshuffled runs of face
    values, the Fisher–Yates shuffle and the removal of one card that turns its
    face value into the joker. Randomness is a parameter: the shuffle takes the
    index chosen at every step, the joker removal takes the removed position. */
module Deck {

  /** Number of distinct face values: one extra value when a joker is wanted. */
  function FaceCount(pairs: nat, includeJoker: bool): (faces: nat)
  {
    if includeJoker then pairs + 1 else pairs
  }

  /** The face value given to deck position `index` before shuffling. */
  function GenerateCardId(index: nat, pairs: nat, includeJoker: bool): (id: int)
    requires FaceCount(pairs, includeJoker) > 0
    ensures 1 <= id <= FaceCount(pairs, includeJoker)
    ensures id - 1 == index % FaceCount(pairs, includeJoker)
  {
    if includeJoker then index % (pairs + 1) + 1 else index % pairs + 1
  }

  /** The deck before shuffling: `FaceCount * dups` positions, position `i`
      holding GenerateCardId(i). */
  function Unshuffled(pairs: nat, dups: nat, includeJoker: bool): (r: seq<int>)
    ensures |r| == FaceCount(pairs, includeJoker) * dups
  {
    var faces := FaceCount(pairs, includeJoker);
    if faces == 0 then []
    else seq(faces * dups, i requires 0 <= i => GenerateCardId(i, pairs, includeJoker))
  }

  /** The run 1, 2, ..., n. */
  function Run(n: nat): (r: seq<int>)
    ensures |r| == n
    ensures forall i :: 0 <= i < n ==> r[i] == i + 1
  {
    if n == 0 then [] else Run(n - 1) + [n]
  }

  lemma {:induction false} RunCounts(n: nat, v: int)
    ensures multiset(Run(n))[v] == if 1 <= v <= n then 1 else 0
  {
    if n > 0 {
      RunCounts(n - 1, v);
      var prev := Run(n - 1);
      assert Run(n) == prev + [n];
      assert multiset(prev + [n]) == multiset(prev) + multiset{n};
    }
  }

  lemma MulAtLeast(b: int, d: int)
    requires b > 0 && d >= 1
    ensures b * d >= b
  {
  }

  /** Remainders are unique: a == b * q + r with 0 <= r < b gives a % b == r. */
  lemma ModUnique(a: int, b: int, q: int, r: int)
    requires b > 0 && 0 <= r < b && a == b * q + r
    ensures a % b == r
  {
    var q', r' := a / b, a % b;
    assert a == b * q' + r';
    if q' < q {
      assert b * q - b * q' == b * (q - q');
      MulAtLeast(b, q - q');
    } else if q < q' {
      assert b * q' - b * q == b * (q' - q);
      MulAtLeast(b, q' - q);
    }
  }

  /** The first k blocks of the unshuffled deck: position i holds i % faces + 1. */
  function Blocks(faces: nat, k: nat): (r: seq<int>)
    requires faces > 0
  {
    seq(faces * k, i => i % faces + 1)
  }

  lemma BlocksStep(faces: nat, k: nat)
    requires faces > 0 && k > 0
    ensures Blocks(faces, k) == Blocks(faces, k - 1) + Run(faces)
  {
    var n := faces * (k - 1);
    assert faces * k == n + faces;
    var whole, front := Blocks(faces, k), Blocks(faces, k - 1);
    assert |whole| == n + faces && |front| == n;
    forall i | 0 <= i < faces
      ensures whole[n + i] == Run(faces)[i]
    {
      ModUnique(n + i, faces, k - 1, i);
    }
    assert whole == front + Run(faces);
  }

  /** k blocks hold every value of 1..faces exactly k times. */
  lemma {:induction false} BlockCounts(faces: nat, k: nat, v: int)
    requires faces > 0
    ensures multiset(Blocks(faces, k))[v] == if 1 <= v <= faces then k else 0
  {
    if k > 0 {
      BlocksStep(faces, k);
      assert multiset(Blocks(faces, k)) == multiset(Blocks(faces, k - 1)) + multiset(Run(faces));
      BlockCounts(faces, k - 1, v);
      RunCounts(faces, v);
    }
  }

  /** Every face value 1..FaceCount occurs exactly `dups` times before the
      shuffle, and no other value occurs. */
  lemma UnshuffledCounts(pairs: nat, dups: nat, includeJoker: bool, v: int)
    ensures multiset(Unshuffled(pairs, dups, includeJoker))[v]
            == if 1 <= v <= FaceCount(pairs, includeJoker) then dups else 0
  {
    var faces := FaceCount(pairs, includeJoker);
    if faces > 0 {
      assert Unshuffled(pairs, dups, includeJoker) == Blocks(faces, dups);
      BlockCounts(faces, dups, v);
    }
  }

  /** One step of the shuffle: exchange positions i and j (i may equal j). */
  function Swap<T>(s: seq<T>, i: nat, j: nat): (r: seq<T>)
    requires i < |s| && j < |s|
    ensures |r| == |s|
    ensures r[i] == s[j] && r[j] == s[i]
    ensures forall k :: 0 <= k < |s| && k != i && k != j ==> r[k] == s[k]
  {
    s[i := s[j]][j := s[i]]
  }

  lemma SwapPermutes<T>(s: seq<T>, i: nat, j: nat)
    requires i < |s| && j < |s|
    ensures multiset(Swap(s, i, j)) == multiset(s)
  {
  }

  /** Choices a uniform random source can make: at step i, an index in [0, i]. */
  predicate ValidChoices(js: seq<nat>, n: nat)
  {
    |js| == n && forall i :: 0 < i < |js| ==> js[i] <= i
  }

  /** The steps i, i-1, ..., 1 of the Fisher–Yates shuffle, step k swapping
      positions k and js[k]. */
  function FisherYates<T>(s: seq<T>, js: seq<nat>, i: nat): (r: seq<T>)
    requires ValidChoices(js, |s|) && i < |s|
    ensures |r| == |s|
    decreases i
  {
    if i == 0 then s else FisherYates(Swap(s, i, js[i]), js, i - 1)
  }

  /** The shuffle of a whole sequence under the choices js. */
  function Shuffled<T>(s: seq<T>, js: seq<nat>): (r: seq<T>)
    requires ValidChoices(js, |s|)
    ensures |r| == |s|
  {
    if |s| == 0 then s else FisherYates(s, js, |s| - 1)
  }

  lemma {:induction false} FisherYatesPermutes<T>(s: seq<T>, js: seq<nat>, i: nat)
    requires ValidChoices(js, |s|) && i < |s|
    ensures multiset(FisherYates(s, js, i)) == multiset(s)
    decreases i
  {
    if i > 0 {
      SwapPermutes(s, i, js[i]);
      FisherYatesPermutes(Swap(s, i, js[i]), js, i - 1);
    }
  }

  /** Whatever indices the random source picks, the shuffle is a permutation. */
  lemma ShuffledPermutes<T>(s: seq<T>, js: seq<nat>)
    requires ValidChoices(js, |s|)
    ensures multiset(Shuffled(s, js)) == multiset(s)
  {
    if |s| > 0 {
      FisherYatesPermutes(s, js, |s| - 1);
    }
  }

  /** shuffleArray: copies the input and runs Fisher–Yates on the copy, from
      the last index down to 1; `js[i]` stands for the random index in [0, i]
      drawn at step i. The input array is not modified. */
  method ShuffleArray<T(0)>(arr: array<T>, js: seq<nat>) returns (result: array<T>)
    requires ValidChoices(js, arr.Length)
    ensures result != arr && result.Length == arr.Length
    ensures result[..] == Shuffled(arr[..], js)
    ensures multiset(result[..]) == multiset(arr[..])
  {
    result := new T[arr.Length](k requires 0 <= k < arr.Length reads arr => arr[k]);
    assert result[..] == arr[..];
    if result.Length > 0 {
      var i := result.Length - 1;
      while i > 0
        invariant 0 <= i < result.Length
        invariant FisherYates(result[..], js, i) == Shuffled(arr[..], js)
        decreases i
      {
        var j := js[i];
        ghost var before := result[..];
        var tmp := result[i];
        result[i] := result[j];
        result[j] := tmp;
        assert result[..] == Swap(before, i, j);
        i := i - 1;
      }
    }
    ShuffledPermutes(arr[..], js);
  }

  /** `s` with position k removed, the rest in order (Array.prototype.splice(k, 1)). */
  function Without(s: seq<int>, k: nat): (r: seq<int>)
    requires k < |s|
    ensures |r| == |s| - 1
    ensures forall i :: 0 <= i < k ==> r[i] == s[i]
    ensures forall i :: k <= i < |r| ==> r[i] == s[i + 1]
    ensures multiset(r) == multiset(s) - multiset{s[k]}
  {
    assert s == s[..k] + [s[k]] + s[k + 1..];
    s[..k] + s[k + 1..]
  }

  /** chooseJoker: copies the input without the element at `randomIndex`, the
      position drawn by the random source (always 0 for an empty input, where
      nothing is removed). */
  method ChooseJoker(arr: array<int>, randomIndex: nat) returns (newArr: array<int>)
    requires randomIndex < arr.Length || (arr.Length == 0 && randomIndex == 0)
    ensures newArr != arr
    ensures arr.Length == 0 ==> newArr.Length == 0
    ensures arr.Length > 0 ==> newArr[..] == Without(arr[..], randomIndex)
  {
    if arr.Length == 0 {
      newArr := new int[0];
      return;
    }
    newArr := new int[arr.Length - 1];
    var k := 0;
    while k < newArr.Length
      invariant 0 <= k <= newArr.Length
      invariant forall i :: 0 <= i < k && i < randomIndex ==> newArr[i] == arr[i]
      invariant forall i :: randomIndex <= i < k ==> newArr[i] == arr[i + 1]
    {
      newArr[k] := if k < randomIndex then arr[k] else arr[k + 1];
      k := k + 1;
    }
    assert newArr[..] == Without(arr[..], randomIndex);
  }

  /** Multiplicities of a dealt deck: every value 1..faces occurs `dups` times,
      except `joker`, which occurs `dups - 1` times; no other value occurs. */
  ghost predicate HasCounts(deck: seq<int>, faces: nat, dups: nat, joker: int)
  {
    forall v :: multiset(deck)[v] == if 1 <= v <= faces then (if v == joker then dups - 1 else dups) else 0
  }

  /** What a dealt deck looks like: without a joker, `pairs * dups` cards with
      every face `dups` times; with a joker, one card short of
      `(pairs + 1) * dups`, and one face value (the joker) one copy short. */
  ghost predicate IsDeal(deck: seq<int>, pairs: nat, dups: nat, includeJoker: bool)
  {
    if includeJoker then
      |deck| == (pairs + 1) * dups - 1 &&
      exists joker {:trigger HasCounts(deck, pairs + 1, dups, joker)} :: 1 <= joker <= pairs + 1 && HasCounts(deck, pairs + 1, dups, joker)
    else
      |deck| == pairs * dups && HasCounts(deck, pairs, dups, 0)
  }

  /** Without a joker, the shuffled deck is a deal: `pairs * dups` cards, every
      face `dups` times, whatever indices the random source picked. */
  lemma ShuffledIsDeal(pairs: nat, dups: nat, js: seq<nat>)
    requires ValidChoices(js, pairs * dups)
    ensures IsDeal(Shuffled(Unshuffled(pairs, dups, false), js), pairs, dups, false)
  {
    var runs := Unshuffled(pairs, dups, false);
    UnshuffledCounts(pairs, dups, false, 0);
    ShuffledPermutes(runs, js);
    forall v ensures multiset(Shuffled(runs, js))[v] == if 1 <= v <= pairs then dups else 0 {
      UnshuffledCounts(pairs, dups, false, v);
    }
  }

  /** With a joker, removing any one card of the shuffled deck leaves a deal:
      the removed card's face value is the joker, one copy short. */
  lemma JokerRemovalIsDeal(pairs: nat, dups: nat, js: seq<nat>, jokerIndex: nat)
    requires dups >= 1
    requires ValidChoices(js, (pairs + 1) * dups)
    requires jokerIndex < (pairs + 1) * dups
    ensures IsDeal(Without(Shuffled(Unshuffled(pairs, dups, true), js), jokerIndex), pairs, dups, true)
    ensures var shuffled := Shuffled(Unshuffled(pairs, dups, true), js);
      HasCounts(Without(shuffled, jokerIndex), pairs + 1, dups, shuffled[jokerIndex])
  {
    var runs := Unshuffled(pairs, dups, true);
    UnshuffledCounts(pairs, dups, true, 0);
    ShuffledPermutes(runs, js);
    var shuffled := Shuffled(runs, js);
    var joker := shuffled[jokerIndex];
    UnshuffledCounts(pairs, dups, true, joker);
    assert joker in multiset(shuffled);
    var deck := Without(shuffled, jokerIndex);
    forall v ensures multiset(deck)[v] == if 1 <= v <= pairs + 1 then (if v == joker then dups - 1 else dups) else 0 {
      UnshuffledCounts(pairs, dups, true, v);
    }
    assert HasCounts(deck, pairs + 1, dups, joker);
  }

  /** The deck built when the round starts or is reset (game.tsx:40-44 and
      179-183): unshuffled runs, shuffled, then one card removed for the joker. */
  method BuildDeck(pairs: nat, dups: nat, includeJoker: bool, js: seq<nat>, jokerIndex: nat)
    returns (deck: seq<int>)
    requires dups >= 1
    requires ValidChoices(js, FaceCount(pairs, includeJoker) * dups)
    requires includeJoker ==> jokerIndex < (pairs + 1) * dups
    ensures !includeJoker ==> deck == Shuffled(Unshuffled(pairs, dups, false), js)
    ensures includeJoker ==> deck == Without(Shuffled(Unshuffled(pairs, dups, true), js), jokerIndex)
    ensures IsDeal(deck, pairs, dups, includeJoker)
  {
    var runs := Unshuffled(pairs, dups, includeJoker);
    UnshuffledCounts(pairs, dups, includeJoker, 0);
    var cards := new int[|runs|](i requires 0 <= i < |runs| => runs[i]);
    assert cards[..] == runs;
    var shuffled := ShuffleArray(cards, js);
    if includeJoker {
      var dealt := ChooseJoker(shuffled, jokerIndex);
      deck := dealt[..];
      JokerRemovalIsDeal(pairs, dups, js, jokerIndex);
    } else {
      deck := shuffled[..];
      ShuffledIsDeal(pairs, dups, js);
    }
  }
}

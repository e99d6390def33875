// Day 9: Marble Mania. Players take turns placing numbered marbles into a
// circle; every 23rd marble is kept instead, together with the marble seven
// places counter-clockwise, which leaves the circle.
module Day09 {
  import opened Common

  // ---------------------------------------------------------------------
  // Ring

  /** `s` with `x` inserted at `index`: what `Vec::insert` leaves behind. */
  function Inserted<T>(s: seq<T>, index: nat, x: T): seq<T>
    requires index <= |s|
  {
    s[..index] + [x] + s[index..]
  }

  /** `s` without its element at `index`: what `Vec::remove` leaves behind. */
  function Removed<T>(s: seq<T>, index: nat): seq<T>
    requires index < |s|
  {
    s[..index] + s[index + 1..]
  }

  /** Removing what was just inserted gives the old sequence back. */
  lemma RemoveInserted<T>(s: seq<T>, index: nat, x: T)
    requires index <= |s|
    ensures Removed(Inserted(s, index, x), index) == s
  {
    var t := Inserted(s, index, x);
    assert t[..index] == s[..index];
    assert t[index + 1..] == s[index..];
    assert s[..index] + s[index..] == s;
  }

  /** Putting a removed element back where it was restores the sequence. */
  lemma InsertRemoved<T>(s: seq<T>, index: nat)
    requires index < |s|
    ensures Inserted(Removed(s, index), index, s[index]) == s
  {
    var t := Removed(s, index);
    assert t[..index] == s[..index];
    assert t[index..] == s[index + 1..];
    assert s[..index] + [s[index]] + s[index + 1..] == s;
  }

  /** An insertion keeps every old element, in the old order: the element at
      `j` moves to `j` or `j + 1`, and the new one sits at `index`. */
  lemma InsertKeepsOrder<T>(s: seq<T>, index: nat, x: T)
    requires index <= |s|
    ensures var t := Inserted(s, index, x);
            && |t| == |s| + 1 && t[index] == x
            && (forall j :: 0 <= j < index ==> t[j] == s[j])
            && (forall j :: index <= j < |s| ==> t[j + 1] == s[j])
  {
  }

  /** A removal keeps every other element, in the old order. */
  lemma RemoveKeepsOrder<T>(s: seq<T>, index: nat)
    requires index < |s|
    ensures var t := Removed(s, index);
            && |t| == |s| - 1
            && (forall j :: 0 <= j < index ==> t[j] == s[j])
            && (forall j :: index <= j < |t| ==> t[j] == s[j + 1])
  {
  }

  /** `Ring<T>`: a list changed in place by insertion and removal. */
  class Ring<T(==)> {
    var list: seq<T>

    constructor ()
      ensures list == []
    {
      list := [];
    }

    /** `index_of`: the first position holding `item`. */
    function IndexOf(item: T): (r: Option<nat>)
      reads this
      ensures r.Some? ==> r.value < |list| && list[r.value] == item && item !in list[..r.value]
      ensures r.None? ==> item !in list
    {
      FirstIndex(list, item)
    }

    function Len(): nat
      reads this
    {
      |list|
    }

    method Insert(index: nat, item: T)
      requires index <= |list|
      modifies this
      ensures list == Inserted(old(list), index, item)
    {
      list := Inserted(list, index, item);
    }

    method Remove(index: nat) returns (item: T)
      requires index < |list|
      modifies this
      ensures item == old(list)[index] && list == Removed(old(list), index)
    {
      item := list[index];
      list := Removed(list, index);
    }
  }

  function FirstIndex<T(==)>(s: seq<T>, x: T): (r: Option<nat>)
    ensures r.Some? ==> r.value < |s| && s[r.value] == x && x !in s[..r.value]
    ensures r.None? ==> x !in s
  {
    if s == [] then None
    else if s[0] == x then Some(0)
    else
      match FirstIndex(s[1..], x)
      case None => None
      case Some(i) =>
        assert s[..i + 1] == [s[0]] + s[1..][..i];
        Some(i + 1)
  }

  // ---------------------------------------------------------------------
  // The rules of the game

  /** `MarbleRules::is_special`: every 23rd marble is kept. */
  predicate IsSpecial(marble: nat)
  {
    marble % 23 == 0
  }

  /** `next_player`: players take turns 1, 2, ..., n, 1, ...; before the
      first turn nobody (player 0) has played. */
  function PlayerAfter(numPlayers: nat, player: nat): (r: nat)
    ensures r >= 1
    ensures 0 < numPlayers && player <= numPlayers ==> r <= numPlayers
  {
    if player == numPlayers then 1 else player + 1
  }

  /** Where a new marble goes: two places clockwise of the current one. */
  function InsertIndex(len: nat, index: nat): nat
  {
    if index + 2 > len then index + 2 - len else index + 2
  }

  /** Which marble is taken: seven places counter-clockwise. */
  function TakeIndex(len: nat, index: nat): (r: nat)
    requires index <= len && 7 <= len
  {
    if index >= 7 then index - 7 else index + len - 7
  }

  /** The state of `GameRunner` apart from the game's parameters. */
  datatype State = State(scores: map<nat, nat>, ring: seq<nat>, index: nat, marble: nat, player: nat)

  /** Zero scores for players 1..=n. */
  function InitialScores(numPlayers: nat): (r: map<nat, nat>)
    ensures forall p: nat :: p in r <==> 1 <= p <= numPlayers
    ensures forall p <- r.Keys :: r[p] == 0
  {
    if numPlayers == 0 then map[] else InitialScores(numPlayers - 1)[numPlayers := 0]
  }

  /** `GameRunner::new`: only marble 0 in the circle, nobody has played. */
  function Initial(numPlayers: nat): State
  {
    State(InitialScores(numPlayers), [0], 0, 0, 0)
  }

  /** The facts the runner keeps that make every step well defined: the
      circle is never empty, the current index is at most its length (and 0
      while it holds one marble), and it loses one marble for every 23rd. */
  predicate Fits(numMarbles: nat, s: State)
  {
    && 1 <= |s.ring| && s.index <= |s.ring| && (|s.ring| == 1 ==> s.index == 0)
    && |s.ring| + 2 * (s.marble / 23) == s.marble + 1
    && s.marble <= numMarbles
  }

  function ScoreOf(scores: map<nat, nat>, player: nat): nat
  {
    if player in scores then scores[player] else 0
  }

  /** When a 23rd marble is due, the circle holds at least 23 marbles. */
  lemma SpecialRingLength(numMarbles: nat, s: State)
    requires Fits(numMarbles, s) && IsSpecial(s.marble + 1)
    ensures |s.ring| >= 23
  {
    var k := (s.marble + 1) / 23;
    assert s.marble + 1 == 23 * k;
    assert 23 * (k - 1) <= s.marble < 23 * k;
    assert s.marble / 23 == k - 1;
  }

  /** `GameRunner::next`: `None` once the last marble is placed; otherwise
      the next player plays the next marble. */
  function Step(numMarbles: nat, numPlayers: nat, s: State): (r: Option<State>)
    requires Fits(numMarbles, s)
    ensures r.Some? ==> Fits(numMarbles, r.value)
  {
    if s.marble == numMarbles then None
    else
      var player := PlayerAfter(numPlayers, s.player);
      var marble := s.marble + 1;
      if IsSpecial(marble) then
        SpecialRingLength(numMarbles, s);
        var i := TakeIndex(|s.ring|, s.index);
        var removed := s.ring[i];
        assert marble / 23 == s.marble / 23 + 1;
        Some(State(s.scores[player := ScoreOf(s.scores, player) + marble + removed],
                   Removed(s.ring, i), i, marble, player))
      else
        var i := InsertIndex(|s.ring|, s.index);
        assert marble / 23 == s.marble / 23;
        Some(State(s.scores, Inserted(s.ring, i, marble), i, marble, player))
  }

  /** `finish`: steps until the last marble is placed. */
  function Run(numMarbles: nat, numPlayers: nat, s: State): (r: State)
    requires Fits(numMarbles, s)
    ensures Fits(numMarbles, r) && r.marble == numMarbles
    decreases numMarbles - s.marble
  {
    match Step(numMarbles, numPlayers, s)
    case None => s
    case Some(next) => Run(numMarbles, numPlayers, next)
  }

  // ---------------------------------------------------------------------
  // What a step does

  /** A step stops exactly at the last marble; otherwise the marble number
      goes up by one and the turn passes to the next player in 1..=n. */
  lemma StepTurn(numMarbles: nat, numPlayers: nat, s: State)
    requires Fits(numMarbles, s)
    ensures var r := Step(numMarbles, numPlayers, s);
            && (r.None? <==> s.marble == numMarbles)
            && (r.Some? ==> r.value.marble == s.marble + 1)
            && (r.Some? && numPlayers >= 1 && s.player <= numPlayers ==> 1 <= r.value.player <= numPlayers)
  {
  }

  /** An ordinary marble goes two places clockwise of the current one (one
      place past the end wraps), becomes current, and the circle grows by one;
      no score changes. */
  lemma OrdinaryMarble(numMarbles: nat, numPlayers: nat, s: State)
    requires Fits(numMarbles, s) && s.marble < numMarbles && !IsSpecial(s.marble + 1)
    ensures var r := Step(numMarbles, numPlayers, s).value;
            && r.index == (if s.index + 2 > |s.ring| then s.index + 2 - |s.ring| else s.index + 2)
            && r.index < |r.ring| && r.ring[r.index] == s.marble + 1
            && |r.ring| == |s.ring| + 1
            && Removed(r.ring, r.index) == s.ring
            && r.scores == s.scores
  {
    var i := InsertIndex(|s.ring|, s.index);
    OrdinaryStepIs(numMarbles, numPlayers, s);
    assert Inserted(s.ring, i, s.marble + 1)[i] == s.marble + 1;
    RemoveInserted(s.ring, i, s.marble + 1);
  }

  /** The state an ordinary marble leads to. */
  lemma OrdinaryStepIs(numMarbles: nat, numPlayers: nat, s: State)
    requires Fits(numMarbles, s) && s.marble < numMarbles && !IsSpecial(s.marble + 1)
    ensures var i := InsertIndex(|s.ring|, s.index);
            Step(numMarbles, numPlayers, s)
            == Some(State(s.scores, Inserted(s.ring, i, s.marble + 1), i, s.marble + 1, PlayerAfter(numPlayers, s.player)))
  {
  }

  /** A 23rd marble is kept: the marble seven places counter-clockwise
      leaves the circle, and only the current player's score rises, by both
      marbles. */
  lemma SpecialMarble(numMarbles: nat, numPlayers: nat, s: State)
    requires Fits(numMarbles, s) && s.marble < numMarbles && IsSpecial(s.marble + 1)
    ensures |s.ring| >= 7
    ensures var r := Step(numMarbles, numPlayers, s).value;
            var i := if s.index >= 7 then s.index - 7 else s.index + |s.ring| - 7;
            && i < |s.ring| && r.index == i
            && |r.ring| == |s.ring| - 1
            && Inserted(r.ring, i, s.ring[i]) == s.ring
            && r.scores.Keys == s.scores.Keys + {r.player}
            && r.scores[r.player] == ScoreOf(s.scores, r.player) + (s.marble + 1) + s.ring[i]
            && (forall p <- s.scores.Keys :: p != r.player ==> r.scores[p] == s.scores[p])
  {
    SpecialRingLength(numMarbles, s);
    var i := TakeIndex(|s.ring|, s.index);
    InsertRemoved(s.ring, i);
  }

  predicate Distinct(s: seq<nat>)
  {
    forall j, k :: 0 <= j < k < |s| ==> s[j] != s[k]
  }

  lemma InsertDistinct(s: seq<nat>, index: nat, x: nat)
    requires index <= |s| && Distinct(s) && x !in s
    ensures Distinct(Inserted(s, index, x))
    ensures forall y <- Inserted(s, index, x) :: y == x || y in s
  {
    var t := Inserted(s, index, x);
    InsertKeepsOrder(s, index, x);
    forall j, k | 0 <= j < k < |t|
      ensures t[j] != t[k]
    {
      var j' := if j < index then j else j - 1;
      var k' := if k < index then k else k - 1;
      if j == index {
        assert t[k] == s[k'];
      } else if k == index {
        assert t[j] == s[j'];
      } else {
        assert t[j] == s[j'] && t[k] == s[k'] && j' < k';
      }
    }
  }

  lemma RemoveDistinct(s: seq<nat>, index: nat)
    requires index < |s| && Distinct(s)
    ensures Distinct(Removed(s, index))
    ensures forall y <- Removed(s, index) :: y in s
  {
    var t := Removed(s, index);
    RemoveKeepsOrder(s, index);
    forall j, k | 0 <= j < k < |t|
      ensures t[j] != t[k]
    {
      var j' := if j < index then j else j + 1;
      var k' := if k < index then k else k + 1;
      assert t[j] == s[j'] && t[k] == s[k'] && j' < k';
    }
    forall y | y in t
      ensures y in s
    {
      var j :| 0 <= j < |t| && t[j] == y;
      assert t[j] == s[if j < index then j else j + 1];
    }
  }

  /** The marbles in the circle are distinct, none beyond the current one,
      and none of them a 23rd marble other than 0. */
  ghost predicate RingInv(s: State)
  {
    && (forall x <- s.ring :: x <= s.marble && (x == 0 || !IsSpecial(x)))
    && Distinct(s.ring)
  }

  /** The runner's whole invariant: the circle, the turn, and the players'
      score entries (1..=n, once there is a player at all). */
  ghost predicate Inv(numMarbles: nat, numPlayers: nat, s: State)
  {
    && Fits(numMarbles, s)
    && RingInv(s)
    && (numPlayers >= 1 ==> s.player <= numPlayers)
    && (numPlayers >= 1 ==> forall p: nat :: p in s.scores <==> 1 <= p <= numPlayers)
  }

  lemma InitialInv(numMarbles: nat, numPlayers: nat)
    ensures Inv(numMarbles, numPlayers, Initial(numPlayers))
  {
  }

  lemma StepInv(numMarbles: nat, numPlayers: nat, s: State)
    requires Inv(numMarbles, numPlayers, s)
    ensures var r := Step(numMarbles, numPlayers, s);
            r.Some? ==> Inv(numMarbles, numPlayers, r.value)
  {
    if s.marble < numMarbles {
      if IsSpecial(s.marble + 1) {
        SpecialStepInv(numMarbles, numPlayers, s);
      } else {
        OrdinaryStepInv(numMarbles, numPlayers, s);
      }
    }
  }

  lemma SpecialStepInv(numMarbles: nat, numPlayers: nat, s: State)
    requires Inv(numMarbles, numPlayers, s) && s.marble < numMarbles && IsSpecial(s.marble + 1)
    ensures Inv(numMarbles, numPlayers, Step(numMarbles, numPlayers, s).value)
  {
    var r := Step(numMarbles, numPlayers, s).value;
    SpecialRingLength(numMarbles, s);
    var i := TakeIndex(|s.ring|, s.index);
    assert r.ring == Removed(s.ring, i);
    RemoveDistinct(s.ring, i);
  }

  lemma OrdinaryStepInv(numMarbles: nat, numPlayers: nat, s: State)
    requires Inv(numMarbles, numPlayers, s) && s.marble < numMarbles && !IsSpecial(s.marble + 1)
    ensures Inv(numMarbles, numPlayers, Step(numMarbles, numPlayers, s).value)
  {
    var r := Step(numMarbles, numPlayers, s).value;
    var m := s.marble + 1;
    var i := InsertIndex(|s.ring|, s.index);
    assert r.ring == Inserted(s.ring, i, m);
    assert m !in s.ring;
    InsertDistinct(s.ring, i, m);
  }

  /** Running keeps the invariant. */
  lemma {:induction false} RunInv(numMarbles: nat, numPlayers: nat, s: State)
    requires Inv(numMarbles, numPlayers, s)
    ensures Inv(numMarbles, numPlayers, Run(numMarbles, numPlayers, s))
    decreases numMarbles - s.marble
  {
    StepInv(numMarbles, numPlayers, s);
    match Step(numMarbles, numPlayers, s)
    case None =>
    case Some(next) => RunInv(numMarbles, numPlayers, next);
  }

  /** The final scores of a game. */
  function FinalScores(numMarbles: nat, numPlayers: nat): map<nat, nat>
  {
    Run(numMarbles, numPlayers, Initial(numPlayers)).scores
  }

  /** `v` is the largest score. */
  ghost predicate IsHighscore(scores: map<nat, nat>, v: nat)
  {
    (exists p <- scores.Keys :: scores[p] == v) && forall p <- scores.Keys :: scores[p] <= v
  }

  /** There is one player for each number 1..=n at the end of the game. */
  lemma FinalPlayers(numMarbles: nat, numPlayers: nat)
    requires numPlayers >= 1
    ensures forall p: nat :: p in FinalScores(numMarbles, numPlayers) <==> 1 <= p <= numPlayers
  {
    InitialInv(numMarbles, numPlayers);
    RunInv(numMarbles, numPlayers, Initial(numPlayers));
  }

  // ---------------------------------------------------------------------
  // GameRunner

  class GameRunner {
    const numMarbles: nat
    const numPlayers: nat
    const ring: Ring<nat>
    var scores: map<nat, nat>
    var currentIndex: nat
    var currentMarble: nat
    var currentPlayer: nat

    function CurrentState(): State
      reads this, ring
    {
      State(scores, ring.list, currentIndex, currentMarble, currentPlayer)
    }

    ghost predicate Valid()
      reads this, ring
    {
      Inv(numMarbles, numPlayers, CurrentState())
    }

    /** `GameRunner::new`. */
    constructor (numMarbles: nat, numPlayers: nat)
      ensures this.numMarbles == numMarbles && this.numPlayers == numPlayers
      ensures CurrentState() == Initial(numPlayers) && Valid() && fresh(ring)
    {
      this.numMarbles := numMarbles;
      this.numPlayers := numPlayers;
      var r := new Ring();
      r.Insert(0, 0);
      ring := r;
      scores := InitialScores(numPlayers);
      currentIndex, currentMarble, currentPlayer := 0, 0, 0;
      new;
      InitialInv(numMarbles, numPlayers);
    }

    method NextPlayer()
      modifies this
      ensures currentPlayer == PlayerAfter(numPlayers, old(currentPlayer))
      ensures scores == old(scores) && currentIndex == old(currentIndex) && currentMarble == old(currentMarble)
    {
      if currentPlayer == numPlayers {
        currentPlayer := 1;
      } else {
        currentPlayer := currentPlayer + 1;
      }
    }

    method NextMarble()
      modifies this
      ensures currentMarble == old(currentMarble) + 1
      ensures scores == old(scores) && currentIndex == old(currentIndex) && currentPlayer == old(currentPlayer)
    {
      currentMarble := currentMarble + 1;
    }

    /** `Iterator::next`: `false` once the last marble is placed. */
    method Next() returns (more: bool)
      requires Valid()
      modifies this, ring
      ensures Valid()
      ensures more <==> old(currentMarble) != numMarbles
      ensures more ==> CurrentState() == Step(numMarbles, numPlayers, old(CurrentState())).value
      ensures !more ==> CurrentState() == old(CurrentState())
    {
      ghost var before := CurrentState();
      StepInv(numMarbles, numPlayers, before);
      if currentMarble == numMarbles {
        return false;
      }
      ghost var after := Step(numMarbles, numPlayers, before).value;
      NextPlayer();
      NextMarble();
      if currentMarble % 23 == 0 {
        SpecialStep(numMarbles, numPlayers, before);
        ghost var i := TakeIndex(|before.ring|, before.index);
        if currentIndex >= 7 {
          currentIndex := currentIndex - 7;
        } else {
          currentIndex := currentIndex + ring.Len() - 7;
        }
        assert currentIndex == i;
        var removed := ring.Remove(currentIndex);
        var newScore := currentMarble + removed;
        scores := scores[currentPlayer := ScoreOf(scores, currentPlayer) + newScore];
        assert after == State(scores, ring.list, currentIndex, currentMarble, currentPlayer);
      } else {
        OrdinaryStepIs(numMarbles, numPlayers, before);
        ghost var i := InsertIndex(|before.ring|, before.index);
        var len := ring.Len();
        currentIndex := currentIndex + 2;
        if currentIndex > len {
          currentIndex := currentIndex - len;
        }
        assert currentIndex == i;
        ring.Insert(currentIndex, currentMarble);
        assert after == State(scores, ring.list, currentIndex, currentMarble, currentPlayer);
      }
      return true;
    }

    /** `finish`: plays the game to its end and hands over the scores. */
    method Finish() returns (result: map<nat, nat>)
      requires Valid()
      modifies this, ring
      ensures result == Run(numMarbles, numPlayers, old(CurrentState())).scores
    {
      ghost var goal := Run(numMarbles, numPlayers, CurrentState());
      var more := true;
      while more
        invariant Valid()
        invariant Run(numMarbles, numPlayers, CurrentState()) == goal
        invariant !more ==> CurrentState() == goal
        decreases numMarbles - currentMarble, more
      {
        more := Next();
      }
      result := scores;
    }
  }

  // ---------------------------------------------------------------------
  // The puzzle

  /** `marble_highscore`: the best final score; `None` is the panic when
      there is no score at all. */
  method MarbleHighscore(numMarbles: nat, numPlayers: nat) returns (r: Option<nat>)
    ensures r.None? <==> FinalScores(numMarbles, numPlayers) == map[]
    ensures r.Some? ==> IsHighscore(FinalScores(numMarbles, numPlayers), r.value)
  {
    var runner := new GameRunner(numMarbles, numPlayers);
    var scores := runner.Finish();
    if scores == map[] {
      return None;
    }
    var best := MaxByValue(scores);
    return Some(scores[best]);
  }

  /** `marble_highscore_100`: the same game with a hundred times the marbles. */
  method MarbleHighscore100(numMarbles: nat, numPlayers: nat) returns (r: Option<nat>)
    ensures r.None? <==> FinalScores(numMarbles * 100, numPlayers) == map[]
    ensures r.Some? ==> IsHighscore(FinalScores(numMarbles * 100, numPlayers), r.value)
  {
    r := MarbleHighscore(numMarbles * 100, numPlayers);
  }

  /** With at least one player there is always a highscore. */
  lemma HighscoreExists(numMarbles: nat, numPlayers: nat)
    requires numPlayers >= 1
    ensures FinalScores(numMarbles, numPlayers) != map[]
  {
    FinalPlayers(numMarbles, numPlayers);
    assert 1 in FinalScores(numMarbles, numPlayers);
  }

  /** `parse`: "<players> players; last marble is worth <points> points",
      the first and the seventh word of the first line; `None` is a panic. */
  function Parse(input: string): (r: Option<(nat, nat)>)
    ensures r.Some? ==> r.value.0 <= U32_MAX && r.value.1 <= U32_MAX
  {
    var lines := Lines(Trim(input));
    if lines == [] then None
    else
      var words := Split(Trim(lines[0]), ' ');
      if |words| < 7 then None
      else
        match (ParseInt(words[0], 0, U32_MAX), ParseInt(words[6], 0, U32_MAX))
        case (Some(players), Some(marbles)) => Some((marbles as nat, players as nat))
        case _ => None
  }

  /** The words of the puzzle sentence with `players` and `marbles`
      written in. */
  function SentenceWords(players: string, marbles: string): seq<string>
  {
    [players, "players;", "last", "marble", "is", "worth", marbles, "points"]
  }

  /** The puzzle sentence: its words separated by single spaces,
      "<players> players; last marble is worth <marbles> points". */
  function Sentence(players: string, marbles: string): string
  {
    Join(SentenceWords(players, marbles), ' ')
  }

  /** Such a sentence is one line, which trimming leaves alone, and its
      words are the ones it was written with. */
  lemma SentenceShape(players: string, marbles: string)
    requires players != [] && marbles != []
    requires forall c <- players :: !IsWhitespace(c)
    requires forall c <- marbles :: !IsWhitespace(c)
    ensures Trim(Sentence(players, marbles)) == Sentence(players, marbles)
    ensures Lines(Sentence(players, marbles)) == [Sentence(players, marbles)]
    ensures Split(Sentence(players, marbles), ' ') == SentenceWords(players, marbles)
  {
    var words := SentenceWords(players, marbles);
    var text := Sentence(players, marbles);
    JoinEnds(words, ' ');
    assert players[0] in players;
    TrimKeeps(text);
    JoinChars(words, ' ');
    forall w <- words
      ensures ' ' !in w && '\n' !in w
    {
      if w == players || w == marbles {
        assert IsWhitespace(' ') && IsWhitespace('\n');
      }
    }
    LinesJoin([text]);
    assert Join([text], '\n') == text;
    SplitJoin(words, ' ');
  }

  /** A sentence whose two number fields are words without whitespace
      parses exactly when both fields read as `u32`, to those values. */
  lemma SentenceParses(players: string, marbles: string)
    requires players != [] && marbles != []
    requires forall c <- players :: !IsWhitespace(c)
    requires forall c <- marbles :: !IsWhitespace(c)
    ensures Parse(Sentence(players, marbles)) ==
              if ParseInt(players, 0, U32_MAX).Some? && ParseInt(marbles, 0, U32_MAX).Some?
              then Some((ParseInt(marbles, 0, U32_MAX).value as nat, ParseInt(players, 0, U32_MAX).value as nat))
              else None
  {
    SentenceShape(players, marbles);
  }

  /** The puzzle sentence written with two `u32` numbers reads back as
      those numbers; a player count past the `u32` range is refused. */
  lemma ParseSentence(players: nat, marbles: nat)
    requires marbles <= U32_MAX
    ensures players <= U32_MAX ==> Parse(Sentence(ShowNat(players), ShowNat(marbles))) == Some((marbles, players))
    ensures players > U32_MAX ==> Parse(Sentence(ShowNat(players), ShowNat(marbles))) == None
  {
    NoDigitIsWhitespace(ShowNat(players));
    NoDigitIsWhitespace(ShowNat(marbles));
    SentenceParses(ShowNat(players), ShowNat(marbles));
    if players > U32_MAX {
      var w := ShowNat(players);
      assert w[0] in w;
      assert ParseInt(w, 0, U32_MAX).None?;
    }
  }

  /** Digits are not whitespace. */
  lemma NoDigitIsWhitespace(s: string)
    requires AllDigits(s)
    ensures forall c <- s :: !IsWhitespace(c)
  {
  }

  // ---------------------------------------------------------------------
  // The first example: 9 players, last marble 25, highscore 32

  /** The circle after `k` marbles of the example, as the puzzle text draws
      it, clockwise from marble 0. */
  function ExampleRing(k: nat): seq<nat>
    requires k <= 25
  {
    // A balanced choice, so that picking one circle takes a few comparisons.
    if k <= 12 then
      if k <= 6 then
        if k <= 3 then
          if k <= 1 then
            if k <= 0 then
              [0]
            else
              [0, 1]
          else
            if k <= 2 then
              [0, 2, 1]
            else
              [0, 2, 1, 3]
        else
          if k <= 5 then
            if k <= 4 then
              [0, 4, 2, 1, 3]
            else
              [0, 4, 2, 5, 1, 3]
          else
            [0, 4, 2, 5, 1, 6, 3]
      else
        if k <= 9 then
          if k <= 8 then
            if k <= 7 then
              [0, 4, 2, 5, 1, 6, 3, 7]
            else
              [0, 8, 4, 2, 5, 1, 6, 3, 7]
          else
            [0, 8, 4, 9, 2, 5, 1, 6, 3, 7]
        else
          if k <= 11 then
            if k <= 10 then
              [0, 8, 4, 9, 2, 10, 5, 1, 6, 3, 7]
            else
              [0, 8, 4, 9, 2, 10, 5, 11, 1, 6, 3, 7]
          else
            [0, 8, 4, 9, 2, 10, 5, 11, 1, 12, 6, 3, 7]
    else
      if k <= 19 then
        if k <= 16 then
          if k <= 14 then
            if k <= 13 then
              [0, 8, 4, 9, 2, 10, 5, 11, 1, 12, 6, 13, 3, 7]
            else
              [0, 8, 4, 9, 2, 10, 5, 11, 1, 12, 6, 13, 3, 14, 7]
          else
            if k <= 15 then
              [0, 8, 4, 9, 2, 10, 5, 11, 1, 12, 6, 13, 3, 14, 7, 15]
            else
              [0, 16, 8, 4, 9, 2, 10, 5, 11, 1, 12, 6, 13, 3, 14, 7, 15]
        else
          if k <= 18 then
            if k <= 17 then
              [0, 16, 8, 17, 4, 9, 2, 10, 5, 11, 1, 12, 6, 13, 3, 14, 7, 15]
            else
              [0, 16, 8, 17, 4, 18, 9, 2, 10, 5, 11, 1, 12, 6, 13, 3, 14, 7, 15]
          else
            [0, 16, 8, 17, 4, 18, 9, 19, 2, 10, 5, 11, 1, 12, 6, 13, 3, 14, 7, 15]
      else
        if k <= 22 then
          if k <= 21 then
            if k <= 20 then
              [0, 16, 8, 17, 4, 18, 9, 19, 2, 20, 10, 5, 11, 1, 12, 6, 13, 3, 14, 7, 15]
            else
              [0, 16, 8, 17, 4, 18, 9, 19, 2, 20, 10, 21, 5, 11, 1, 12, 6, 13, 3, 14, 7, 15]
          else
            [0, 16, 8, 17, 4, 18, 9, 19, 2, 20, 10, 21, 5, 22, 11, 1, 12, 6, 13, 3, 14, 7, 15]
        else
          if k <= 24 then
            if k <= 23 then
              [0, 16, 8, 17, 4, 18, 19, 2, 20, 10, 21, 5, 22, 11, 1, 12, 6, 13, 3, 14, 7, 15]
            else
              [0, 16, 8, 17, 4, 18, 19, 2, 24, 20, 10, 21, 5, 22, 11, 1, 12, 6, 13, 3, 14, 7, 15]
          else
            [0, 16, 8, 17, 4, 18, 19, 2, 24, 20, 25, 10, 21, 5, 22, 11, 1, 12, 6, 13, 3, 14, 7, 15]
  }

  /** Where the current marble sits in `ExampleRing(k)`. */
  function ExampleIndex(k: nat): nat
    requires k <= 25
  {
    if k == 0 then 0
    else if k == 1 then 1
    else if k == 2 then 1
    else if k == 3 then 3
    else if k == 4 then 1
    else if k == 5 then 3
    else if k == 6 then 5
    else if k == 7 then 7
    else if k == 8 then 1
    else if k == 9 then 3
    else if k == 10 then 5
    else if k == 11 then 7
    else if k == 12 then 9
    else if k == 13 then 11
    else if k == 14 then 13
    else if k == 15 then 15
    else if k == 16 then 1
    else if k == 17 then 3
    else if k == 18 then 5
    else if k == 19 then 7
    else if k == 20 then 9
    else if k == 21 then 11
    else if k == 22 then 13
    else if k == 23 then 6
    else if k == 24 then 8
    else 10
  }

  /** Who played the `k`th marble of the example. */
  function ExamplePlayer(k: nat): nat
  {
    if k == 0 then 0 else (k - 1) % 9 + 1
  }

  /** The state after `k` marbles of the example, from the scores `start`
      the players begin with: player 5 scores 23 + 9 with the 23rd marble. */
  function ExampleState(start: map<nat, nat>, k: nat): State
    requires k <= 25
  {
    State(if k < 23 then start else start[5 := 32], ExampleRing(k), ExampleIndex(k), k, ExamplePlayer(k))
  }

  /** The drawn circle after `k` marbles fits the runner's bookkeeping. */
  ghost predicate ExampleFits(k: nat)
    requires k <= 25
  {
    var ring, index := ExampleRing(k), ExampleIndex(k);
    && 1 <= |ring| && index <= |ring| && (|ring| == 1 ==> index == 0)
    && |ring| + 2 * (k / 23) == k + 1
  }

  /** Marble `k + 1` of the example is an ordinary one, and the drawing
      shows it two places clockwise of the current marble. */
  ghost predicate OrdinaryMove(k: nat)
    requires k < 25
  {
    var ring, index := ExampleRing(k), ExampleIndex(k + 1);
    && ExampleFits(k) && !IsSpecial(k + 1)
    && index == InsertIndex(|ring|, ExampleIndex(k))
    && index <= |ring| && ExampleRing(k + 1) == Inserted(ring, index, k + 1)
    && ExamplePlayer(k + 1) == PlayerAfter(9, ExamplePlayer(k))
  }

  lemma ExampleMove0()
    ensures OrdinaryMove(0)
  {
  }

  lemma ExampleMove1()
    ensures OrdinaryMove(1)
  {
  }

  lemma ExampleMove2()
    ensures OrdinaryMove(2)
  {
  }

  lemma ExampleMove3()
    ensures OrdinaryMove(3)
  {
  }

  lemma ExampleMove4()
    ensures OrdinaryMove(4)
  {
  }

  lemma ExampleMove5()
    ensures OrdinaryMove(5)
  {
  }

  lemma ExampleMove6()
    ensures OrdinaryMove(6)
  {
  }

  lemma ExampleMove7()
    ensures OrdinaryMove(7)
  {
  }

  lemma ExampleMove8()
    ensures OrdinaryMove(8)
  {
  }

  lemma ExampleMove9()
    ensures OrdinaryMove(9)
  {
  }

  lemma ExampleMove10()
    ensures OrdinaryMove(10)
  {
  }

  lemma ExampleMove11()
    ensures OrdinaryMove(11)
  {
  }

  lemma ExampleMove12()
    ensures OrdinaryMove(12)
  {
  }

  lemma ExampleMove13()
    ensures OrdinaryMove(13)
  {
  }

  lemma ExampleMove14()
    ensures OrdinaryMove(14)
  {
  }

  lemma ExampleMove15()
    ensures OrdinaryMove(15)
  {
  }

  lemma ExampleMove16()
    ensures OrdinaryMove(16)
  {
  }

  lemma ExampleMove17()
    ensures OrdinaryMove(17)
  {
  }

  lemma ExampleMove18()
    ensures OrdinaryMove(18)
  {
  }

  lemma ExampleMove19()
    ensures OrdinaryMove(19)
  {
  }

  lemma ExampleMove20()
    ensures OrdinaryMove(20)
  {
  }

  lemma ExampleMove21()
    ensures OrdinaryMove(21)
  {
  }

  lemma ExampleMove23()
    ensures OrdinaryMove(23)
  {
    ExampleInsertion();
  }

  lemma ExampleMove24()
    ensures OrdinaryMove(24)
  {
  }

  /** Marble 23 of the example is kept by player 5, with marble 9, seven
      places counter-clockwise of marble 22. */
  lemma ExampleMove22()
    ensures ExampleFits(22) && IsSpecial(23) && |ExampleRing(22)| >= 7
    ensures var i := TakeIndex(|ExampleRing(22)|, ExampleIndex(22));
            && i == ExampleIndex(23) && ExampleRing(22)[i] == 9
            && ExampleRing(23) == Removed(ExampleRing(22), i)
    ensures PlayerAfter(9, ExamplePlayer(22)) == 5 == ExamplePlayer(23)
  {
    assert TakeIndex(|ExampleRing(22)|, ExampleIndex(22)) == 6;
    ExampleRemoval();
  }

  /** Marble 9 leaves the drawn circle. */
  lemma ExampleRemoval()
    ensures ExampleRing(23) == Removed(ExampleRing(22), 6)
  {
  }

  /** Marble 24 joins the drawn circle. */
  lemma ExampleInsertion()
    ensures ExampleRing(24) == Inserted(ExampleRing(23), 8, 24)
  {
  }

  lemma ExampleStep0(start: map<nat, nat>)
    ensures Fits(25, ExampleState(start, 0))
    ensures Step(25, 9, ExampleState(start, 0)) == Some(ExampleState(start, 1))
  {
    ExampleMove0();
    OrdinaryStepIs(25, 9, ExampleState(start, 0));
  }

  lemma ExampleStep1(start: map<nat, nat>)
    ensures Fits(25, ExampleState(start, 1))
    ensures Step(25, 9, ExampleState(start, 1)) == Some(ExampleState(start, 2))
  {
    ExampleMove1();
    OrdinaryStepIs(25, 9, ExampleState(start, 1));
  }

  lemma ExampleStep2(start: map<nat, nat>)
    ensures Fits(25, ExampleState(start, 2))
    ensures Step(25, 9, ExampleState(start, 2)) == Some(ExampleState(start, 3))
  {
    ExampleMove2();
    OrdinaryStepIs(25, 9, ExampleState(start, 2));
  }

  lemma ExampleStep3(start: map<nat, nat>)
    ensures Fits(25, ExampleState(start, 3))
    ensures Step(25, 9, ExampleState(start, 3)) == Some(ExampleState(start, 4))
  {
    ExampleMove3();
    OrdinaryStepIs(25, 9, ExampleState(start, 3));
  }

  lemma ExampleStep4(start: map<nat, nat>)
    ensures Fits(25, ExampleState(start, 4))
    ensures Step(25, 9, ExampleState(start, 4)) == Some(ExampleState(start, 5))
  {
    ExampleMove4();
    OrdinaryStepIs(25, 9, ExampleState(start, 4));
  }

  lemma ExampleStep5(start: map<nat, nat>)
    ensures Fits(25, ExampleState(start, 5))
    ensures Step(25, 9, ExampleState(start, 5)) == Some(ExampleState(start, 6))
  {
    ExampleMove5();
    OrdinaryStepIs(25, 9, ExampleState(start, 5));
  }

  lemma ExampleStep6(start: map<nat, nat>)
    ensures Fits(25, ExampleState(start, 6))
    ensures Step(25, 9, ExampleState(start, 6)) == Some(ExampleState(start, 7))
  {
    ExampleMove6();
    OrdinaryStepIs(25, 9, ExampleState(start, 6));
  }

  lemma ExampleStep7(start: map<nat, nat>)
    ensures Fits(25, ExampleState(start, 7))
    ensures Step(25, 9, ExampleState(start, 7)) == Some(ExampleState(start, 8))
  {
    ExampleMove7();
    OrdinaryStepIs(25, 9, ExampleState(start, 7));
  }

  lemma ExampleStep8(start: map<nat, nat>)
    ensures Fits(25, ExampleState(start, 8))
    ensures Step(25, 9, ExampleState(start, 8)) == Some(ExampleState(start, 9))
  {
    ExampleMove8();
    OrdinaryStepIs(25, 9, ExampleState(start, 8));
  }

  lemma ExampleStep9(start: map<nat, nat>)
    ensures Fits(25, ExampleState(start, 9))
    ensures Step(25, 9, ExampleState(start, 9)) == Some(ExampleState(start, 10))
  {
    ExampleMove9();
    OrdinaryStepIs(25, 9, ExampleState(start, 9));
  }

  lemma ExampleStep10(start: map<nat, nat>)
    ensures Fits(25, ExampleState(start, 10))
    ensures Step(25, 9, ExampleState(start, 10)) == Some(ExampleState(start, 11))
  {
    ExampleMove10();
    OrdinaryStepIs(25, 9, ExampleState(start, 10));
  }

  lemma ExampleStep11(start: map<nat, nat>)
    ensures Fits(25, ExampleState(start, 11))
    ensures Step(25, 9, ExampleState(start, 11)) == Some(ExampleState(start, 12))
  {
    ExampleMove11();
    OrdinaryStepIs(25, 9, ExampleState(start, 11));
  }

  lemma ExampleStep12(start: map<nat, nat>)
    ensures Fits(25, ExampleState(start, 12))
    ensures Step(25, 9, ExampleState(start, 12)) == Some(ExampleState(start, 13))
  {
    ExampleMove12();
    OrdinaryStepIs(25, 9, ExampleState(start, 12));
  }

  lemma ExampleStep13(start: map<nat, nat>)
    ensures Fits(25, ExampleState(start, 13))
    ensures Step(25, 9, ExampleState(start, 13)) == Some(ExampleState(start, 14))
  {
    ExampleMove13();
    OrdinaryStepIs(25, 9, ExampleState(start, 13));
  }

  lemma ExampleStep14(start: map<nat, nat>)
    ensures Fits(25, ExampleState(start, 14))
    ensures Step(25, 9, ExampleState(start, 14)) == Some(ExampleState(start, 15))
  {
    ExampleMove14();
    OrdinaryStepIs(25, 9, ExampleState(start, 14));
  }

  lemma ExampleStep15(start: map<nat, nat>)
    ensures Fits(25, ExampleState(start, 15))
    ensures Step(25, 9, ExampleState(start, 15)) == Some(ExampleState(start, 16))
  {
    ExampleMove15();
    OrdinaryStepIs(25, 9, ExampleState(start, 15));
  }

  lemma ExampleStep16(start: map<nat, nat>)
    ensures Fits(25, ExampleState(start, 16))
    ensures Step(25, 9, ExampleState(start, 16)) == Some(ExampleState(start, 17))
  {
    ExampleMove16();
    OrdinaryStepIs(25, 9, ExampleState(start, 16));
  }

  lemma ExampleStep17(start: map<nat, nat>)
    ensures Fits(25, ExampleState(start, 17))
    ensures Step(25, 9, ExampleState(start, 17)) == Some(ExampleState(start, 18))
  {
    ExampleMove17();
    OrdinaryStepIs(25, 9, ExampleState(start, 17));
  }

  lemma ExampleStep18(start: map<nat, nat>)
    ensures Fits(25, ExampleState(start, 18))
    ensures Step(25, 9, ExampleState(start, 18)) == Some(ExampleState(start, 19))
  {
    ExampleMove18();
    OrdinaryStepIs(25, 9, ExampleState(start, 18));
  }

  lemma ExampleStep19(start: map<nat, nat>)
    ensures Fits(25, ExampleState(start, 19))
    ensures Step(25, 9, ExampleState(start, 19)) == Some(ExampleState(start, 20))
  {
    ExampleMove19();
    OrdinaryStepIs(25, 9, ExampleState(start, 19));
  }

  lemma ExampleStep20(start: map<nat, nat>)
    ensures Fits(25, ExampleState(start, 20))
    ensures Step(25, 9, ExampleState(start, 20)) == Some(ExampleState(start, 21))
  {
    ExampleMove20();
    OrdinaryStepIs(25, 9, ExampleState(start, 20));
  }

  lemma ExampleStep21(start: map<nat, nat>)
    ensures Fits(25, ExampleState(start, 21))
    ensures Step(25, 9, ExampleState(start, 21)) == Some(ExampleState(start, 22))
  {
    ExampleMove21();
    OrdinaryStepIs(25, 9, ExampleState(start, 21));
  }

  lemma ExampleStep23(start: map<nat, nat>)
    ensures Fits(25, ExampleState(start, 23))
    ensures Step(25, 9, ExampleState(start, 23)) == Some(ExampleState(start, 24))
  {
    ExampleMove23();
    OrdinaryStepIs(25, 9, ExampleState(start, 23));
  }

  lemma ExampleStep24(start: map<nat, nat>)
    ensures Fits(25, ExampleState(start, 24))
    ensures Step(25, 9, ExampleState(start, 24)) == Some(ExampleState(start, 25))
  {
    ExampleMove24();
    OrdinaryStepIs(25, 9, ExampleState(start, 24));
  }

  lemma ExampleStep22(start: map<nat, nat>)
    requires 5 in start && start[5] == 0
    ensures Fits(25, ExampleState(start, 22))
    ensures Step(25, 9, ExampleState(start, 22)) == Some(ExampleState(start, 23))
  {
    ExampleMove22();
    SpecialStep(25, 9, ExampleState(start, 22));
  }

  /** A 23rd marble, spelled out. */
  lemma SpecialStep(numMarbles: nat, numPlayers: nat, s: State)
    requires Fits(numMarbles, s) && s.marble < numMarbles && IsSpecial(s.marble + 1)
    ensures |s.ring| >= 7
    ensures var i := TakeIndex(|s.ring|, s.index);
            var p := PlayerAfter(numPlayers, s.player);
            Step(numMarbles, numPlayers, s)
            == Some(State(s.scores[p := ScoreOf(s.scores, p) + s.marble + 1 + s.ring[i]],
                          Removed(s.ring, i), i, s.marble + 1, p))
  {
    SpecialRingLength(numMarbles, s);
  }

  lemma ExampleStepAt(start: map<nat, nat>, k: nat)
    requires k < 25 && 5 in start && start[5] == 0
    ensures Fits(25, ExampleState(start, k))
    ensures Step(25, 9, ExampleState(start, k)) == Some(ExampleState(start, k + 1))
  {
    if k < 8 {
      EarlyStepAt(start, k);
    } else if k < 16 {
      MiddleStepAt(start, k);
    } else {
      LateStepAt(start, k);
    }
  }

  lemma EarlyStepAt(start: map<nat, nat>, k: nat)
    requires 0 <= k <= 7
    ensures Fits(25, ExampleState(start, k))
    ensures Step(25, 9, ExampleState(start, k)) == Some(ExampleState(start, k + 1))
  {
    if k == 0 {
      ExampleStep0(start);
    } else if k == 1 {
      ExampleStep1(start);
    } else if k == 2 {
      ExampleStep2(start);
    } else if k == 3 {
      ExampleStep3(start);
    } else if k == 4 {
      ExampleStep4(start);
    } else if k == 5 {
      ExampleStep5(start);
    } else if k == 6 {
      ExampleStep6(start);
    } else {
      ExampleStep7(start);
    }
  }

  lemma MiddleStepAt(start: map<nat, nat>, k: nat)
    requires 8 <= k <= 15
    ensures Fits(25, ExampleState(start, k))
    ensures Step(25, 9, ExampleState(start, k)) == Some(ExampleState(start, k + 1))
  {
    if k == 8 {
      ExampleStep8(start);
    } else if k == 9 {
      ExampleStep9(start);
    } else if k == 10 {
      ExampleStep10(start);
    } else if k == 11 {
      ExampleStep11(start);
    } else if k == 12 {
      ExampleStep12(start);
    } else if k == 13 {
      ExampleStep13(start);
    } else if k == 14 {
      ExampleStep14(start);
    } else {
      ExampleStep15(start);
    }
  }

  lemma LateStepAt(start: map<nat, nat>, k: nat)
    requires 16 <= k <= 24 && 5 in start && start[5] == 0
    ensures Fits(25, ExampleState(start, k))
    ensures Step(25, 9, ExampleState(start, k)) == Some(ExampleState(start, k + 1))
  {
    if k == 16 {
      ExampleStep16(start);
    } else if k == 17 {
      ExampleStep17(start);
    } else if k == 18 {
      ExampleStep18(start);
    } else if k == 19 {
      ExampleStep19(start);
    } else if k == 20 {
      ExampleStep20(start);
    } else if k == 21 {
      ExampleStep21(start);
    } else if k == 22 {
      ExampleStep22(start);
    } else if k == 23 {
      ExampleStep23(start);
    } else {
      ExampleStep24(start);
    }
  }

  /** From the `k`th marble on, the example game plays out to the drawn
      final state. */
  lemma {:induction false} ExampleRunFrom(start: map<nat, nat>, k: nat)
    requires k <= 25 && 5 in start && start[5] == 0
    ensures Fits(25, ExampleState(start, k))
    ensures Run(25, 9, ExampleState(start, k)) == ExampleState(start, 25)
    decreases 25 - k
  {
    if k < 25 {
      ExampleStepAt(start, k);
      ExampleRunFrom(start, k + 1);
    }
  }

  /** The example game, 9 players and a last marble worth 25 points, ends
      with 32 points for player 5 and none for anyone else. */
  lemma ExampleGame(numMarbles: nat, numPlayers: nat)
    requires numMarbles == 25 && numPlayers == 9
    ensures FinalScores(numMarbles, numPlayers) == InitialScores(numPlayers)[5 := 32]
  {
    var start := InitialScores(numPlayers);
    assert 5 in start && start[5] == 0;
    assert Initial(numPlayers) == ExampleState(start, 0);
    ExampleRunFrom(start, 0);
  }

  /** The example's highscore is 32. */
  lemma ExampleHighscore(numMarbles: nat, numPlayers: nat, v: nat)
    requires numMarbles == 25 && numPlayers == 9
    ensures IsHighscore(FinalScores(numMarbles, numPlayers), v) <==> v == 32
  {
    ExampleGame(numMarbles, numPlayers);
    OnlyWinner(InitialScores(numPlayers), 5, 32, v);
  }

  /** When one player has scored and nobody else has, that score is the
      highscore. */
  lemma OnlyWinner(start: map<nat, nat>, p: nat, score: nat, v: nat)
    requires p in start && forall q <- start.Keys :: start[q] == 0
    ensures IsHighscore(start[p := score], v) <==> v == score
  {
    var scores := start[p := score];
    assert p in scores && scores[p] == score;
  }
}

// Day 12: Subterranean Sustainability. A row of pots evolves like a 1-D
// cellular automaton: every pot's next state is the outcome of the first
// breeding rule whose pattern equals the window of pots centred on it. The
// row is kept padded with empty pots at both ends, and `offset` is the pot
// number of the row's first entry.
module Day12 {
  import opened Common

  datatype BreedRule = BreedRule(pattern: seq<bool>, outcome: bool)

  datatype Plantation = Plantation(plants: seq<bool>, rules: seq<BreedRule>)

  // ---------------------------------------------------------------------
  // Rules

  /** The outcome the rules give a window of pots: that of the first rule
      whose pattern equals it, or no plant when none does. */
  function Outcome(rules: seq<BreedRule>, pots: seq<bool>): bool
  {
    if rules == [] then false
    else if rules[0].pattern == pots then rules[0].outcome
    else Outcome(rules[1..], pots)
  }

  /** The first matching rule decides, and with no matching rule no plant
      grows. */
  lemma OutcomeIsFirstMatch(rules: seq<BreedRule>, pots: seq<bool>)
    ensures (forall i :: 0 <= i < |rules| ==> rules[i].pattern != pots) ==> !Outcome(rules, pots)
    ensures forall i :: 0 <= i < |rules| && rules[i].pattern == pots && (forall j :: 0 <= j < i ==> rules[j].pattern != pots)
                        ==> Outcome(rules, pots) == rules[i].outcome
  {
    if forall i :: 0 <= i < |rules| ==> rules[i].pattern != pots {
      OutcomeNoMatch(rules, pots);
    }
    forall i | 0 <= i < |rules| && rules[i].pattern == pots && (forall j :: 0 <= j < i ==> rules[j].pattern != pots)
      ensures Outcome(rules, pots) == rules[i].outcome
    {
      OutcomeFirstMatch(rules, pots, i);
    }
  }

  lemma {:induction false} OutcomeNoMatch(rules: seq<BreedRule>, pots: seq<bool>)
    requires forall i :: 0 <= i < |rules| ==> rules[i].pattern != pots
    ensures !Outcome(rules, pots)
  {
    if rules != [] {
      assert forall i :: 0 <= i < |rules| - 1 ==> rules[1..][i] == rules[i + 1];
      OutcomeNoMatch(rules[1..], pots);
    }
  }

  lemma {:induction false} OutcomeFirstMatch(rules: seq<BreedRule>, pots: seq<bool>, i: nat)
    requires i < |rules| && rules[i].pattern == pots
    requires forall j :: 0 <= j < i ==> rules[j].pattern != pots
    ensures Outcome(rules, pots) == rules[i].outcome
  {
    if i > 0 {
      assert rules[1..][i - 1] == rules[i];
      assert forall j :: 0 <= j < i - 1 ==> rules[1..][j] == rules[j + 1];
      OutcomeFirstMatch(rules[1..], pots, i - 1);
    }
  }

  /** A window of `n` empty pots. */
  function Outer(n: nat): (r: seq<bool>)
    ensures |r| == n
  {
    seq(n, _ => false)
  }

  /** A row holds no plant exactly when it equals the empty window of its length. */
  lemma OuterEmpty(row: seq<bool>)
    ensures row == Outer(|row|) <==> forall i :: 0 <= i < |row| ==> !row[i]
  {
    if forall i :: 0 <= i < |row| ==> !row[i] {
      assert row == Outer(|row|);
    }
  }

  /** The rules never make a plant out of nothing. */
  predicate BarrenStaysBarren(rules: seq<BreedRule>, patternSize: nat)
  {
    !Outcome(rules, Outer(patternSize))
  }

  // ---------------------------------------------------------------------
  // The infinite row of pots

  /** Whether pot number `p` holds a plant when `row` starts at pot `offset`. */
  predicate Alive(row: seq<bool>, offset: int, p: int)
  {
    offset <= p < offset + |row| && row[p - offset]
  }

  /** Whether pot number `p` holds a plant after `n` generations of the
      automaton on the unbounded row of pots, starting from `row` at `offset`:
      each generation gives every pot the outcome of the window of
      `patternSize` pots centred on it. */
  predicate AliveFrom(rules: seq<BreedRule>, patternSize: nat, row: seq<bool>, offset: int, n: nat, p: int)
    decreases n, 0
  {
    if n == 0 then Alive(row, offset, p)
    else Outcome(rules, Window(rules, patternSize, row, offset, n - 1, p))
  }

  /** The `patternSize` pots centred on pot `p` after `n` generations. */
  function Window(rules: seq<BreedRule>, patternSize: nat, row: seq<bool>, offset: int, n: nat, p: int): (w: seq<bool>)
    decreases n, 1
  {
    seq(patternSize, k requires 0 <= k < patternSize => AliveFrom(rules, patternSize, row, offset, n, p - patternSize / 2 + k))
  }

  /** The automaton commutes with moving the row. */
  lemma {:induction false} AliveFromShift(rules: seq<BreedRule>, patternSize: nat, row: seq<bool>, offset: int, d: int, n: nat, p: int)
    ensures AliveFrom(rules, patternSize, row, offset + d, n, p + d) == AliveFrom(rules, patternSize, row, offset, n, p)
  {
    if n > 0 {
      var w := Window(rules, patternSize, row, offset + d, n - 1, p + d);
      var w' := Window(rules, patternSize, row, offset, n - 1, p);
      forall k | 0 <= k < patternSize
        ensures w[k] == w'[k]
      {
        AliveFromShift(rules, patternSize, row, offset, d, n - 1, p - patternSize / 2 + k);
      }
      assert w == w';
    }
  }

  /** Generations add up: a row that holds what `m` generations give
      continues like the `m`-th generation. */
  lemma {:induction false} AliveFromCompose(rules: seq<BreedRule>, patternSize: nat, row: seq<bool>, offset: int,
                                            row': seq<bool>, offset': int, m: nat, k: nat, p: int)
    requires forall q :: Alive(row', offset', q) == AliveFrom(rules, patternSize, row, offset, m, q)
    ensures AliveFrom(rules, patternSize, row, offset, m + k, p) == AliveFrom(rules, patternSize, row', offset', k, p)
  {
    if k > 0 {
      var w := Window(rules, patternSize, row, offset, m + k - 1, p);
      var w' := Window(rules, patternSize, row', offset', k - 1, p);
      forall j | 0 <= j < patternSize
        ensures w[j] == w'[j]
      {
        AliveFromCompose(rules, patternSize, row, offset, row', offset', m, k - 1, p - patternSize / 2 + j);
      }
      assert w == w';
    }
  }

  /** A row that one generation only moves by `d` pots keeps moving by `d`
      pots each generation. */
  lemma {:induction false} AliveFromPeriodic(rules: seq<BreedRule>, patternSize: nat, row: seq<bool>, offset: int, d: int, k: nat, p: int)
    requires forall q :: Alive(row, offset + d, q) == AliveFrom(rules, patternSize, row, offset, 1, q)
    ensures AliveFrom(rules, patternSize, row, offset, k, p) == Alive(row, offset + k * d, p)
  {
    if k > 0 {
      AliveFromCompose(rules, patternSize, row, offset, row, offset + d, 1, k - 1, p);
      AliveFromShift(rules, patternSize, row, offset, d, k - 1, p - d);
      AliveFromPeriodic(rules, patternSize, row, offset, d, k - 1, p - d);
      assert (k - 1) * d + d == k * d;
    }
  }

  // ---------------------------------------------------------------------
  // One generation on the padded row

  /** The first and the last `patternSize` pots of the row are empty. */
  predicate Padded(row: seq<bool>, patternSize: nat)
  {
    |row| >= patternSize && row[..patternSize] == Outer(patternSize) && row[|row| - patternSize..] == Outer(patternSize)
  }

  /** The row after one generation: every full window gives its centre pot
      the rules' outcome; the pots nearer the ends than the centre keep
      their state. */
  function Breed(rules: seq<BreedRule>, patternSize: nat, row: seq<bool>): (r: seq<bool>)
    requires 1 <= patternSize <= |row|
    ensures |r| == |row|
  {
    var c := patternSize / 2;
    seq(|row|, j requires 0 <= j < |row| =>
      if c <= j <= |row| - patternSize + c then Outcome(rules, row[j - c..j - c + patternSize]) else row[j])
  }

  /** On a padded row one generation of `Breed` is one generation of the
      automaton on the unbounded row, as long as empty windows stay empty. */
  lemma BreedIsGeneration(rules: seq<BreedRule>, patternSize: nat, row: seq<bool>, offset: int, p: int)
    requires 1 <= patternSize && Padded(row, patternSize)
    requires BarrenStaysBarren(rules, patternSize)
    ensures Alive(Breed(rules, patternSize, row), offset, p) == AliveFrom(rules, patternSize, row, offset, 1, p)
  {
    var c := patternSize / 2;
    var n := |row|;
    var j := p - offset;
    var w := Window(rules, patternSize, row, offset, 0, p);
    forall k | 0 <= k < patternSize
      ensures w[k] == Alive(row, offset, p - c + k)
    {
      assert w[k] == AliveFrom(rules, patternSize, row, offset, 0, p - c + k);
    }
    assert forall i :: 0 <= i < patternSize ==> !row[i] by {
      assert forall i :: 0 <= i < patternSize ==> row[i] == row[..patternSize][i];
    }
    assert forall i :: n - patternSize <= i < n ==> !row[i] by {
      assert forall i :: n - patternSize <= i < n ==> row[i] == row[n - patternSize..][i - (n - patternSize)];
    }
    if c <= j <= n - patternSize + c {
      assert w == row[j - c..j - c + patternSize];
    } else {
      assert w == Outer(patternSize);
    }
  }
  // ---------------------------------------------------------------------
  // Padding

  /** Empty pots added in front, with the offset lowered to match, change no pot. */
  lemma AlivePrepend(row: seq<bool>, k: nat, offset: int, p: int)
    ensures Alive(Outer(k) + row, offset - k, p) == Alive(row, offset, p)
  {
    if offset <= p < offset + |row| {
      assert (Outer(k) + row)[p - (offset - k)] == row[p - offset];
    }
  }

  /** Empty pots added at the end change no pot. */
  lemma AliveAppend(row: seq<bool>, k: nat, offset: int, p: int)
    ensures Alive(row + Outer(k), offset, p) == Alive(row, offset, p)
  {
    if offset <= p < offset + |row| {
      assert (row + Outer(k))[p - offset] == row[p - offset];
    }
  }

  /** Empty pots dropped from the front, with the offset raised to match,
      change no pot. */
  lemma AliveDrop(row: seq<bool>, k: nat, offset: int, p: int)
    requires k <= |row| && forall i :: 0 <= i < k ==> !row[i]
    ensures Alive(row[k..], offset + k, p) == Alive(row, offset, p)
  {
  }

  /** Pushes empty pots until the last `patternSize` pots are empty. */
  method PadEnd(plants: seq<bool>, patternSize: nat) returns (row: seq<bool>)
    requires 1 <= patternSize <= |plants|
    ensures |plants| <= |row| <= |plants| + patternSize && row[..|plants|] == plants
    ensures row[|row| - patternSize..] == Outer(patternSize)
    ensures forall p, offset :: Alive(row, offset, p) == Alive(plants, offset, p)
  {
    row := plants;
    ghost var pushed := 0;
    while row[|row| - patternSize..] != Outer(patternSize)
      invariant pushed <= patternSize && row == plants + Outer(pushed)
      invariant pushed < patternSize || row[|row| - patternSize..] == Outer(patternSize)
      decreases patternSize - pushed
    {
      row := row + [false];
      pushed := pushed + 1;
      assert row == plants + Outer(pushed);
    }
    assert row[..|plants|] == plants;
    forall p, offset
      ensures Alive(row, offset, p) == Alive(plants, offset, p)
    {
      AliveAppend(plants, pushed, offset, p);
    }
  }

  /** Inserts empty pots in front until the first `patternSize` pots are
      empty, counting one pot down per insertion; `start` is the pot number
      of the row's first entry before. */
  method PadFront(plants: seq<bool>, patternSize: nat, start: int) returns (row: seq<bool>, offset: int)
    requires 1 <= patternSize <= |plants|
    ensures offset <= start && start - offset <= patternSize && row == Outer(start - offset) + plants
    ensures row[..patternSize] == Outer(patternSize)
    ensures plants[..patternSize] != Outer(patternSize) ==> row[patternSize] && offset < start
    ensures forall p :: Alive(row, offset, p) == Alive(plants, start, p)
  {
    row, offset := plants, start;
    while row[..patternSize] != Outer(patternSize)
      invariant offset <= start && start - offset <= patternSize && row == Outer(start - offset) + plants
      invariant offset < start ==> row[1..][..patternSize] != Outer(patternSize)
      invariant start - offset < patternSize || row[..patternSize] == Outer(patternSize)
      decreases patternSize - (start - offset)
    {
      row := [false] + row;
      offset := offset - 1;
      assert row == Outer(start - offset) + plants;
    }
    if plants[..patternSize] != Outer(patternSize) {
      var prev := row[1..];
      var i :| 0 <= i < patternSize && prev[i];
      assert row[i + 1];
      assert !(i + 1 < patternSize) by {
        assert forall j :: 0 <= j < patternSize ==> row[j] == row[..patternSize][j];
      }
    }
    forall p
      ensures Alive(row, offset, p) == Alive(plants, start, p)
    {
      AlivePrepend(plants, start - offset, start, p);
    }
  }

  /** The padding done before the first generation: empty pots at the end,
      then in front, each one in front lowering the offset by one. */
  method PadRow(plants: seq<bool>, patternSize: nat) returns (row: seq<bool>, offset: int)
    requires 1 <= patternSize <= |plants|
    ensures Padded(row, patternSize) && offset <= 0
    ensures forall p :: Alive(row, offset, p) == Alive(plants, 0, p)
  {
    var tail := PadEnd(plants, patternSize);
    row, offset := PadFront(tail, patternSize, 0);
    assert row[|row| - patternSize..] == tail[|tail| - patternSize..];
  }

  // ---------------------------------------------------------------------
  // Generations

  /** One generation: every full window of `plants` sets the pot at its
      centre, in a copy of the row. */
  method NextGeneration(rules: seq<BreedRule>, patternSize: nat, plants: seq<bool>) returns (next: seq<bool>)
    requires 1 <= patternSize <= |plants|
    ensures next == Breed(rules, patternSize, plants)
  {
    next := plants;
    var c := patternSize / 2;
    for i := 0 to |plants| - patternSize + 1
      invariant |next| == |plants|
      invariant forall j :: 0 <= j < |plants| ==>
                  next[j] == if c <= j < c + i then Outcome(rules, plants[j - c..j - c + patternSize]) else plants[j]
    {
      next := next[c + i := Outcome(rules, plants[i..i + patternSize])];
    }
  }

  /** The padding after a generation: the empty pots in front are dropped
      (`delta` counts them) and exactly `patternSize` put back, then the end
      is padded. A row without plants runs out while being dropped: the
      slice of its first `patternSize` pots panics, here `None`. */
  method Renormalise(next: seq<bool>, patternSize: nat) returns (r: Option<(seq<bool>, int)>)
    requires 1 <= patternSize <= |next|
    ensures r.None? <==> forall j :: 0 <= j < |next| ==> !next[j]
    ensures r.Some? ==> var (row, delta) := r.value;
              |row| > patternSize && Padded(row, patternSize) && row[patternSize]
              && forall p :: Alive(row, delta, p) == Alive(next, 0, p)
  {
    var row := next;
    var delta := 0;
    while true
      invariant 0 <= delta <= |next| && row == next[delta..]
      invariant forall j :: 0 <= j < delta ==> !next[j]
      invariant |row| >= patternSize || forall j :: 0 <= j < |row| ==> !row[j]
      decreases |row|
    {
      if |row| < patternSize {
        assert forall j :: delta <= j < |next| ==> next[j] == row[j - delta];
        return None;
      }
      if row[..patternSize] != Outer(patternSize) {
        break;
      }
      assert forall j :: 0 <= j < patternSize ==> !row[j] by {
        assert forall j :: 0 <= j < patternSize ==> row[j] == row[..patternSize][j];
      }
      row := row[1..];
      delta := delta + 1;
    }
    assert exists j :: 0 <= j < patternSize && row[j] by {
      OuterEmpty(row[..patternSize]);
    }
    forall p
      ensures Alive(row, delta, p) == Alive(next, 0, p)
    {
      AliveDrop(next, delta, 0, p);
    }
    var front, offset := PadFront(row, patternSize, delta);
    var padded := PadEnd(front, patternSize);
    assert padded[..patternSize] == front[..patternSize];
    r := Some((padded, offset));
  }
  /** No plant is left after `n` generations. */
  ghost predicate Extinct(rules: seq<BreedRule>, patternSize: nat, initial: seq<bool>, n: nat)
  {
    forall p :: !AliveFrom(rules, patternSize, initial, 0, n, p)
  }

  /** `row`, starting at pot `offset`, holds exactly the plants of generation
      `n` of `initial`. */
  ghost predicate IsGeneration(rules: seq<BreedRule>, patternSize: nat, initial: seq<bool>, row: seq<bool>, offset: int, n: nat)
  {
    forall p :: Alive(row, offset, p) == AliveFrom(rules, patternSize, initial, 0, n, p)
  }

  /** One generation on a padded row followed by renormalisation, whose
      dropped pots `delta` are added to the offset, continues the automaton. */
  lemma GenerationStep(rules: seq<BreedRule>, patternSize: nat, initial: seq<bool>, plants: seq<bool>, offset: int,
                       gen: nat, row: seq<bool>, delta: int)
    requires 1 <= patternSize && Padded(plants, patternSize) && BarrenStaysBarren(rules, patternSize)
    requires IsGeneration(rules, patternSize, initial, plants, offset, gen)
    requires forall q :: Alive(row, delta, q) == Alive(Breed(rules, patternSize, plants), 0, q)
    ensures IsGeneration(rules, patternSize, initial, row, offset + delta, gen + 1)
  {
    var moved, next := offset + delta, gen + 1;
    forall p
      ensures Alive(row, moved, p) == AliveFrom(rules, patternSize, initial, 0, next, p)
    {
      var bred := Breed(rules, patternSize, plants);
      assert Alive(row, delta, p - offset) == Alive(bred, 0, p - offset);
      BreedIsGeneration(rules, patternSize, plants, offset, p);
      AliveFromCompose(rules, patternSize, initial, 0, plants, offset, gen, 1, p);
    }
  }

  /** A padded row whose next generation has no plant is extinct there. */
  lemma GenerationExtinct(rules: seq<BreedRule>, patternSize: nat, initial: seq<bool>, plants: seq<bool>, offset: int, gen: nat)
    requires 1 <= patternSize && Padded(plants, patternSize) && BarrenStaysBarren(rules, patternSize)
    requires IsGeneration(rules, patternSize, initial, plants, offset, gen)
    requires forall j :: 0 <= j < |plants| ==> !Breed(rules, patternSize, plants)[j]
    ensures Extinct(rules, patternSize, initial, gen + 1)
  {
    var next := gen + 1;
    forall p
      ensures !AliveFrom(rules, patternSize, initial, 0, next, p)
    {
      BreedIsGeneration(rules, patternSize, plants, offset, p);
      AliveFromCompose(rules, patternSize, initial, 0, plants, offset, gen, 1, p);
    }
  }

  /** A generation that only moves the row by `delta` pots repeats for every
      later generation: after generation `n` the row is where `n - gen`
      moves put it. */
  lemma StableRowDrifts(rules: seq<BreedRule>, patternSize: nat, initial: seq<bool>, plants: seq<bool>, offset: int,
                        gen: nat, delta: int, n: nat)
    requires gen < n
    requires IsGeneration(rules, patternSize, initial, plants, offset, gen)
    requires IsGeneration(rules, patternSize, initial, plants, offset + delta, gen + 1)
    ensures IsGeneration(rules, patternSize, initial, plants, offset + (n - gen) * delta, n)
  {
    forall q
      ensures Alive(plants, offset + delta, q) == AliveFrom(rules, patternSize, plants, offset, 1, q)
    {
      AliveFromCompose(rules, patternSize, initial, 0, plants, offset, gen, 1, q);
    }
    forall p
      ensures Alive(plants, offset + (n - gen) * delta, p) == AliveFrom(rules, patternSize, initial, 0, n, p)
    {
      AliveFromPeriodic(rules, patternSize, plants, offset, delta, n - gen, p);
      AliveFromCompose(rules, patternSize, initial, 0, plants, offset, gen, n - gen, p);
    }
  }

  /** The size of the first rule's pattern, which all windows have. */
  function PatternSize(plantation: Plantation): nat
    requires |plantation.rules| >= 1
  {
    |plantation.rules[0].pattern|
  }

  /** `evolve_n_generations`: the row after `numGenerations` generations and
      the pot number of its first entry. When a generation reproduces the row
      it had, the rest is skipped and the offset moved on by the remaining
      generations times the last move. `None` is the panic of a row that has
      no plant left. */
  method EvolveNGenerations(plantation: Plantation, numGenerations: nat) returns (r: Option<(Plantation, int)>)
    requires |plantation.rules| >= 1 && 1 <= PatternSize(plantation) <= |plantation.plants|
    ensures r.Some? ==> r.value.0.rules == plantation.rules && Padded(r.value.0.plants, PatternSize(plantation))
    ensures r.None? ==> numGenerations > 0
    ensures BarrenStaysBarren(plantation.rules, PatternSize(plantation)) && r.Some? ==>
              IsGeneration(plantation.rules, PatternSize(plantation), plantation.plants, r.value.0.plants, r.value.1, numGenerations)
    ensures BarrenStaysBarren(plantation.rules, PatternSize(plantation)) && r.None? ==>
              exists g :: 0 < g <= numGenerations && Extinct(plantation.rules, PatternSize(plantation), plantation.plants, g)
  {
    var rules := plantation.rules;
    var patternSize := |rules[0].pattern|;
    ghost var barren := BarrenStaysBarren(rules, patternSize);
    var plants, offset := PadRow(plantation.plants, patternSize);
    assert barren ==> IsGeneration(rules, patternSize, plantation.plants, plants, offset, 0);
    for genNum := 0 to numGenerations
      invariant Padded(plants, patternSize)
      invariant barren ==> IsGeneration(rules, patternSize, plantation.plants, plants, offset, genNum)
    {
      var next := NextGeneration(rules, patternSize, plants);
      var normalised := Renormalise(next, patternSize);
      if normalised.None? {
        if barren {
          GenerationExtinct(rules, patternSize, plantation.plants, plants, offset, genNum);
        }
        return None;
      }
      var row, delta := normalised.value.0, normalised.value.1;
      if barren {
        GenerationStep(rules, patternSize, plantation.plants, plants, offset, genNum, row, delta);
      }
      ghost var before := offset;
      offset := offset + delta;
      if row == plants {
        offset := offset + (numGenerations - genNum - 1) * delta;
        if barren {
          StableRowDrifts(rules, patternSize, plantation.plants, plants, before, genNum, delta, numGenerations);
          assert offset == before + (numGenerations - genNum) * delta;
        }
        return Some((Plantation(plants, rules), offset));
      }
      plants := row;
    }
    return Some((Plantation(plants, rules), offset));
  }
  // ---------------------------------------------------------------------
  // Pot numbers

  /** `sum_of_pot_numbers`: the sum of the numbers of the planted pots. */
  function PotSum(row: seq<bool>, offset: int): (r: int)
    ensures (forall i | 0 <= i < |row| :: !row[i]) ==> r == 0
    ensures offset >= 0 ==> r >= 0
  {
    if row == [] then 0 else (if row[0] then offset else 0) + PotSum(row[1..], offset + 1)
  }

  /** The sum of the planted pot numbers from `lo` up to `hi`. */
  ghost function LineSum(row: seq<bool>, offset: int, lo: int, hi: int): int
    decreases hi - lo
  {
    if hi <= lo then 0 else (if Alive(row, offset, lo) then lo else 0) + LineSum(row, offset, lo + 1, hi)
  }

  lemma {:induction false} LineSumSame(row: seq<bool>, offset: int, row': seq<bool>, offset': int, lo: int, hi: int)
    requires forall p :: lo <= p < hi ==> Alive(row, offset, p) == Alive(row', offset', p)
    ensures LineSum(row, offset, lo, hi) == LineSum(row', offset', lo, hi)
    decreases hi - lo
  {
    if lo < hi {
      LineSumSame(row, offset, row', offset', lo + 1, hi);
    }
  }

  lemma {:induction false} LineSumEmpty(row: seq<bool>, offset: int, lo: int, hi: int)
    requires forall p :: lo <= p < hi ==> !Alive(row, offset, p)
    ensures LineSum(row, offset, lo, hi) == 0
    decreases hi - lo
  {
    if lo < hi {
      LineSumEmpty(row, offset, lo + 1, hi);
    }
  }

  lemma {:induction false} LineSumSplit(row: seq<bool>, offset: int, lo: int, mid: int, hi: int)
    requires lo <= mid <= hi
    ensures LineSum(row, offset, lo, hi) == LineSum(row, offset, lo, mid) + LineSum(row, offset, mid, hi)
    decreases mid - lo
  {
    if lo < mid {
      LineSumSplit(row, offset, lo + 1, mid, hi);
    }
  }

  /** The fold over the row is the sum over its pot numbers. */
  lemma {:induction false} PotSumIsLineSum(row: seq<bool>, offset: int)
    ensures PotSum(row, offset) == LineSum(row, offset, offset, offset + |row|)
  {
    if row != [] {
      PotSumIsLineSum(row[1..], offset + 1);
      LineSumSame(row[1..], offset + 1, row, offset, offset + 1, offset + |row|);
    }
  }

  /** The fold over the row is the sum over any span of pot numbers that
      holds the row. */
  lemma PotSumOver(row: seq<bool>, offset: int, lo: int, hi: int)
    requires lo <= offset && offset + |row| <= hi
    ensures PotSum(row, offset) == LineSum(row, offset, lo, hi)
  {
    PotSumIsLineSum(row, offset);
    LineSumSplit(row, offset, lo, offset, hi);
    LineSumSplit(row, offset, offset, offset + |row|, hi);
    LineSumEmpty(row, offset, lo, offset);
    LineSumEmpty(row, offset, offset + |row|, hi);
  }

  /** The sum depends only on which pot numbers hold plants, not on the
      padding or the offset that represent them. */
  lemma PotSumOfSameLine(row: seq<bool>, offset: int, row': seq<bool>, offset': int)
    requires forall p :: Alive(row, offset, p) == Alive(row', offset', p)
    ensures PotSum(row, offset) == PotSum(row', offset')
  {
    var lo := if offset <= offset' then offset else offset';
    var hi := if offset + |row| >= offset' + |row'| then offset + |row| else offset' + |row'|;
    PotSumOver(row, offset, lo, hi);
    PotSumOver(row', offset', lo, hi);
    LineSumSame(row, offset, row', offset', lo, hi);
  }

  /** The sum of the numbers of the planted pots after `numGenerations`;
      `None` is a panic of `evolve_n_generations`. */
  method SumOfPotNumbersAfter(plantation: Plantation, numGenerations: nat) returns (r: Option<int>)
    requires |plantation.rules| >= 1 && 1 <= PatternSize(plantation) <= |plantation.plants|
    ensures r.None? ==> numGenerations > 0
    ensures BarrenStaysBarren(plantation.rules, PatternSize(plantation)) && r.Some? ==>
              exists row, offset :: IsGeneration(plantation.rules, PatternSize(plantation), plantation.plants, row, offset, numGenerations)
                                    && r.value == PotSum(row, offset)
    ensures BarrenStaysBarren(plantation.rules, PatternSize(plantation)) && r.None? ==>
              exists g :: 0 < g <= numGenerations && Extinct(plantation.rules, PatternSize(plantation), plantation.plants, g)
  {
    var evolved := EvolveNGenerations(plantation, numGenerations);
    if evolved.None? {
      return None;
    }
    r := Some(PotSum(evolved.value.0.plants, evolved.value.1));
  }

  /** Part one: 20 generations. */
  method SumOfPotNumbersAfter20Generations(plantation: Plantation) returns (r: Option<int>)
    requires |plantation.rules| >= 1 && 1 <= PatternSize(plantation) <= |plantation.plants|
    ensures BarrenStaysBarren(plantation.rules, PatternSize(plantation)) && r.Some? ==>
              exists row, offset :: IsGeneration(plantation.rules, PatternSize(plantation), plantation.plants, row, offset, 20)
                                    && r.value == PotSum(row, offset)
    ensures BarrenStaysBarren(plantation.rules, PatternSize(plantation)) && r.None? ==>
              exists g :: 0 < g <= 20 && Extinct(plantation.rules, PatternSize(plantation), plantation.plants, g)
  {
    r := SumOfPotNumbersAfter(plantation, 20);
  }

  /** Part two: fifty billion generations. */
  method SumOfPotNumbersAfter50000000000Generations(plantation: Plantation) returns (r: Option<int>)
    requires |plantation.rules| >= 1 && 1 <= PatternSize(plantation) <= |plantation.plants|
    ensures BarrenStaysBarren(plantation.rules, PatternSize(plantation)) && r.Some? ==>
              exists row, offset :: IsGeneration(plantation.rules, PatternSize(plantation), plantation.plants, row, offset, 50_000_000_000)
                                    && r.value == PotSum(row, offset)
    ensures BarrenStaysBarren(plantation.rules, PatternSize(plantation)) && r.None? ==>
              exists g :: 0 < g <= 50_000_000_000 && Extinct(plantation.rules, PatternSize(plantation), plantation.plants, g)
  {
    r := SumOfPotNumbersAfter(plantation, 50_000_000_000);
  }

  /** Any two rows holding generation `n` give the same sum. */
  lemma GenerationSumUnique(rules: seq<BreedRule>, patternSize: nat, initial: seq<bool>, n: nat,
                            row: seq<bool>, offset: int, row': seq<bool>, offset': int)
    requires IsGeneration(rules, patternSize, initial, row, offset, n)
    requires IsGeneration(rules, patternSize, initial, row', offset', n)
    ensures PotSum(row, offset) == PotSum(row', offset')
  {
    PotSumOfSameLine(row, offset, row', offset');
  }
  // ---------------------------------------------------------------------
  // Parsing

  /** `fmt_pot`. */
  function PotChar(pot: bool): char
  {
    if pot then '#' else '.'
  }

  /** `PotRow`'s `Display`: one character per pot. */
  function ShowPots(row: seq<bool>): (s: string)
    ensures |s| == |row|
  {
    seq(|row|, i requires 0 <= i < |row| => PotChar(row[i]))
  }

  /** A string read as pots: `#` is a plant, anything else an empty pot. */
  function ReadPots(s: string): (row: seq<bool>)
    ensures |row| == |s|
  {
    seq(|s|, i requires 0 <= i < |s| => s[i] == '#')
  }

  lemma ReadShowPots(row: seq<bool>)
    ensures ReadPots(ShowPots(row)) == row
  {
  }

  /** `BreedRule`'s `Display`: the pattern, " => " and the outcome. */
  function RuleLine(rule: BreedRule): string
  {
    ShowPots(rule.pattern) + " => " + [PotChar(rule.outcome)]
  }

  /** Where the first "=>" starts, if anywhere. */
  function FindArrow(s: string): (r: Option<nat>)
    ensures r.Some? ==> r.value + 2 <= |s| && s[r.value] == '=' && s[r.value + 1] == '>'
  {
    if |s| < 2 then None
    else if s[0] == '=' && s[1] == '>' then Some(0)
    else match FindArrow(s[1..])
      case None => None
      case Some(i) => Some(i + 1)
  }

  lemma {:induction false} FindArrowAt(s: string, k: nat)
    requires k + 2 <= |s| && s[k] == '=' && s[k + 1] == '>'
    requires forall i :: 0 <= i < k ==> s[i] != '='
    ensures FindArrow(s) == Some(k)
  {
    if k > 0 {
      FindArrowAt(s[1..], k - 1);
    }
  }

  lemma {:induction false} FindArrowNone(s: string)
    requires forall i :: 0 <= i < |s| ==> s[i] != '='
    ensures FindArrow(s) == None
  {
    if |s| >= 2 {
      FindArrowNone(s[1..]);
    }
  }

  /** The first piece of `split("=>")`. */
  function BeforeArrow(s: string): string
  {
    match FindArrow(s)
    case None => s
    case Some(k) => s[..k]
  }

  /** The second piece of `split("=>")`, if there is one. */
  function AfterArrow(s: string): Option<string>
  {
    match FindArrow(s)
    case None => None
    case Some(k) => Some(BeforeArrow(s[k + 2..]))
  }

  /** A rule line: the trimmed first piece as the pattern, the first
      character of the trimmed second piece as the outcome; a missing
      second piece or an empty outcome panics. */
  function ParseRule(line: string): Option<BreedRule>
  {
    match AfterArrow(line)
    case None => None
    case Some(after) =>
      var outcome := Trim(after);
      if outcome == [] then None
      else Some(BreedRule(ReadPots(Trim(BeforeArrow(line))), outcome[0] == '#'))
  }

  /** Every rule line, or `None` at the first that panics. */
  function ParseRules(lines: seq<string>): (r: Option<seq<BreedRule>>)
    ensures r.Some? ==> |r.value| == |lines|
  {
    if lines == [] then Some([])
    else match (ParseRule(lines[0]), ParseRules(lines[1..]))
      case (Some(rule), Some(rules)) => Some([rule] + rules)
      case _ => None
  }

  /** `parse`: the initial row after the first 15 characters of the trimmed
      first line; the second line is skipped; each further line is a rule.
      `None` is a panic: no line, a first line shorter than 15 characters or
      a bad rule. */
  function Parse(input: string): Option<Plantation>
  {
    var lines := Lines(Trim(input));
    if lines == [] then None
    else
      var first := Trim(lines[0]);
      if |first| < 15 then None
      else
        var rules := ParseRules(if |lines| >= 2 then lines[2..] else []);
        if rules.None? then None else Some(Plantation(ReadPots(first[15..]), rules.value))
  }

  /** The puzzle's input format for a plantation. */
  function Format(plantation: Plantation): string
  {
    Join(["initial state: " + ShowPots(plantation.plants), ""] + RuleLines(plantation.rules), '\n')
  }

  function RuleLines(rules: seq<BreedRule>): (lines: seq<string>)
    ensures |lines| == |rules|
    ensures forall i :: 0 <= i < |rules| ==> lines[i] == RuleLine(rules[i])
  {
    seq(|rules|, i requires 0 <= i < |rules| => RuleLine(rules[i]))
  }

  lemma TrimPotsSpace(row: seq<bool>)
    ensures Trim(ShowPots(row) + " ") == ShowPots(row)
  {
    var s := ShowPots(row);
    if row == [] {
      assert s + " " == " ";
      assert TrimStart(" ") == TrimStart(" "[1..]);
    } else {
      assert TrimStart(s + " ") == s + " ";
      assert (s + " ")[..|s + " "| - 1] == s;
      assert TrimEnd(s + " ") == TrimEnd(s);
    }
  }

  /** A rule reads back from its line. */
  lemma ParseRuleLine(rule: BreedRule)
    ensures ParseRule(RuleLine(rule)) == Some(rule)
  {
    var pots := ShowPots(rule.pattern);
    var line := RuleLine(rule);
    var k := |pots| + 1;
    assert line == pots + " " + "=>" + " " + [PotChar(rule.outcome)];
    FindArrowAt(line, k);
    assert BeforeArrow(line) == pots + " ";
    var rest := line[k + 2..];
    assert rest == " " + [PotChar(rule.outcome)];
    FindArrowNone(rest);
    TrimSpaceBefore([PotChar(rule.outcome)]);
    TrimPotsSpace(rule.pattern);
    ReadShowPots(rule.pattern);
  }

  lemma {:induction false} ParseRuleLines(rules: seq<BreedRule>)
    ensures ParseRules(RuleLines(rules)) == Some(rules)
  {
    if rules != [] {
      ParseRuleLine(rules[0]);
      ParseRuleLines(rules[1..]);
      assert RuleLines(rules)[1..] == RuleLines(rules[1..]);
      assert [rules[0]] + rules[1..] == rules;
    }
  }

  /** The lines of a formatted plantation have no line feed and do not end
      with a carriage return; only the second is empty. */
  lemma FormatParts(first: string, rules: seq<BreedRule>)
    requires rules != [] && '\n' !in first && (first == [] || first[|first| - 1] != '\r')
    ensures var parts := [first, ""] + RuleLines(rules);
            parts[|parts| - 1] != [] && forall p <- parts :: '\n' !in p && (p == [] || p[|p| - 1] != '\r')
  {
    var parts := [first, ""] + RuleLines(rules);
    forall i | 0 <= i < |parts|
      ensures '\n' !in parts[i] && (parts[i] == [] || parts[i][|parts[i]| - 1] != '\r')
    {
      if i >= 2 {
        assert parts[i] == RuleLine(rules[i - 2]);
      }
    }
    assert parts[|parts| - 1] == RuleLine(rules[|rules| - 1]);
  }

  /** The formatted input comes back line by line; without rules it is
      the first line alone. */
  lemma FormatLines(first: string, rules: seq<BreedRule>)
    requires first != [] && !IsWhitespace(first[0]) && '\n' !in first && !IsWhitespace(first[|first| - 1])
    ensures var parts := [first, ""] + RuleLines(rules);
            Lines(Trim(Join(parts, '\n'))) == if rules == [] then [first] else parts
  {
    var parts := [first, ""] + RuleLines(rules);
    if rules == [] {
      assert parts[1..] == [""];
      assert Join(parts, '\n') == first + ['\n'] + "";
      assert first + ['\n'] + "" == first + ['\n'];
      TrimWhitespaceAfter(first, '\n');
      LinesJoin([first]);
    } else {
      FormatParts(first, rules);
      JoinEnds(parts, '\n');
      TrimKeeps(Join(parts, '\n'));
      LinesJoin(parts);
    }
  }

  /** `parse` reads back the formatted plantation. */
  lemma ParseFormat(plantation: Plantation)
    requires plantation.plants != []
    ensures Parse(Format(plantation)) == Some(plantation)
  {
    var prefix := "initial state: ";
    var first := prefix + ShowPots(plantation.plants);
    var parts := [first, ""] + RuleLines(plantation.rules);
    assert first[0] == 'i' && first[|first| - 1] == PotChar(plantation.plants[|plantation.plants| - 1]);
    FormatLines(first, plantation.rules);
    TrimKeeps(first);
    assert |prefix| == 15 && first[15..] == ShowPots(plantation.plants);
    ReadShowPots(plantation.plants);
    assert parts[2..] == RuleLines(plantation.rules);
    ParseRuleLines(plantation.rules);
  }

  /** An empty initial row does not read back: the trimmed first line is
      shorter than 15 characters. */
  lemma ParseFormatEmptyRow(rules: seq<BreedRule>)
    ensures Parse(Format(Plantation([], rules))).None?
  {
    var heading := "initial state:";
    var first := heading + " ";
    assert "initial state: " == first;
    assert first + ShowPots([]) == first;
    assert Format(Plantation([], rules)) == Join([first, ""] + RuleLines(rules), '\n');
    TrimWhitespaceAfter(heading, ' ');
    TrimKeeps(heading);
    FormatLines'(first, heading, rules);
    assert first == heading + [' '];
    assert |heading| == 14;
  }

  /** The lines of a formatted plantation whose first line is `heading`
      and a space. */
  lemma FormatLines'(first: string, heading: string, rules: seq<BreedRule>)
    requires heading != [] && !IsWhitespace(heading[0]) && !IsWhitespace(heading[|heading| - 1]) && '\n' !in heading
    requires first == heading + " "
    ensures var lines := Lines(Trim(Join([first, ""] + RuleLines(rules), '\n')));
            lines != [] && lines[0] == if rules == [] then heading else first
  {
    var parts := [first, ""] + RuleLines(rules);
    var input := Join(parts, '\n');
    if rules == [] {
      assert parts == [first, ""];
      assert Join(parts[1..], '\n') == "";
      assert input == heading + [' '] + ['\n'];
      assert TrimStart(input) == input;
      assert input[..|input| - 1] == heading + [' '];
      assert (heading + [' '])[..|heading|] == heading;
      assert TrimEnd(heading) == heading;
      assert TrimEnd(input) == TrimEnd(heading + [' ']);
      assert TrimEnd(heading + [' ']) == TrimEnd(heading);
      assert Trim(input) == heading;
      LinesJoin([heading]);
    } else {
      FormatParts(first, rules);
      JoinEnds(parts, '\n');
      TrimKeeps(input);
      LinesJoin(parts);
    }
  }
}

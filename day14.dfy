// Day 14: Chocolate Charts. Two Elves grow a scoreboard of recipe scores:
// each step appends the digits of the sum of their current recipes' scores,
// then each Elf steps forward one plus its recipe's score, wrapping around.
module Day14 {
  import opened Common

  // ---------------------------------------------------------------------
  // The scoreboard

  /** The scores so far and the index of each Elf's current recipe. */
  datatype Board = Board(scores: seq<nat>, elf1: nat, elf2: nat)

  /** Both Elves stand on a recipe of the board. */
  predicate ElvesOn(b: Board)
  {
    b.elf1 < |b.scores| && b.elf2 < |b.scores|
  }

  /** The recipes one sum creates: a 1 first when the sum is 10 or more,
      then the sum's last digit. */
  function NewRecipes(sum: nat): seq<nat>
  {
    (if sum >= 10 then [1] else []) + [sum % 10]
  }

  /** For two scores of one digit the new recipes are the decimal digits of
      their sum, each a digit again. */
  lemma NewRecipesAreDigits(a: nat, b: nat)
    requires a < 10 && b < 10
    ensures var r := NewRecipes(a + b);
            && (forall d <- r :: d < 10)
            && (|r| == 1 ==> r[0] == a + b)
            && (|r| == 2 ==> 10 * r[0] + r[1] == a + b)
  {
  }

  /** Where an Elf on recipe `e` with score `score` lands: one plus the
      score further on, wrapping around a board of `len` recipes. */
  function Advance(e: nat, score: nat, len: nat): (r: nat)
    requires len > 0
    ensures r < len
  {
    Wrap(e + score + 1, len)
  }

  /** `x % len`, as repeated wrapping around. */
  function Wrap(x: nat, len: nat): (r: nat)
    requires len > 0
    ensures r < len
  {
    if x < len then x else Wrap(x - len, len)
  }

  /** Wrapping around is the remainder of `%`. */
  lemma {:induction false} WrapIsMod(x: nat, len: nat)
    requires len > 0
    ensures Wrap(x, len) == x % len
  {
    if x >= len {
      WrapIsMod(x - len, len);
      var q := (x - len) / len;
      assert x == (q + 1) * len + (x - len) % len;
      DivModUnique(x, len, q + 1, (x - len) % len);
    }
  }

  /** One growth step of `Recipes::next`. */
  function Grow(b: Board): (r: Board)
    requires ElvesOn(b)
    ensures ElvesOn(r)
    ensures |b.scores| < |r.scores| <= |b.scores| + 2
  {
    var scores := b.scores + NewRecipes(b.scores[b.elf1] + b.scores[b.elf2]);
    Board(scores, Advance(b.elf1, b.scores[b.elf1], |scores|), Advance(b.elf2, b.scores[b.elf2], |scores|))
  }

  /** `Grow` field by field, as the iterator updates them. */
  lemma GrowFields(g: Board, s: seq<nat>, e1: nat, e2: nat)
    requires ElvesOn(g) && s == g.scores + NewRecipes(g.scores[g.elf1] + g.scores[g.elf2])
    requires e1 == Advance(g.elf1, s[g.elf1], |s|) && e2 == Advance(g.elf2, s[g.elf2], |s|)
    ensures Grow(g) == Board(s, e1, e2)
  {
  }

  /** The board after `n` growth steps. */
  function Grown(b: Board, n: nat): (r: Board)
    requires ElvesOn(b)
    ensures ElvesOn(r)
    ensures |r.scores| >= |b.scores| + n
  {
    if n == 0 then b else Grow(Grown(b, n - 1))
  }

  lemma GrownNext(b: Board, n: nat)
    requires ElvesOn(b)
    ensures Grown(b, n + 1) == Grow(Grown(b, n))
  {
  }

  /** A board that only holds digits grows by digits only. */
  lemma {:induction false} GrownDigits(b: Board, n: nat)
    requires ElvesOn(b) && forall d <- b.scores :: d < 10
    ensures forall d <- Grown(b, n).scores :: d < 10
  {
    if n > 0 {
      GrownDigits(b, n - 1);
      var p := Grown(b, n - 1);
      assert p.scores[p.elf1] in p.scores && p.scores[p.elf2] in p.scores;
      NewRecipesAreDigits(p.scores[p.elf1], p.scores[p.elf2]);
    }
  }

  /** Growing never changes a recipe already on the board: an earlier board
      is a prefix of a later one. */
  lemma {:induction false} GrownPrefix(b: Board, m: nat, n: nat)
    requires ElvesOn(b) && m <= n
    ensures Grown(b, m).scores <= Grown(b, n).scores
  {
    if m < n {
      GrownPrefix(b, m, n - 1);
      GrowExtends(Grown(b, n - 1));
      PrefixTrans(Grown(b, m).scores, Grown(b, n - 1).scores, Grown(b, n).scores);
    }
  }

  /** One growth step only appends. */
  lemma GrowExtends(g: Board)
    requires ElvesOn(g)
    ensures g.scores <= Grow(g).scores
  {
    var s := g.scores + NewRecipes(g.scores[g.elf1] + g.scores[g.elf2]);
    assert s[..|g.scores|] == g.scores;
  }

  lemma PrefixTrans(a: seq<nat>, b: seq<nat>, c: seq<nat>)
    requires a <= b && b <= c
    ensures a <= c
  {
    assert c[..|a|] == b[..|a|];
  }

  /** The `i`th recipe of the endless scoreboard grown from `b`. */
  ghost function Recipe(b: Board, i: nat): nat
    requires ElvesOn(b)
  {
    Grown(b, i).scores[i]
  }

  /** Every board grown from `b` holds the endless scoreboard's recipes. */
  lemma RecipeIn(b: Board, n: nat, i: nat)
    requires ElvesOn(b) && i < |Grown(b, n).scores|
    ensures Grown(b, n).scores[i] == Recipe(b, i)
  {
    if i <= n {
      GrownPrefix(b, i, n);
    } else {
      GrownPrefix(b, n, i);
    }
  }

  /** The board of `Recipes::new(3, 7)`. */
  function Start(): (b: Board)
    ensures ElvesOn(b)
  {
    Board([3, 7], 0, 1)
  }

  // ---------------------------------------------------------------------
  // The recipe iterator

  /** `Recipes`: the board, the Elves, and the index of the next recipe
      the iterator yields. */
  class Recipes {
    var sequence: seq<nat>
    var elf1: nat
    var elf2: nat
    var current: nat
    ghost const start: Board
    ghost var grown: nat

    ghost function State(): Board
      reads this
    {
      Board(sequence, elf1, elf2)
    }

    /** The board is `start` grown `grown` times, and the iterator has not
        run past it. */
    ghost predicate Valid()
      reads this
    {
      ElvesOn(start) && State() == Grown(start, grown) && current <= |sequence|
    }

    /** `Recipes::new`. */
    constructor (recipe1: nat, recipe2: nat)
      ensures Valid() && start == Board([recipe1, recipe2], 0, 1) && current == 0 && grown == 0
    {
      sequence := [recipe1, recipe2];
      elf1, elf2, current := 0, 1, 0;
      start := Board([recipe1, recipe2], 0, 1);
      grown := 0;
    }

    /** `Iterator::next`: grow the board while `current` is past its end,
        then yield the recipe at `current`. */
    method Next() returns (r: Option<nat>)
      requires Valid()
      modifies this
      ensures Valid() && current == old(current) + 1
      ensures r == Some(Recipe(start, old(current)))
      ensures old(sequence) <= sequence && |sequence| <= old(|sequence|) + 2
    {
      while current >= |sequence|
        invariant Valid() && current == old(current)
        invariant old(sequence) <= sequence && |sequence| <= old(|sequence|) + 2
        invariant |sequence| == old(|sequence|) || current < |sequence|
        decreases current + 1 - |sequence|
      {
        AddRecipes();
      }
      RecipeIn(start, grown, current);
      r := Some(sequence[current]);
      current := current + 1;
    }

    /** The body of the loop in `next`: the Elves add the digits of their
        sum, then each steps forward one plus its recipe's score. */
    method AddRecipes()
      requires Valid()
      modifies this
      ensures Valid() && current == old(current) && grown == old(grown) + 1
      ensures State() == Grow(old(State())) && old(sequence) < sequence
    {
      var sum := sequence[elf1] + sequence[elf2];
      var s := sequence;
      if sum >= 10 {
        s := s + [1];
      }
      s := s + [sum % 10];
      assert s == sequence + NewRecipes(sum);
      var e1 := Advance(elf1, s[elf1], |s|);
      var e2 := Advance(elf2, s[elf2], |s|);
      GrowFields(State(), s, e1, e2);
      GrownNext(start, grown);
      sequence, elf1, elf2, grown := s, e1, e2, grown + 1;
    }
  }

  /** `recipes.take(n)` collected: the next `n` recipes. */
  method Take(recipes: Recipes, n: nat) returns (s: seq<nat>)
    requires recipes.Valid()
    modifies recipes
    ensures recipes.Valid() && recipes.current == old(recipes.current) + n
    ensures |s| == n && forall i | 0 <= i < n :: s[i] == Recipe(recipes.start, old(recipes.current) + i)
  {
    s := [];
    for i := 0 to n
      invariant recipes.Valid() && recipes.current == old(recipes.current) + i
      invariant |s| == i && forall j | 0 <= j < i :: s[j] == Recipe(recipes.start, old(recipes.current) + j)
    {
      var next := recipes.Next();
      s := s + [next.value];
    }
  }

  // ---------------------------------------------------------------------
  // Part 1

  /** `score_seq_after_num_recipes`: the ten scores after the number of
      recipes the input names; `Err` is its panic on input that is not a
      `usize`. */
  method ScoreSeqAfterNumRecipes(input: string) returns (r: Result<seq<nat>>)
    ensures r.Err? <==> ParseInt(Trim(input), 0, U64_MAX).None?
    ensures r.Ok? ==> var n := ParseInt(Trim(input), 0, U64_MAX).value;
                      |r.value| == 10 && forall i | 0 <= i < 10 :: r.value[i] == Recipe(Start(), n + i)
  {
    var parsed := ParseInt(Trim(input), 0, U64_MAX);
    if parsed.None? {
      return Err("not a valid integer");
    }
    var numRecipes: nat := parsed.value;
    var numScores := 10;
    var recipes := new Recipes(3, 7);
    var scoreboard := Take(recipes, numRecipes + numScores);
    r := Ok(scoreboard[numRecipes..numRecipes + numScores]);
  }

  // ---------------------------------------------------------------------
  // Part 2

  /** The scores a string of decimal digits names. */
  function DigitsOf(s: string): seq<nat>
    requires AllDigits(s)
  {
    seq(|s|, i requires 0 <= i < |s| => DigitValue(s[i]))
  }

  /** The digit characters of a sequence of one-digit scores. */
  function ShowScores(ds: seq<nat>): string
    requires forall i | 0 <= i < |ds| :: ds[i] < 10
  {
    seq(|ds|, i requires 0 <= i < |ds| => DigitChar(ds[i]))
  }

  /** Reading the digits back gives the scores, and showing the scores of
      a digit string gives the string. */
  lemma DigitsOfShowScores(ds: seq<nat>, s: string)
    requires forall i | 0 <= i < |ds| :: ds[i] < 10
    requires AllDigits(s)
    ensures AllDigits(ShowScores(ds)) && DigitsOf(ShowScores(ds)) == ds
    ensures forall d <- DigitsOf(s) :: d < 10
    ensures ShowScores(DigitsOf(s)) == s
  {
    var t := ShowScores(ds);
    assert forall i | 0 <= i < |t| :: IsDigit(t[i]) && DigitValue(t[i]) == ds[i];
    var u := DigitsOf(s);
    assert forall i | 0 <= i < |u| :: u[i] == DigitValue(s[i]) && DigitChar(u[i]) == s[i];
  }

  /** `ScoreSeq::from_str`: one score per character, `Err` at the first
      character that is not a decimal digit. */
  method ParseScoreSeq(s: string) returns (r: Result<seq<nat>>)
    ensures r.Ok? <==> AllDigits(s)
    ensures r.Ok? ==> r.value == DigitsOf(s)
  {
    var digits: seq<nat> := [];
    for i := 0 to |s|
      invariant |digits| == i && forall j | 0 <= j < i :: IsDigit(s[j]) && digits[j] == DigitValue(s[j])
    {
      if !IsDigit(s[i]) {
        assert s[i] in s;
        return Err("not a number");
      }
      digits := digits + [DigitValue(s[i])];
    }
    return Ok(digits);
  }

  /** The scores `p` stand on the endless scoreboard from index `k` on. */
  ghost predicate Occurs(b: Board, p: seq<nat>, k: nat)
    requires ElvesOn(b)
  {
    forall i | k <= i < k + |p| :: Recipe(b, i) == p[i - k]
  }

  /** Some board grown from `b` holds exactly `n` recipes. */
  ghost predicate LengthReached(b: Board, n: nat)
    requires ElvesOn(b)
  {
    exists m :: |Grown(b, m).scores| == n
  }

  /** Comparing a window of a grown board is asking whether the scores
      stand there on the endless scoreboard. */
  lemma WindowOccurs(b: Board, n: nat, s: seq<nat>, offset: nat, p: seq<nat>)
    requires ElvesOn(b) && s == Grown(b, n).scores && offset + |p| <= |s|
    ensures s[offset..offset + |p|] == p <==> Occurs(b, p, offset)
  {
    var w := s[offset..offset + |p|];
    forall i | offset <= i < offset + |p|
      ensures w[i - offset] == Recipe(b, i)
    {
      RecipeIn(b, n, i);
    }
    if Occurs(b, p, offset) {
      forall j | 0 <= j < |p|
        ensures w[j] == p[j]
      {
        assert w[(offset + j) - offset] == Recipe(b, offset + j);
      }
    }
  }

  /** No window of `s` from `lo` on that ends two or more recipes before
      its end holds `p`. */
  predicate NoWindow(s: seq<nat>, p: seq<nat>, lo: nat)
  {
    forall j | lo <= j && j + |p| + 2 <= |s| :: !WindowAt(s, p, j)
  }

  /** The window of `s` at `j` holds `p`. */
  predicate WindowAt(s: seq<nat>, p: seq<nat>, j: nat)
  {
    j + |p| <= |s| && s[j..j + |p|] == p
  }

  /** No window of `s` from `lo` on holds `p`. */
  predicate Absent(s: seq<nat>, p: seq<nat>, lo: nat)
  {
    forall j | lo <= j && j + |p| <= |s| :: !WindowAt(s, p, j)
  }

  /** When neither of the last two windows (from `lo` on) holds `p`,
      no window from `lo` on does. */
  lemma LastWindowsMiss(s: seq<nat>, p: seq<nat>, lo: nat)
    requires NoWindow(s, p, lo)
    requires |s| >= |p| + lo ==> s[|s| - |p|..] != p
    requires |s| >= |p| + lo + 1 ==> s[|s| - |p| - 1..|s| - 1] != p
    ensures Absent(s, p, lo)
  {
    forall j | lo <= j && j + |p| <= |s|
      ensures !WindowAt(s, p, j)
    {
      if j + |p| + 2 <= |s| {
        assert !WindowAt(s, p, j);
      } else if j == |s| - |p| {
        assert s[j..j + |p|] == s[|s| - |p|..];
      } else {
        assert j == |s| - |p| - 1;
      }
    }
  }

  /** One round of the search: a board at most two recipes longer than
      one in which `p` is absent holds it in neither of its last two
      windows alone. */
  lemma AbsentGrows(s: seq<nat>, s': seq<nat>, p: seq<nat>, lo: nat)
    requires Absent(s, p, lo) && s <= s' && |s'| <= |s| + 2
    ensures NoWindow(s', p, lo)
  {
    forall j | lo <= j && j + |p| + 2 <= |s'|
      ensures !WindowAt(s', p, j)
    {
      assert s'[j..j + |p|] == s[j..j + |p|];
      assert !WindowAt(s, p, j);
    }
  }

  /** The scores `p`, which stand at `k`, still lie ahead of a board none
      of whose windows holds them. */
  lemma AheadOf(b: Board, p: seq<nat>, lo: nat, s: seq<nat>, g: nat, k: nat)
    requires ElvesOn(b) && s == Grown(b, g).scores && NoWindow(s, p, lo)
    requires lo <= k && Occurs(b, p, k)
    ensures |s| < k + |p| + 2
  {
    if k + |p| + 2 <= |s| {
      WindowOccurs(b, g, s, k, p);
      assert WindowAt(s, p, k);
    }
  }

  /** `p` found in one of the last two windows of a board: it stands there,
      and not at any alignment from `lo` on whose window ends two or more
      recipes before the end of the board. */
  lemma FoundAt(b: Board, p: seq<nat>, lo: nat, s: seq<nat>, g: nat, r: nat)
    requires ElvesOn(b) && s == Grown(b, g).scores && NoWindow(s, p, lo)
    requires r + |p| <= |s| <= r + |p| + 1 && s[r..r + |p|] == p
    ensures Occurs(b, p, r)
    ensures forall j | lo <= j < r - 1 :: !Occurs(b, p, j)
  {
    WindowOccurs(b, g, s, r, p);
    forall j | lo <= j < r - 1
      ensures !Occurs(b, p, j)
    {
      assert !WindowAt(s, p, j);
      WindowOccurs(b, g, s, j, p);
    }
  }

  /** `p` found in the last window of a grown board: it stands there, and
      not at any alignment from `lo` on before the one preceding it. */
  lemma FoundAtEnd(b: Board, p: seq<nat>, lo: nat, s: seq<nat>, g: nat)
    requires ElvesOn(b) && s == Grown(b, g).scores && NoWindow(s, p, lo)
    requires |s| >= |p| && s[|s| - |p|..] == p
    ensures Occurs(b, p, |s| - |p|)
    ensures forall j | lo <= j < |s| - |p| - 1 :: !Occurs(b, p, j)
  {
    assert s[|s| - |p|..|s|] == s[|s| - |p|..];
    FoundAt(b, p, lo, s, g, |s| - |p|);
  }

  /** As `FoundAtEnd`, when the window before the last did not hold `p`:
      then `p` stands nowhere earlier from `lo` on. */
  lemma FoundFirstAtEnd(b: Board, p: seq<nat>, lo: nat, s: seq<nat>, g: nat)
    requires ElvesOn(b) && s == Grown(b, g).scores && NoWindow(s, p, lo)
    requires |s| >= |p| && s[|s| - |p|..] == p
    requires |s| >= |p| + lo + 1 ==> s[|s| - |p| - 1..|s| - 1] != p
    ensures Occurs(b, p, |s| - |p|)
    ensures forall j | lo <= j < |s| - |p| :: !Occurs(b, p, j)
  {
    FoundAtEnd(b, p, lo, s, g);
    if |s| >= |p| + lo + 1 {
      MissedAt(b, p, s, g, |s| - |p| - 1);
    }
  }

  /** `p` found in the window before the last: it stands there and nowhere
      earlier from `lo` on. */
  lemma FoundBeforeEnd(b: Board, p: seq<nat>, lo: nat, s: seq<nat>, g: nat)
    requires ElvesOn(b) && s == Grown(b, g).scores && NoWindow(s, p, lo)
    requires |s| >= |p| + 1 && s[|s| - |p| - 1..|s| - 1] == p
    ensures Occurs(b, p, |s| - |p| - 1)
    ensures forall j | lo <= j < |s| - |p| - 1 :: !Occurs(b, p, j)
  {
    var r := |s| - |p| - 1;
    FoundAt(b, p, lo, s, g, r);
    if lo + 1 <= r {
      assert !WindowAt(s, p, r - 1);
      MissedAt(b, p, s, g, r - 1);
    }
  }

  /** A window of a grown board that does not hold `p` is an alignment
      where `p` does not stand. */
  lemma MissedAt(b: Board, p: seq<nat>, s: seq<nat>, g: nat, j: nat)
    requires ElvesOn(b) && s == Grown(b, g).scores && j + |p| <= |s|
    requires s[j..j + |p|] != p
    ensures !Occurs(b, p, j)
  {
    WindowOccurs(b, g, s, j, p);
  }

  /** The comparisons in the loop of `num_needed_recipes` as written: once
      the board holds more recipes than `p`, the last alignment, then the
      one before it. */
  method MatchAtEndAsWritten(sequence: seq<nat>, p: seq<nat>, ghost b: Board, ghost g: nat) returns (found: Option<nat>)
    requires ElvesOn(b) && sequence == Grown(b, g).scores && NoWindow(sequence, p, 1)
    ensures found.Some? ==> Occurs(b, p, found.value) && forall j | 1 <= j < found.value - 1 :: !Occurs(b, p, j)
    ensures found == Some(0) ==> |sequence| == |p| + 1
    ensures found.None? ==> Absent(sequence, p, 1)
  {
    var seqLen := |sequence|;
    if seqLen > |p| {
      var offset := seqLen - |p|;
      if sequence[offset..] == p {
        FoundAtEnd(b, p, 1, sequence, g);
        return Some(offset);
      }
      if sequence[offset - 1..seqLen - 1] == p {
        FoundBeforeEnd(b, p, 1, sequence, g);
        return Some(offset - 1);
      }
    }
    LastWindowsMiss(sequence, p, 1);
    return None;
  }

  /** The search loop of `num_needed_recipes` as written: compare, and
      otherwise ask for the next recipe. The loop runs until it finds `p`,
      so the source demands that `p` stand somewhere after the first
      recipe, at `k`, where the loop is sure to see it. */
  method FindScoresAsWritten(p: seq<nat>, ghost k: nat) returns (r: nat)
    requires k >= 1 && Occurs(Start(), p, k)
    ensures Occurs(Start(), p, r)
    ensures forall j | 1 <= j < r - 1 :: !Occurs(Start(), p, j)
    ensures r == 0 ==> LengthReached(Start(), |p| + 1)
  {
    var recipes := new Recipes(3, 7);
    while true
      invariant fresh(recipes) && recipes.Valid() && recipes.start == Start()
      invariant NoWindow(recipes.sequence, p, 1) && |recipes.sequence| < k + |p| + 2
      decreases 2 * (k + |p| + 2) - |recipes.sequence| - recipes.current
    {
      var sequence := recipes.sequence;
      var found := MatchAtEndAsWritten(sequence, p, recipes.start, recipes.grown);
      if found.Some? {
        assert |Grown(recipes.start, recipes.grown).scores| == |sequence|;
        return found.value;
      }
      var _ := recipes.Next();
      AbsentGrows(sequence, recipes.sequence, p, 1);
      AheadOf(recipes.start, p, 1, recipes.sequence, recipes.grown, k);
    }
  }

  /** The comparisons as evidently meant: the empty digit string stands
      first at 0; otherwise the alignment at the start of a board no longer
      than `p` is compared too, and the earlier of the last two alignments
      first, so that the first place `p` stands is reported. */
  method MatchAtEnd(sequence: seq<nat>, p: seq<nat>, ghost b: Board, ghost g: nat) returns (found: Option<nat>)
    requires ElvesOn(b) && sequence == Grown(b, g).scores && (|p| > 0 ==> NoWindow(sequence, p, 0))
    ensures found.Some? ==> Occurs(b, p, found.value)
    ensures found.Some? ==> forall j | 0 <= j < found.value :: !Occurs(b, p, j)
    ensures found.None? ==> |p| > 0 && Absent(sequence, p, 0)
  {
    if |p| == 0 {
      return Some(0);
    }
    var seqLen := |sequence|;
    if seqLen >= |p| {
      var offset := seqLen - |p|;
      if offset >= 1 && sequence[offset - 1..seqLen - 1] == p {
        FoundBeforeEnd(b, p, 0, sequence, g);
        return Some(offset - 1);
      }
      if sequence[offset..] == p {
        FoundFirstAtEnd(b, p, 0, sequence, g);
        return Some(offset);
      }
    }
    LastWindowsMiss(sequence, p, 0);
    return None;
  }

  /** The search loop as evidently meant. */
  method FindScores(p: seq<nat>, ghost k: nat) returns (r: nat)
    requires Occurs(Start(), p, k)
    ensures Occurs(Start(), p, r)
    ensures forall j | 0 <= j < r :: !Occurs(Start(), p, j)
  {
    if |p| == 0 {
      return 0;
    }
    var recipes := new Recipes(3, 7);
    while true
      invariant fresh(recipes) && recipes.Valid() && recipes.start == Start()
      invariant NoWindow(recipes.sequence, p, 0)
      invariant |recipes.sequence| < k + |p| + 2
      decreases 2 * (k + |p| + 2) - |recipes.sequence| - recipes.current
    {
      var sequence := recipes.sequence;
      var found := MatchAtEnd(sequence, p, recipes.start, recipes.grown);
      if found.Some? {
        return found.value;
      }
      var _ := recipes.Next();
      AbsentGrows(sequence, recipes.sequence, p, 0);
      AheadOf(recipes.start, p, 0, recipes.sequence, recipes.grown, k);
    }
  }

  /** `num_needed_recipes`: the number of recipes before the input's digits
      first stand on the scoreboard; `Err` is its panic on a character that
      is not a digit. */
  method NumNeededRecipes(input: string) returns (r: Result<nat>)
    requires AllDigits(Trim(input)) ==> exists k :: Occurs(Start(), DigitsOf(Trim(input)), k)
    ensures r.Err? <==> !AllDigits(Trim(input))
    ensures r.Ok? ==> var p := DigitsOf(Trim(input));
                      Occurs(Start(), p, r.value) && forall j | 0 <= j < r.value :: !Occurs(Start(), p, j)
  {
    var scoreSeq := ParseScoreSeq(Trim(input));
    if scoreSeq.Err? {
      return Err("not a valid integer");
    }
    ghost var k :| Occurs(Start(), scoreSeq.value, k);
    var n := FindScores(scoreSeq.value, k);
    r := Ok(n);
  }

  /** The digits 3, 7 open the scoreboard, yet no board ever holds three
      recipes: the first step already gives four. The as-written search
      reports offset 0 only from a board one longer than the digits, so it
      never reports where 3, 7 first stand. */
  lemma AsWrittenMissesStart()
    ensures Occurs(Start(), [3, 7], 0)
    ensures !LengthReached(Start(), 3)
  {
    RecipeIn(Start(), 0, 0);
    RecipeIn(Start(), 0, 1);
    forall m: nat
      ensures |Grown(Start(), m).scores| != 3
    {
      if m > 0 {
        GrownNext(Start(), 0);
        assert Grown(Start(), 1).scores == [3, 7, 1, 0];
        GrownPrefix(Start(), 1, m);
      }
    }
  }

  // ---------------------------------------------------------------------
  // The examples of the puzzle text

  /** One step from a board known to be the `n`th one. */
  lemma GrownStep(b: Board, n: nat, g: Board, h: Board)
    requires ElvesOn(b) && ElvesOn(g) && Grown(b, n) == g && Grow(g) == h
    ensures Grown(b, n + 1) == h
  {
    GrownNext(b, n);
  }

  /** The board after five steps. */
  lemma FifthBoard()
    ensures Grown(Start(), 5) == Board([3, 7, 1, 0, 1, 0, 1, 2, 4], 4, 8)
  {
    var b := Start();
    WrapIsMod(4, 4);
    WrapIsMod(9, 4);
    WrapIsMod(9, 6);
    WrapIsMod(8, 8);
    GrownStep(b, 0, Board([3, 7], 0, 1), Board([3, 7, 1, 0], 0, 1));
    GrownStep(b, 1, Board([3, 7, 1, 0], 0, 1), Board([3, 7, 1, 0, 1, 0], 4, 3));
    GrownStep(b, 2, Board([3, 7, 1, 0, 1, 0], 4, 3), Board([3, 7, 1, 0, 1, 0, 1], 6, 4));
    GrownStep(b, 3, Board([3, 7, 1, 0, 1, 0, 1], 6, 4), Board([3, 7, 1, 0, 1, 0, 1, 2], 0, 6));
    GrownStep(b, 4, Board([3, 7, 1, 0, 1, 0, 1, 2], 0, 6), Board([3, 7, 1, 0, 1, 0, 1, 2, 4], 4, 8));
  }

  /** The first nine recipes on the scoreboard, which five steps produce. */
  lemma FirstRecipes()
    ensures forall i | 0 <= i < 9 :: Recipe(Start(), i) == [3, 7, 1, 0, 1, 0, 1, 2, 4][i]
  {
    FifthBoard();
    forall i | 0 <= i < 9
      ensures Recipe(Start(), i) == [3, 7, 1, 0, 1, 0, 1, 2, 4][i]
    {
      RecipeIn(Start(), 5, i);
    }
  }
}

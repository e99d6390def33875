// Day 1: Chronal Calibration. A list of frequency changes, their sum, and
// the first running total that is reached twice when the list is repeated.
module Day01 {
  import opened Common

  /** One trimmed line as an `i32`. */
  function ParseLine(line: string): (r: Option<int>)
    ensures r.Some? ==> I32_MIN <= r.value <= I32_MAX
  {
    ParseInt(Trim(line), I32_MIN, I32_MAX)
  }

  /** The non-empty lines as changes; `None` is the source's panic on a bad line. */
  function ParseChanges(lines: seq<string>): (r: Option<seq<int>>)
    ensures r.Some? ==> |r.value| <= |lines|
    ensures r.Some? ==> forall x <- r.value :: I32_MIN <= x <= I32_MAX
    ensures r.None? <==> exists l <- lines :: l != "" && ParseLine(l).None?
  {
    if lines == [] then Some([])
    else
      var rest := ParseChanges(lines[1..]);
      if lines[0] == "" then rest
      else match ParseLine(lines[0])
        case None => None
        case Some(v) => if rest.None? then None else Some([v] + rest.value)
  }

  /** `parse`: every non-empty line, trimmed, is an `i32` change. */
  function Parse(input: string): (r: Option<seq<int>>)
    ensures r.None? <==> exists l <- Lines(input) :: l != "" && ParseLine(l).None?
    ensures r.Some? ==> forall x <- r.value :: I32_MIN <= x <= I32_MAX
  {
    ParseChanges(Lines(input))
  }

  lemma ExampleLines()
    ensures Lines("1\n -2\n3 \n1") == ["1", " -2", "3 ", "1"]
  {
    var parts := ["1", " -2", "3 ", "1"];
    assert Join(parts, '\n') == "1\n -2\n3 \n1" by {
      assert parts[1..] == [" -2", "3 ", "1"];
      assert parts[2..] == ["3 ", "1"];
      assert parts[3..] == ["1"];
    }
    SplitJoin(parts, '\n');
    assert StripCarriageReturn("1") == "1";
    assert StripCarriageReturn(" -2") == " -2";
    assert StripCarriageReturn("3 ") == "3 ";
  }

  lemma ParseChangesCons(lines: seq<string>, v: int, vs: seq<int>)
    requires |lines| > 0 && lines[0] != "" && ParseLine(lines[0]) == Some(v)
    requires ParseChanges(lines[1..]) == Some(vs)
    ensures ParseChanges(lines) == Some([v] + vs)
  {
  }

  lemma ExampleLineValues()
    ensures ParseLine("1") == Some(1)
    ensures ParseLine("3 ") == Some(3)
    ensures ParseLine(" -2") == Some(-2)
  {
    assert Trim("3 ") == "3";
    assert Trim(" -2") == "-2";
    assert "-2"[1..] == "2";
  }

  lemma ExampleChanges()
    ensures ParseChanges(["1", " -2", "3 ", "1"]) == Some([1, -2, 3, 1])
  {
    ExampleLineValues();
    var l3 := ["1"];
    assert l3[0] == "1" && l3[1..] == [];
    ParseChangesCons(l3, 1, []);
    assert [1] + [] == [1];
    var l2 := ["3 ", "1"];
    assert l2[0] == "3 " && l2[1..] == l3;
    ParseChangesCons(l2, 3, [1]);
    assert [3] + [1] == [3, 1];
    var l1 := [" -2", "3 ", "1"];
    assert l1[0] == " -2" && l1[1..] == l2;
    ParseChangesCons(l1, -2, [3, 1]);
    assert [-2] + [3, 1] == [-2, 3, 1];
    var l0 := ["1", " -2", "3 ", "1"];
    assert l0[0] == "1" && l0[1..] == l1;
    ParseChangesCons(l0, 1, [-2, 3, 1]);
    assert [1] + [-2, 3, 1] == [1, -2, 3, 1];
  }

  lemma ParseExample()
    ensures Parse("1\n -2\n3 \n1") == Some([1, -2, 3, 1])
  {
    ExampleLines();
    ExampleChanges();
  }

  /** The changes written one per line, as `Display` writes an `i32`. */
  function ShowChanges(changes: seq<int>): (lines: seq<string>)
    ensures |lines| == |changes|
  {
    if changes == [] then [] else [ShowInt(changes[0])] + ShowChanges(changes[1..])
  }

  /** A displayed change is a non-empty line of a minus sign and digits,
      which reads back as the change. */
  lemma ShowChange(v: int)
    requires I32_MIN <= v <= I32_MAX
    ensures ShowInt(v) != "" && '\n' !in ShowInt(v) && ShowInt(v)[|ShowInt(v)| - 1] != '\r'
    ensures ParseLine(ShowInt(v)) == Some(v)
  {
    var s := ShowInt(v);
    TrimKeeps(s);
    ParseShowInt(v, I32_MIN, I32_MAX);
    if v < 0 {
      assert forall c <- s :: c == '-' || c in ShowNat(-v);
    }
  }

  /** Changes in the `i32` range, shown one per line, parse back to
      themselves, in order. */
  lemma {:induction false} ParseChangesShown(changes: seq<int>)
    requires forall x <- changes :: I32_MIN <= x <= I32_MAX
    ensures ParseChanges(ShowChanges(changes)) == Some(changes)
    ensures forall l <- ShowChanges(changes) :: l != "" && '\n' !in l && l[|l| - 1] != '\r'
  {
    if changes != [] {
      assert changes[0] in changes;
      ShowChange(changes[0]);
      assert forall x <- changes[1..] :: x in changes;
      ParseChangesShown(changes[1..]);
      var lines := ShowChanges(changes);
      assert lines[1..] == ShowChanges(changes[1..]);
      ParseChangesCons(lines, changes[0], changes[1..]);
      assert [changes[0]] + changes[1..] == changes;
    }
  }

  /** `parse` reads back the input that lists the changes one per line:
      the values are the lines' numbers, in order. */
  lemma ParseRoundTrip(changes: seq<int>)
    requires forall x <- changes :: I32_MIN <= x <= I32_MAX
    ensures changes == [] ==> Parse("") == Some([])
    ensures changes != [] ==> Parse(Join(ShowChanges(changes), '\n')) == Some(changes)
  {
    if changes == [] {
      assert Lines("") == [];
    } else {
      ParseChangesShown(changes);
      LinesJoin(ShowChanges(changes));
    }
  }

  /** `accumulate`: the changes applied one after the other to a frequency
      starting at 0; it is the sum of the changes. */
  function Accumulate(changes: seq<int>): (f: int)
    ensures f == Sum(changes)
  {
    if changes == [] then 0
    else
      var init := changes[..|changes| - 1];
      assert changes == init + [changes[|changes| - 1]];
      SumAppend(init, [changes[|changes| - 1]]);
      Accumulate(init) + changes[|changes| - 1]
  }

  /** The four examples of the puzzle text. */
  lemma AccumulateExamples()
    ensures Accumulate([1, -2, 3, 1]) == 3
    ensures Accumulate([1, 1, 1]) == 3
    ensures Accumulate([1, 1, -2]) == 0
    ensures Accumulate([-1, -2, -3]) == -6
  {
  }

  // ---------------------------------------------------------------------
  // Calibration

  /** The index in the list of the change applied after `k` earlier changes. */
  ghost function Pos(n: nat, k: nat): (p: nat)
    requires n > 0
    ensures p < n
  {
    if k == 0 then 0 else if Pos(n, k - 1) + 1 == n then 0 else Pos(n, k - 1) + 1
  }

  /** The running total after `k` changes of the endlessly repeated list. */
  ghost function Freq(changes: seq<int>, k: nat): int
    requires |changes| > 0
  {
    if k == 0 then 0 else Freq(changes, k - 1) + changes[Pos(|changes|, k - 1)]
  }

  /** The totals seen after 0..=k changes. */
  ghost function Seen(changes: seq<int>, k: nat): (s: set<int>)
    requires |changes| > 0
  {
    (if k == 0 then {} else Seen(changes, k - 1)) + {Freq(changes, k)}
  }

  lemma SeenExactly(changes: seq<int>, k: nat, x: int)
    requires |changes| > 0
    ensures x in Seen(changes, k) <==> exists j :: 0 <= j <= k && Freq(changes, j) == x
  {
    if x in Seen(changes, k) {
      var j := SeenWhen(changes, k, x);
    }
    if exists j :: 0 <= j <= k && Freq(changes, j) == x {
      var j :| 0 <= j <= k && Freq(changes, j) == x;
      SeenAll(changes, k, j);
    }
  }

  lemma {:induction false} SeenAll(changes: seq<int>, k: nat, j: nat)
    requires |changes| > 0 && j <= k
    ensures Freq(changes, j) in Seen(changes, k)
  {
    if j < k {
      SeenAll(changes, k - 1, j);
    }
  }

  lemma {:induction false} SeenWhen(changes: seq<int>, k: nat, x: int) returns (j: nat)
    requires |changes| > 0 && x in Seen(changes, k)
    ensures j <= k && Freq(changes, j) == x
  {
    if x == Freq(changes, k) {
      j := k;
    } else {
      j := SeenWhen(changes, k - 1, x);
    }
  }

  /** No total repeats among the first `k + 1` totals. */
  ghost predicate NoRepeatUpTo(changes: seq<int>, k: nat)
    requires |changes| > 0
  {
    forall i, j :: 0 <= i < j <= k ==> Freq(changes, i) != Freq(changes, j)
  }

  /** The total after `n` changes equals an earlier one. */
  ghost predicate RepeatsAt(changes: seq<int>, n: nat)
    requires |changes| > 0
  {
    exists m :: 0 <= m < n && Freq(changes, m) == Freq(changes, n)
  }

  /** `n` is the first step whose total was seen before. */
  ghost predicate FirstRepeat(changes: seq<int>, n: nat)
    requires |changes| > 0
  {
    RepeatsAt(changes, n) && n > 0 && NoRepeatUpTo(changes, n - 1)
  }

  /** The source loops forever unless some total repeats, so that is required. */
  ghost predicate EventuallyRepeats(changes: seq<int>)
  {
    |changes| > 0 && exists n: nat :: RepeatsAt(changes, n)
  }

  lemma RepeatIsLater(changes: seq<int>, k: nat, n: nat)
    requires |changes| > 0
    requires NoRepeatUpTo(changes, k) && RepeatsAt(changes, n)
    ensures k < n
  {
  }

  /** `calibrate`: the first total reached twice, counting the initial 0. */
  method Calibrate(changes: seq<int>) returns (f: int)
    requires EventuallyRepeats(changes)
    ensures exists n :: FirstRepeat(changes, n) && f == Freq(changes, n)
  {
    ghost var bound: nat :| RepeatsAt(changes, bound);
    var history: set<int> := {0};
    var accumulated := 0;
    ghost var steps: nat := 0;
    while true
      invariant accumulated == Freq(changes, steps)
      invariant history == Seen(changes, steps)
      invariant NoRepeatUpTo(changes, steps)
      invariant steps < bound
      invariant Pos(|changes|, steps) == 0
      decreases bound - steps
    {
      var i := 0;
      ghost var start := steps;
      while i < |changes|
        invariant 0 <= i <= |changes|
        invariant steps == start + i
        invariant Pos(|changes|, steps) == if i == |changes| then 0 else i
        invariant accumulated == Freq(changes, steps)
        invariant history == Seen(changes, steps)
        invariant NoRepeatUpTo(changes, steps)
        invariant steps < bound
      {
        accumulated := accumulated + changes[i];
        CalibrateStep(changes, steps, history, accumulated, bound);
        steps := steps + 1;
        if accumulated in history {
          assert FirstRepeat(changes, steps);
          return accumulated;
        }
        history := history + {accumulated};
        i := i + 1;
      }
    }
  }

  /** One change of `calibrate`: the new total either was seen before, and
      then this is the first repeat, or it joins the history. */
  lemma CalibrateStep(changes: seq<int>, steps: nat, history: set<int>, accumulated: int, bound: nat)
    requires |changes| > 0 && RepeatsAt(changes, bound) && steps < bound
    requires history == Seen(changes, steps) && NoRepeatUpTo(changes, steps)
    requires accumulated == Freq(changes, steps + 1)
    ensures accumulated in history ==> FirstRepeat(changes, steps + 1)
    ensures accumulated !in history ==>
              && history + {accumulated} == Seen(changes, steps + 1)
              && NoRepeatUpTo(changes, steps + 1)
              && steps + 1 < bound
  {
    SeenExactly(changes, steps, accumulated);
    if accumulated in history {
      assert RepeatsAt(changes, steps + 1);
    } else {
      RepeatIsLater(changes, steps + 1, bound);
    }
  }

  /** The first repeat is unique, so `Calibrate`'s result is determined. */
  lemma {:induction false} FirstRepeatUnique(changes: seq<int>, n1: nat, n2: nat)
    requires |changes| > 0
    requires FirstRepeat(changes, n1) && FirstRepeat(changes, n2)
    ensures n1 == n2
  {
  }

  /** Example: [+1, -2, +3, +1] first reaches 2 twice (totals 0 1 -1 2 3 4 2). */
  lemma CalibrateExample1(n: nat)
    requires FirstRepeat([1, -2, 3, 1], n)
    ensures Freq([1, -2, 3, 1], n) == 2
  {
    var c := [1, -2, 3, 1];
    assert Freq(c, 1) == 1 && Freq(c, 2) == -1 && Freq(c, 3) == 2;
    assert Freq(c, 4) == 3 && Freq(c, 5) == 4 && Freq(c, 6) == 2;
    assert FirstRepeat(c, 6) by {
      assert RepeatsAt(c, 6) by { assert Freq(c, 3) == Freq(c, 6); }
    }
    FirstRepeatUnique(c, n, 6);
  }

  /** Example: [+1, -1] first reaches 0 twice. */
  lemma CalibrateExample2(n: nat)
    requires FirstRepeat([1, -1], n)
    ensures Freq([1, -1], n) == 0
  {
    var c := [1, -1];
    assert Freq(c, 1) == 1 && Freq(c, 2) == 0;
    assert FirstRepeat(c, 2) by {
      assert RepeatsAt(c, 2) by { assert Freq(c, 0) == Freq(c, 2); }
    }
    FirstRepeatUnique(c, n, 2);
  }

  /** After one pass over the list, the running total is `accumulate`'s result. */
  lemma {:induction false} OnePassIsAccumulate(changes: seq<int>, k: nat)
    requires 0 < |changes| && k <= |changes|
    ensures Freq(changes, k) == Accumulate(changes[..k])
  {
    if k > 0 {
      OnePassIsAccumulate(changes, k - 1);
      PosIsMod(|changes|, k - 1);
      DivModUnique(k - 1, |changes|, 0, k - 1);
      var prefix := changes[..k];
      assert prefix[..k - 1] == changes[..k - 1];
      assert Accumulate(prefix) == Accumulate(changes[..k - 1]) + changes[k - 1];
    }
  }

  /** The change applied after `k` earlier ones is number `k` modulo the
      length of the list. */
  lemma {:induction false} PosIsMod(n: nat, k: nat)
    requires n > 0
    ensures Pos(n, k) == k % n
  {
    if k > 0 {
      PosIsMod(n, k - 1);
      ModNext(n, k - 1);
    }
  }

  /** Counting on by one wraps the remainder around at `n`. */
  lemma ModNext(n: nat, k: nat)
    requires n > 0
    ensures (k + 1) % n == if k % n + 1 == n then 0 else k % n + 1
  {
    var q, r := k / n, k % n;
    if r + 1 == n {
      DivModUnique(k + 1, n, q + 1, 0);
    } else {
      DivModUnique(k + 1, n, q, r + 1);
    }
  }

  /** A table of running totals that follows the repeated changes, has no
      repeat before step `n` and repeats at `n`, gives the first repeat. */
  lemma TableRepeat(changes: seq<int>, totals: seq<int>, n: nat)
    requires |changes| > 0 && |totals| == n + 1 && totals[0] == 0
    requires forall k :: 0 <= k < n ==> totals[k + 1] == totals[k] + changes[k % |changes|]
    requires forall i, j :: 0 <= i < j < n ==> totals[i] != totals[j]
    requires exists m :: 0 <= m < n && totals[m] == totals[n]
    ensures FirstRepeat(changes, n) && Freq(changes, n) == totals[n]
  {
    forall k | 0 <= k <= n
      ensures Freq(changes, k) == totals[k]
    {
      TableFreq(changes, totals, n, k);
    }
  }

  lemma {:induction false} TableFreq(changes: seq<int>, totals: seq<int>, n: nat, k: nat)
    requires |changes| > 0 && |totals| == n + 1 && totals[0] == 0 && k <= n
    requires forall k :: 0 <= k < n ==> totals[k + 1] == totals[k] + changes[k % |changes|]
    ensures Freq(changes, k) == totals[k]
  {
    if k > 0 {
      TableFreq(changes, totals, n, k - 1);
      PosIsMod(|changes|, k - 1);
    }
  }

  /** Example: [+3, +3, +4, -2, -4] first reaches 10 twice. */
  lemma CalibrateExample3(n: nat)
    requires FirstRepeat([3, 3, 4, -2, -4], n)
    ensures Freq([3, 3, 4, -2, -4], n) == 10
  {
    var c := [3, 3, 4, -2, -4];
    var totals := [0, 3, 6, 10, 8, 4, 7, 10];
    assert totals[3] == totals[7];
    TableRepeat(c, totals, 7);
    FirstRepeatUnique(c, n, 7);
  }

  /** Example: [-6, +3, +8, +5, -6] first reaches 5 twice. */
  lemma CalibrateExample4(n: nat)
    requires FirstRepeat([-6, 3, 8, 5, -6], n)
    ensures Freq([-6, 3, 8, 5, -6], n) == 5
  {
    var c := [-6, 3, 8, 5, -6];
    var totals := [0, -6, -3, 5, 10, 4, -2, 1, 9, 14, 8, 2, 5];
    assert totals[3] == totals[12];
    TableRepeat(c, totals, 12);
    FirstRepeatUnique(c, n, 12);
  }

  /** Example: [+7, +7, -2, -7, -4] first reaches 14 twice. */
  lemma CalibrateExample5(n: nat)
    requires FirstRepeat([7, 7, -2, -7, -4], n)
    ensures Freq([7, 7, -2, -7, -4], n) == 14
  {
    var c := [7, 7, -2, -7, -4];
    var totals := [0, 7, 14, 12, 5, 1, 8, 15, 13, 6, 2, 9, 16, 14];
    assert totals[2] == totals[13];
    TableRepeat(c, totals, 13);
    FirstRepeatUnique(c, n, 13);
  }
}

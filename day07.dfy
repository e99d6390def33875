// Day 7: The Sum of Its Parts. Steps with prerequisites are executed one at
// a time, always taking the alphabetically first step whose prerequisites are
// all done.
module Day07 {
  import opened Common

  /** The prerequisite relation: each step with the steps it waits for. */
  type Plan = map<char, set<char>>

  /** `add_prerequisite` on a value: `prior` joins `id`'s set, and `prior`
      becomes a step of its own if it is not one yet. */
  function WithPrerequisite(plan: Plan, id: char, prior: char): (r: Plan)
    ensures r.Keys == plan.Keys + {id, prior}
    ensures r[id] == (if id in plan then plan[id] else {}) + {prior}
    ensures forall k <- r.Keys :: k != id ==> r[k] == if k in plan then plan[k] else {}
  {
    var withPrior := plan[id := (if id in plan then plan[id] else {}) + {prior}];
    withPrior[prior := if prior in withPrior then withPrior[prior] else {}]
  }

  /** The plan one instance holds; `AddPrerequisite` and `Insert` change it in place. */
  class ExecutionPlan {
    var priorMap: Plan

    constructor ()
      ensures priorMap == map[]
    {
      priorMap := map[];
    }

    /** `insert`: the step's prerequisites are replaced. */
    method Insert(id: char, prerequisites: set<char>)
      modifies this
      ensures priorMap == old(priorMap)[id := prerequisites]
    {
      priorMap := priorMap[id := prerequisites];
    }

    method AddPrerequisite(id: char, prior: char)
      modifies this
      ensures priorMap == WithPrerequisite(old(priorMap), id, prior)
    {
      var set' := if id in priorMap then priorMap[id] else {};
      priorMap := priorMap[id := set' + {prior}];
      if prior !in priorMap {
        priorMap := priorMap[prior := {}];
      }
    }

    /** `prerequisites`; `None` where the source panics on a missing step. */
    function Prerequisites(id: char): (r: Option<set<char>>)
      reads this
      ensures r.Some? <==> id in priorMap
      ensures r.Some? ==> r.value == priorMap[id]
    {
      if id in priorMap then Some(priorMap[id]) else None
    }

    function Len(): (n: nat)
      reads this
      ensures n == |priorMap.Keys|
    {
      |priorMap|
    }
  }

  // ---------------------------------------------------------------------
  // Parsing

  /** One instruction line: the prerequisite is the character at index 5
      and the step the one at index 36; a shorter line is the source's panic. */
  function ParseLine(line: string): (r: Option<(char, char)>)
    ensures r.Some? <==> |line| >= 37
    ensures r.Some? ==> r.value == (line[36], line[5])
  {
    if |line| < 37 then None else Some((line[36], line[5]))
  }

  /** The puzzle's sentence. */
  function StepLine(prior: char, id: char): string
  {
    "Step " + [prior] + " must be finished before step " + [id] + " can begin."
  }

  lemma ParseStepLine(prior: char, id: char)
    ensures ParseLine(StepLine(prior, id)) == Some((id, prior))
  {
  }

  /** The plan built by adding every (step, prerequisite) pair in order. */
  function PlanOf(pairs: seq<(char, char)>): (plan: Plan)
  {
    if pairs == [] then map[]
    else WithPrerequisite(PlanOf(pairs[..|pairs| - 1]), pairs[|pairs| - 1].0, pairs[|pairs| - 1].1)
  }

  /** Every pair is recorded: both characters are steps, and the second is a
      prerequisite of the first. */
  lemma {:induction false} PlanOfRecords(pairs: seq<(char, char)>)
    ensures forall p <- pairs :: p.0 in PlanOf(pairs) && p.1 in PlanOf(pairs) && p.1 in PlanOf(pairs)[p.0]
  {
    if pairs != [] {
      var init := pairs[..|pairs| - 1];
      PlanOfRecords(init);
      assert forall p <- pairs :: p == pairs[|pairs| - 1] || p in init;
    }
  }

  /** The steps of the plan are exactly the characters the pairs mention. */
  lemma {:induction false} PlanOfSteps(pairs: seq<(char, char)>)
    ensures PlanOf(pairs).Keys == (set p <- pairs :: p.0) + (set p <- pairs :: p.1)
  {
    if pairs != [] {
      var init, last := pairs[..|pairs| - 1], pairs[|pairs| - 1];
      PlanOfSteps(init);
      assert pairs == init + [last];
      assert (set p <- pairs :: p.0) == (set p <- init :: p.0) + {last.0};
      assert (set p <- pairs :: p.1) == (set p <- init :: p.1) + {last.1};
    }
  }

  /** Every prerequisite in the plan comes from the pair naming it. */
  lemma {:induction false} PlanOfPrerequisitesFromPairs(pairs: seq<(char, char)>)
    ensures forall k <- PlanOf(pairs).Keys, q <- PlanOf(pairs)[k] :: (k, q) in pairs
  {
    if pairs != [] {
      var init, last := pairs[..|pairs| - 1], pairs[|pairs| - 1];
      PlanOfPrerequisitesFromPairs(init);
      var before := PlanOf(init);
      forall k <- PlanOf(pairs).Keys, q <- PlanOf(pairs)[k] ensures (k, q) in pairs {
        if (k, q) != last {
          assert k in before && q in before[k];
          assert (k, q) in init;
        }
      }
    }
  }

  /** `parse`: every line of the trimmed input adds one prerequisite. */
  method Parse(input: string) returns (r: Option<ExecutionPlan>)
    ensures r.Some? ==> fresh(r.value)
    ensures match ParseLines(Lines(Trim(input)))
            case None => r.None?
            case Some(pairs) => r.Some? && r.value.priorMap == PlanOf(pairs)
  {
    var lines := Lines(Trim(input));
    var plan := new ExecutionPlan();
    var pairs: seq<(char, char)> := [];
    for i := 0 to |lines|
      invariant ParseLines(lines[..i]) == Some(pairs)
      invariant plan.priorMap == PlanOf(pairs)
    {
      var parsed := ParseLine(lines[i]);
      if parsed.None? {
        ParseLinesFails(lines, i);
        return None;
      }
      var (id, prior) := parsed.value;
      plan.AddPrerequisite(id, prior);
      ParseLinesStep(lines, i, pairs);
      pairs := pairs + [(id, prior)];
    }
    assert lines[..|lines|] == lines;
    return Some(plan);
  }

  /** Every line parsed, in order; `None` if any line is too short. */
  function ParseLines(lines: seq<string>): (r: Option<seq<(char, char)>>)
    ensures r.Some? ==> |r.value| == |lines|
  {
    if lines == [] then Some([])
    else
      match (ParseLines(lines[..|lines| - 1]), ParseLine(lines[|lines| - 1]))
      case (Some(ps), Some(p)) => Some(ps + [p])
      case _ => None
  }

  /** When every line parses, the pairs are the lines' pairs in order. */
  lemma {:induction false} ParseLinesAll(lines: seq<string>)
    requires forall i :: 0 <= i < |lines| ==> ParseLine(lines[i]).Some?
    ensures ParseLines(lines).Some?
    ensures forall i :: 0 <= i < |lines| ==> ParseLines(lines).value[i] == ParseLine(lines[i]).value
  {
    if lines != [] {
      var init := lines[..|lines| - 1];
      ParseLinesAll(init);
    }
  }

  /** One more line that parses: its pair joins the pairs, and the plan
      gains it. */
  lemma ParseLinesStep(lines: seq<string>, i: nat, pairs: seq<(char, char)>)
    requires i < |lines| && ParseLines(lines[..i]) == Some(pairs) && ParseLine(lines[i]).Some?
    ensures ParseLines(lines[..i + 1]) == Some(pairs + [ParseLine(lines[i]).value])
    ensures var p := ParseLine(lines[i]).value;
            PlanOf(pairs + [p]) == WithPrerequisite(PlanOf(pairs), p.0, p.1)
  {
    assert lines[..i + 1][..i] == lines[..i];
    var p := ParseLine(lines[i]).value;
    assert (pairs + [p])[..|pairs|] == pairs;
  }

  lemma {:induction false} ParseLinesFails(lines: seq<string>, i: nat)
    requires i < |lines| && ParseLine(lines[i]).None?
    ensures ParseLines(lines).None?
    decreases |lines|
  {
    if i < |lines| - 1 {
      assert lines[..|lines| - 1][i] == lines[i];
      ParseLinesFails(lines[..|lines| - 1], i);
    }
  }

  // ---------------------------------------------------------------------
  // The order of execution

  /** The steps that are not done and whose prerequisites all are. */
  function Ready(todo: Plan, done: set<char>): (r: set<char>)
    ensures r <= todo.Keys
  {
    set id | id in todo && id !in done && todo[id] <= done
  }

  predicate IsLeast(c: char, s: set<char>)
  {
    c in s && forall d <- s :: c <= d
  }

  lemma {:induction false} LeastExists(s: set<char>)
    requires s != {}
    ensures exists c :: IsLeast(c, s)
    decreases |s|
  {
    var x :| x in s;
    if s == {x} {
      assert IsLeast(x, s);
    } else {
      LeastExists(s - {x});
      var c :| IsLeast(c, s - {x});
      assert forall d <- s :: d == x || d in s - {x};
      if x < c {
        assert IsLeast(x, s);
      } else {
        assert IsLeast(c, s);
      }
    }
  }

  lemma LeastUnique(a: char, b: char, s: set<char>)
    requires IsLeast(a, s) && IsLeast(b, s)
    ensures a == b
  {
  }

  /** Marking a ready step done leaves fewer steps to do. */
  lemma Progress(todo: Plan, done: set<char>, m: char)
    requires m in Ready(todo, done)
    ensures |todo.Keys - (done + {m})| < |todo.Keys - done|
  {
    assert todo.Keys - (done + {m}) == (todo.Keys - done) - {m};
  }

  /** The steps the iterator yields from `done` on, in order: the least ready
      step, then the order from there with that step done. */
  ghost function OrderFrom(todo: Plan, done: set<char>): (o: string)
    decreases |todo.Keys - done|
  {
    var ready := Ready(todo, done);
    if ready == {} then []
    else
      LeastExists(ready);
      var m :| IsLeast(m, ready);
      Progress(todo, done, m);
      [m] + OrderFrom(todo, done + {m})
  }

  /** `InOrder`: the iterator over a plan, remembering the steps done. */
  class InOrder {
    const todo: Plan
    var done: set<char>

    constructor (todo: Plan)
      ensures this.todo == todo && done == {}
    {
      this.todo := todo;
      done := {};
    }

    /** `next`: the least ready step, which becomes done; `None` when no step is ready. */
    method Next() returns (r: Option<char>)
      modifies this
      ensures r.None? <==> Ready(todo, old(done)) == {}
      ensures r.Some? ==> IsLeast(r.value, Ready(todo, old(done))) && done == old(done) + {r.value}
      ensures r.None? ==> done == old(done)
    {
      var ready := set id | id in todo && id !in done && todo[id] <= done;
      assert ready == Ready(todo, done);
      if ready == {} {
        return None;
      }
      var least :| least in ready;
      var seen, rest := {least}, ready - {least};
      while rest != {}
        invariant seen + rest == ready && least in seen
        invariant forall d <- seen :: least <= d
        decreases |rest|
      {
        var c :| c in rest;
        if c < least {
          least := c;
        }
        seen, rest := seen + {c}, rest - {c};
      }
      done := done + {least};
      return Some(least);
    }
  }

  /** `execution_order`: everything the iterator yields, as a string. */
  method ExecutionOrder(plan: ExecutionPlan) returns (order: string)
    ensures order == OrderFrom(plan.priorMap, {})
  {
    var it := new InOrder(plan.priorMap);
    order := [];
    while true
      invariant it.todo == plan.priorMap
      invariant order + OrderFrom(it.todo, it.done) == OrderFrom(plan.priorMap, {})
      decreases |it.todo.Keys - it.done|
    {
      ghost var before := it.done;
      var next := it.Next();
      if next.None? {
        return;
      }
      var m := next.value;
      OrderStep(it.todo, before, m);
      Progress(it.todo, before, m);
      order := order + [m];
    }
  }

  // ---------------------------------------------------------------------
  // Properties of the order

  /** No step is yielded twice, only steps of the plan are yielded, and none
      that was already done. */
  lemma {:induction false} OrderDistinct(todo: Plan, done: set<char>)
    ensures forall i, j :: 0 <= i < j < |OrderFrom(todo, done)| ==> OrderFrom(todo, done)[i] != OrderFrom(todo, done)[j]
    ensures forall c <- OrderFrom(todo, done) :: c in todo && c !in done
    decreases |todo.Keys - done|
  {
    var ready := Ready(todo, done);
    if ready != {} {
      var o := OrderFrom(todo, done);
      var m := o[0];
      assert IsLeast(m, ready) && o[1..] == OrderFrom(todo, done + {m});
      Progress(todo, done, m);
      OrderDistinct(todo, done + {m});
      forall i, j | 0 <= i < j < |o| ensures o[i] != o[j] {
        if i > 0 {
          assert o[i] == o[1..][i - 1] && o[j] == o[1..][j - 1];
        } else {
          assert o[j] == o[1..][j - 1];
          assert o[j] in o[1..];
        }
      }
      forall c <- o ensures c in todo && c !in done {
        if c != m {
          assert c in o[1..];
        }
      }
    }
  }

  /** Every yielded step has all its prerequisites done or yielded earlier. */
  lemma {:induction false} OrderRespectsPrerequisites(todo: Plan, done: set<char>)
    ensures forall i :: 0 <= i < |OrderFrom(todo, done)| ==>
      OrderFrom(todo, done)[i] in todo && todo[OrderFrom(todo, done)[i]] <= done + set j | 0 <= j < i :: OrderFrom(todo, done)[j]
    decreases |todo.Keys - done|
  {
    var ready := Ready(todo, done);
    if ready != {} {
      var o := OrderFrom(todo, done);
      var m := o[0];
      assert IsLeast(m, ready) && o[1..] == OrderFrom(todo, done + {m});
      Progress(todo, done, m);
      OrderRespectsPrerequisites(todo, done + {m});
      forall i | 0 <= i < |o|
        ensures o[i] in todo && todo[o[i]] <= done + set j | 0 <= j < i :: o[j]
      {
        if i > 0 {
          var t := o[1..];
          assert o[i] == t[i - 1];
          assert (done + {m}) + (set j | 0 <= j < i - 1 :: t[j]) <= done + set j | 0 <= j < i :: o[j] by {
            forall j | 0 <= j < i - 1 ensures t[j] in set j | 0 <= j < i :: o[j] {
              assert t[j] == o[j + 1];
            }
            assert o[0] in set j | 0 <= j < i :: o[j];
          }
        }
      }
    }
  }

  /** When the iteration ends, no step is left ready: everything yielded or
      done leaves no remaining step with all its prerequisites met. */
  lemma {:induction false} OrderStopsWhenNothingReady(todo: Plan, done: set<char>)
    ensures Ready(todo, done + set c | c in OrderFrom(todo, done)) == {}
    decreases |todo.Keys - done|
  {
    var ready := Ready(todo, done);
    if ready == {} {
      OrderStopsAtOnce(todo, done);
    } else {
      LeastExists(ready);
      var m :| IsLeast(m, ready);
      Progress(todo, done, m);
      OrderStopsWhenNothingReady(todo, done + {m});
      OrderStopsLater(todo, done, m);
    }
  }

  lemma OrderStopsAtOnce(todo: Plan, done: set<char>)
    requires Ready(todo, done) == {}
    ensures Ready(todo, done + set c | c in OrderFrom(todo, done)) == {}
  {
    var o := OrderFrom(todo, done);
    assert o == [];
    assert done + (set c | c in o) == done;
  }

  lemma OrderStopsLater(todo: Plan, done: set<char>, m: char)
    requires IsLeast(m, Ready(todo, done))
    requires Ready(todo, (done + {m}) + set c | c in OrderFrom(todo, done + {m})) == {}
    ensures Ready(todo, done + set c | c in OrderFrom(todo, done)) == {}
  {
    OrderStep(todo, done, m);
    CharsOfCons(done, OrderFrom(todo, done));
  }

  /** The characters of a nonempty string: its first and those of the rest. */
  lemma CharsOfCons(done: set<char>, o: string)
    requires o != []
    ensures (done + {o[0]}) + (set c | c in o[1..]) == done + set c | c in o
  {
    assert forall c :: c in o <==> c == o[0] || c in o[1..];
  }

  /** A set of steps each of which waits for another step of the set (a
      dependency cycle, or anything behind one). */
  predicate Blocked(todo: Plan, cycle: set<char>)
  {
    forall c <- cycle :: c in todo && exists d <- todo[c] :: d in cycle
  }

  /** No step of a blocked set is among the first `i` yielded. */
  lemma {:induction false} CycleNotInPrefix(todo: Plan, done: set<char>, cycle: set<char>, i: nat)
    requires Blocked(todo, cycle) && cycle !! done && i <= |OrderFrom(todo, done)|
    ensures forall j :: 0 <= j < i ==> OrderFrom(todo, done)[j] !in cycle
  {
    if i > 0 {
      var o := OrderFrom(todo, done);
      CycleNotInPrefix(todo, done, cycle, i - 1);
      OrderRespectsPrerequisites(todo, done);
      var before := done + set j | 0 <= j < i - 1 :: o[j];
      assert o[i - 1] in todo && todo[o[i - 1]] <= before;
      forall d <- todo[o[i - 1]] ensures d !in cycle {
        if d !in done {
          var j :| 0 <= j < i - 1 && o[j] == d;
        }
      }
    }
  }

  /** Steps on a dependency cycle are never yielded, unless some are done already. */
  lemma CycleNeverYielded(todo: Plan, done: set<char>, cycle: set<char>)
    requires Blocked(todo, cycle) && cycle !! done
    ensures forall c <- OrderFrom(todo, done) :: c !in cycle
  {
    CycleNotInPrefix(todo, done, cycle, |OrderFrom(todo, done)|);
  }

  // ---------------------------------------------------------------------
  // Example

  function ExamplePairs(): seq<(char, char)>
  {
    [('A', 'C'), ('F', 'C'), ('B', 'A'), ('D', 'A'), ('E', 'B'), ('E', 'D'), ('E', 'F')]
  }

  function ExamplePlan(): Plan
  {
    map['C' := {}, 'A' := {'C'}, 'F' := {'C'}, 'B' := {'A'}, 'D' := {'A'}, 'E' := {'B', 'D', 'F'}]
  }

  lemma PlanOfSnoc(pairs: seq<(char, char)>, k: nat)
    requires k < |pairs|
    ensures PlanOf(pairs[..k + 1]) == WithPrerequisite(PlanOf(pairs[..k]), pairs[k].0, pairs[k].1)
  {
    assert pairs[..k + 1][..k] == pairs[..k];
  }

  /** One more pair whose prerequisite is already a step. */
  lemma PlanOfKnownPrior(pairs: seq<(char, char)>, k: nat, before: Plan, id: char, prior: char)
    requires k < |pairs| && pairs[k] == (id, prior) && PlanOf(pairs[..k]) == before
    requires prior in before && prior != id
    ensures PlanOf(pairs[..k + 1]) == before[id := (if id in before then before[id] else {}) + {prior}]
  {
    PlanOfSnoc(pairs, k);
  }

  /** The example pairs, element by element, so that proofs need not unfold the literal. */
  predicate IsExamplePairs(ps: seq<(char, char)>)
  {
    |ps| == 7 && ps[0] == ('A', 'C') && ps[1] == ('F', 'C') && ps[2] == ('B', 'A') && ps[3] == ('D', 'A')
    && ps[4] == ('E', 'B') && ps[5] == ('E', 'D') && ps[6] == ('E', 'F')
  }

  function ExamplePlan1(): Plan { map['A' := {'C'}, 'C' := {}] }

  lemma ExamplePlanFirst(ps: seq<(char, char)>)
    requires IsExamplePairs(ps)
    ensures PlanOf(ps[..1]) == ExamplePlan1()
  {
    assert ps[..0] == [];
    PlanOfSnoc(ps, 0);
    var w := WithPrerequisite(map[], 'A', 'C');
    assert w.Keys == {'A', 'C'} == ExamplePlan1().Keys;
    assert w['A'] == {'C'} && w['C'] == {};
  }

  lemma ExamplePlanMiddle(ps: seq<(char, char)>)
    requires IsExamplePairs(ps)
    ensures PlanOf(ps[..4]) == ExamplePlan1()['F' := {'C'}]['B' := {'A'}]['D' := {'A'}]
  {
    ExamplePlanFirst(ps);
    var p1 := ExamplePlan1();
    PlanOfKnownPrior(ps, 1, p1, 'F', 'C');
    PlanOfKnownPrior(ps, 2, p1['F' := {'C'}], 'B', 'A');
    var none: set<char> := {};
    assert none + {'A'} == {'A'};
    assert p1['F' := {'C'}]['B' := none + {'A'}] == p1['F' := {'C'}]['B' := {'A'}];
    PlanOfKnownPrior(ps, 3, p1['F' := {'C'}]['B' := {'A'}], 'D', 'A');
  }

  function ExamplePlan4(): Plan { ExamplePlan1()['F' := {'C'}]['B' := {'A'}]['D' := {'A'}] }

  lemma ExamplePlanFive(ps: seq<(char, char)>)
    requires IsExamplePairs(ps)
    ensures PlanOf(ps[..5]) == ExamplePlan4()['E' := {'B'}]
  {
    ExamplePlanMiddle(ps);
    PlanOfKnownPrior(ps, 4, ExamplePlan4(), 'E', 'B');
    ExamplePlan4Keys();
    NewPrerequisite(ExamplePlan4(), 'E', 'B', PlanOf(ps[..5]));
  }

  lemma ExamplePlan4Keys()
    ensures ExamplePlan4().Keys == {'A', 'C', 'F', 'B', 'D'}
  {
  }

  /** The first prerequisite of a step that is not yet one. */
  lemma NewPrerequisite(before: Plan, id: char, prior: char, after: Plan)
    requires id !in before && after == before[id := (if id in before then before[id] else {}) + {prior}]
    ensures after == before[id := {prior}]
  {
    var none: set<char> := {};
    assert none + {prior} == {prior};
  }

  /** One more prerequisite of a step that has some. */
  lemma MorePrerequisites(before: Plan, id: char, prior: char, after: Plan, had: set<char>, grown: set<char>)
    requires id in before && before[id] == had && grown == had + {prior}
    requires after == before[id := (if id in before then before[id] else {}) + {prior}]
    ensures after == before[id := grown]
  {
  }

  lemma ExamplePlanSix(ps: seq<(char, char)>)
    requires IsExamplePairs(ps)
    ensures PlanOf(ps[..6]) == ExamplePlan4()['E' := {'B', 'D'}]
  {
    ExamplePlanFive(ps);
    var p5 := ExamplePlan4()['E' := {'B'}];
    PlanOfKnownPrior(ps, 5, p5, 'E', 'D');
    SetOfTwo('B', 'D');
    MorePrerequisites(p5, 'E', 'D', PlanOf(ps[..6]), {'B'}, {'B', 'D'});
    UpdateTwice(ExamplePlan4(), 'E', {'B'}, {'B', 'D'});
  }

  lemma SetOfTwo(a: char, b: char)
    ensures {a} + {b} == {a, b}
  {
  }

  lemma SetOfThree(a: char, b: char, c: char)
    ensures {a, b} + {c} == {a, b, c}
  {
  }

  lemma UpdateTwice(m: Plan, k: char, v: set<char>, w: set<char>)
    ensures m[k := v][k := w] == m[k := w]
  {
  }

  /** The seven example sentences give six steps with the listed prerequisites. */
  lemma ExamplePlanParsed(ps: seq<(char, char)>)
    requires IsExamplePairs(ps)
    ensures PlanOf(ps) == ExamplePlan()
  {
    ExamplePlanSix(ps);
    var p6 := ExamplePlan4()['E' := {'B', 'D'}];
    PlanOfKnownPrior(ps, 6, p6, 'E', 'F');
    assert ps[..7] == ps;
    SetOfThree('B', 'D', 'F');
    MorePrerequisites(p6, 'E', 'F', PlanOf(ps), {'B', 'D'}, {'B', 'D', 'F'});
    UpdateTwice(ExamplePlan4(), 'E', {'B', 'D'}, {'B', 'D', 'F'});
    ExamplePlanSpelled();
  }

  lemma ExamplePlanSpelled()
    ensures ExamplePlan4()['E' := {'B', 'D', 'F'}] == ExamplePlan()
  {
  }

  lemma ExamplePairsAre()
    ensures IsExamplePairs(ExamplePairs())
  {
  }

  lemma OrderStep(todo: Plan, done: set<char>, m: char)
    requires IsLeast(m, Ready(todo, done))
    ensures OrderFrom(todo, done) == [m] + OrderFrom(todo, done + {m})
  {
    var ready := Ready(todo, done);
    var m' :| IsLeast(m', ready) && OrderFrom(todo, done) == [m'] + OrderFrom(todo, done + {m'});
    LeastUnique(m, m', ready);
  }

  lemma ExampleStep1() ensures OrderFrom(ExamplePlan(), {}) == "C" + OrderFrom(ExamplePlan(), {'C'})
  {
    assert Ready(ExamplePlan(), {}) == {'C'};
    OrderStep(ExamplePlan(), {}, 'C');
    assert {} + {'C'} == {'C'};
  }

  lemma ExampleStep2() ensures OrderFrom(ExamplePlan(), {'C'}) == "A" + OrderFrom(ExamplePlan(), {'C', 'A'})
  {
    assert Ready(ExamplePlan(), {'C'}) == {'A', 'F'};
    OrderStep(ExamplePlan(), {'C'}, 'A');
    assert {'C'} + {'A'} == {'C', 'A'};
  }

  lemma ExampleStep3() ensures OrderFrom(ExamplePlan(), {'C', 'A'}) == "B" + OrderFrom(ExamplePlan(), {'C', 'A', 'B'})
  {
    assert Ready(ExamplePlan(), {'C', 'A'}) == {'F', 'B', 'D'};
    OrderStep(ExamplePlan(), {'C', 'A'}, 'B');
    assert {'C', 'A'} + {'B'} == {'C', 'A', 'B'};
  }

  lemma ExampleStep4() ensures OrderFrom(ExamplePlan(), {'C', 'A', 'B'}) == "D" + OrderFrom(ExamplePlan(), {'C', 'A', 'B', 'D'})
  {
    assert Ready(ExamplePlan(), {'C', 'A', 'B'}) == {'F', 'D'};
    OrderStep(ExamplePlan(), {'C', 'A', 'B'}, 'D');
    assert {'C', 'A', 'B'} + {'D'} == {'C', 'A', 'B', 'D'};
  }

  lemma ExampleStep5()
    ensures OrderFrom(ExamplePlan(), {'C', 'A', 'B', 'D'}) == "F" + OrderFrom(ExamplePlan(), {'C', 'A', 'B', 'D', 'F'})
  {
    assert Ready(ExamplePlan(), {'C', 'A', 'B', 'D'}) == {'F'};
    OrderStep(ExamplePlan(), {'C', 'A', 'B', 'D'}, 'F');
    assert {'C', 'A', 'B', 'D'} + {'F'} == {'C', 'A', 'B', 'D', 'F'};
  }

  lemma ExampleStep6()
    ensures OrderFrom(ExamplePlan(), {'C', 'A', 'B', 'D', 'F'}) == "E"
  {
    var all := {'C', 'A', 'B', 'D', 'F', 'E'};
    assert Ready(ExamplePlan(), {'C', 'A', 'B', 'D', 'F'}) == {'E'};
    OrderStep(ExamplePlan(), {'C', 'A', 'B', 'D', 'F'}, 'E');
    assert {'C', 'A', 'B', 'D', 'F'} + {'E'} == all;
    assert Ready(ExamplePlan(), all) == {};
  }

  /** The example executes as CABDFE. */
  lemma ExampleOrder()
    ensures OrderFrom(ExamplePlan(), {}) == "CABDFE"
  {
    ExampleStep1();
    ExampleStep2();
    ExampleStep3();
    ExampleOrderTail();
    SpellOrder(OrderFrom(ExamplePlan(), {}), OrderFrom(ExamplePlan(), {'C'}),
               OrderFrom(ExamplePlan(), {'C', 'A'}), OrderFrom(ExamplePlan(), {'C', 'A', 'B'}));
  }

  lemma SpellOrder(o: string, o1: string, o2: string, o3: string)
    requires o == "C" + o1 && o1 == "A" + o2 && o2 == "B" + o3 && o3 == "DFE"
    ensures o == "CABDFE"
  {
  }

  /** After C, A and B the example finishes with D, F and E. */
  lemma ExampleOrderTail()
    ensures OrderFrom(ExamplePlan(), {'C', 'A', 'B'}) == "DFE"
  {
    ExampleStep4();
    ExampleStep5();
    ExampleStep6();
    SpellTail(OrderFrom(ExamplePlan(), {'C', 'A', 'B'}), OrderFrom(ExamplePlan(), {'C', 'A', 'B', 'D'}),
              OrderFrom(ExamplePlan(), {'C', 'A', 'B', 'D', 'F'}));
  }

  lemma SpellTail(o: string, o1: string, o2: string)
    requires o == "D" + o1 && o1 == "F" + o2 && o2 == "E"
    ensures o == "DFE"
  {
  }

  /** Parsing the example sentences and executing the plan gives CABDFE. */
  lemma ExampleParsedOrder(lines: seq<string>)
    requires |lines| == 7
    requires lines[0] == StepLine('C', 'A') && lines[1] == StepLine('C', 'F') && lines[2] == StepLine('A', 'B')
    requires lines[3] == StepLine('A', 'D') && lines[4] == StepLine('B', 'E') && lines[5] == StepLine('D', 'E')
    requires lines[6] == StepLine('F', 'E')
    ensures ParseLines(lines).Some? && OrderFrom(PlanOf(ParseLines(lines).value), {}) == "CABDFE"
  {
    forall i | 0 <= i < 7 ensures ParseLine(lines[i]).Some? {
      ParseStepLine(lines[i][5], lines[i][36]);
    }
    ParseLinesAll(lines);
    var ps := ParseLines(lines).value;
    forall i | 0 <= i < 7 ensures ps[i] == ParseLine(lines[i]).value { }
    assert IsExamplePairs(ps) by {
      ParseStepLine('C', 'A');
      ParseStepLine('C', 'F');
      ParseStepLine('A', 'B');
      ParseStepLine('A', 'D');
      ParseStepLine('B', 'E');
      ParseStepLine('D', 'E');
      ParseStepLine('F', 'E');
    }
    ExamplePlanParsed(ps);
    ExampleOrder();
  }
}

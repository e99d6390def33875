// Day 5: Alchemical Reduction. A polymer is a string of units; two adjacent
// units of the same type and opposite polarity (the same letter in different
// case) react and vanish.
module Day05 {
  import opened Common

  /** Two adjacent units react: they differ, but not ignoring ASCII case. */
  predicate React(a: char, b: char)
  {
    a != b && ToAsciiLower(a) == ToAsciiLower(b)
  }

  /** No two adjacent units react. */
  predicate Inert(s: string)
  {
    forall i :: 0 <= i < |s| - 1 ==> !React(s[i], s[i + 1])
  }

  /** One left-to-right pass: every reacting pair met while scanning is
      dropped, and scanning resumes after it. */
  function Pass(s: string): (r: string)
    ensures |r| <= |s|
  {
    if |s| >= 2 && React(s[0], s[1]) then Pass(s[2..])
    else if s == [] then []
    else [s[0]] + Pass(s[1..])
  }

  /** Passes repeated until one removes nothing. */
  function Reduce(s: string): string
    decreases |s|
  {
    var r := Pass(s);
    if |r| == |s| then r else Reduce(r)
  }

  /** The body of `reduce_polymer`'s loop: the zip over adjacent pairs with
      the `skip_next` flag, then the decision about the last unit. */
  method ReducePass(p: string) returns (q: string)
    ensures q == Pass(p)
  {
    q := [];
    var skip := false;
    var i := 0;
    ghost var j := 0;
    ghost var removed: nat := 0;
    while i + 1 < |p|
      invariant 0 <= i <= |p| && (|p| > 0 ==> i < |p|)
      invariant skip ==> i >= 1
      invariant i - |q| == 2 * removed + (if skip then 1 else 0)
      invariant j == (if skip then i + 1 else i) && j <= |p|
      invariant q + Pass(p[j..]) == Pass(p)
    {
      if skip {
        skip := false;
        removed := removed + 1;
      } else if React(p[i], p[i + 1]) {
        PassAt(p, i);
        skip := true;
        j := i + 2;
      } else {
        PassAt(p, i);
        AppendAssoc(q, [p[i]], Pass(p[i + 1..]));
        q := q + [p[i]];
        j := i + 1;
      }
      i := i + 1;
    }
    if skip {
      assert p[j..] == [];
    } else if (|p| - |q|) % 2 == 1 {
      PassAt(p, i);
      assert p[i + 1..] == [];
      q := q + [p[|p| - 1]];
    } else {
      assert p == [];
    }
  }

  lemma AppendAssoc(a: string, b: string, c: string)
    ensures a + (b + c) == (a + b) + c
  {
  }

  /** A pass from unit `i` on drops a reacting pair or keeps unit `i`. */
  lemma PassAt(p: string, i: nat)
    requires i < |p|
    ensures i + 1 < |p| && React(p[i], p[i + 1]) ==> Pass(p[i..]) == Pass(p[i + 2..])
    ensures !(i + 1 < |p| && React(p[i], p[i + 1])) ==> Pass(p[i..]) == [p[i]] + Pass(p[i + 1..])
  {
    assert p[i..][1..] == p[i + 1..];
    if i + 1 < |p| {
      assert p[i..][2..] == p[i + 2..];
    }
  }

  /** `reduce_polymer`: repeat passes until the length stops changing. */
  method ReducePolymer(input: string) returns (r: string)
    ensures r == Reduce(input)
  {
    var polymer := input;
    while true
      invariant Reduce(polymer) == Reduce(input)
      decreases |polymer|
    {
      var reduced := ReducePass(polymer);
      if |reduced| == |polymer| {
        return reduced;
      }
      polymer := reduced;
    }
  }

  // ---------------------------------------------------------------------
  // What reduction promises

  /** A pass removes nothing exactly when the polymer is inert, and then it is the identity. */
  lemma {:induction false} PassFixpoint(s: string)
    ensures |Pass(s)| == |s| <==> Inert(s)
    ensures Inert(s) ==> Pass(s) == s
  {
    if |s| >= 2 && React(s[0], s[1]) {
      assert !Inert(s);
    } else if s != [] {
      PassFixpoint(s[1..]);
      assert Inert(s) <==> Inert(s[1..]) by {
        if Inert(s[1..]) {
          forall i | 0 <= i < |s| - 1 ensures !React(s[i], s[i + 1]) {
            if i > 0 {
              assert s[i] == s[1..][i - 1] && s[i + 1] == s[1..][i];
            }
          }
        }
        if Inert(s) {
          forall i | 0 <= i < |s[1..]| - 1 ensures !React(s[1..][i], s[1..][i + 1]) {
            assert s[1..][i] == s[i + 1] && s[1..][i + 1] == s[i + 2];
          }
        }
      }
      assert [s[0]] + s[1..] == s;
    }
  }

  /** The reduced polymer has no reacting pair left. */
  lemma {:induction false} ReduceInert(s: string)
    ensures Inert(Reduce(s))
    decreases |s|
  {
    var r := Pass(s);
    if |r| == |s| {
      PassFixpoint(s);
    } else {
      ReduceInert(r);
    }
  }

  /** Reducing an already reduced polymer changes nothing. */
  lemma ReduceIdempotent(s: string)
    ensures Reduce(Reduce(s)) == Reduce(s)
  {
    ReduceInert(s);
    PassFixpoint(Reduce(s));
  }

  /** `a` is `b` with some units left out. */
  predicate IsSubsequence(a: string, b: string)
    decreases |b|
  {
    if a == [] then true
    else if b == [] then false
    else (a[0] == b[0] && IsSubsequence(a[1..], b[1..])) || IsSubsequence(a, b[1..])
  }

  /** A subsequence of a suffix is a subsequence of the whole. */
  lemma {:induction false} SubsequenceDrop(a: string, b: string)
    requires b != [] && a != [] && IsSubsequence(a, b[1..])
    ensures IsSubsequence(a, b)
  {
  }

  lemma {:induction false} SubsequenceTrans(a: string, b: string, c: string)
    requires IsSubsequence(a, b) && IsSubsequence(b, c)
    ensures IsSubsequence(a, c)
    decreases |c|
  {
    if a != [] {
      assert b != [] && c != [];
      if a[0] == b[0] && IsSubsequence(a[1..], b[1..]) {
        if b[0] == c[0] && IsSubsequence(b[1..], c[1..]) {
          SubsequenceTrans(a[1..], b[1..], c[1..]);
        } else {
          SubsequenceTrans(a, b, c[1..]);
        }
      } else {
        if b[0] == c[0] && IsSubsequence(b[1..], c[1..]) {
          SubsequenceTrans(a, b[1..], c[1..]);
        } else {
          SubsequenceTrans(a, b, c[1..]);
        }
      }
    }
  }

  /** A pass keeps the surviving units in their order. */
  lemma {:induction false} PassSubsequence(s: string)
    ensures IsSubsequence(Pass(s), s)
  {
    if |s| >= 2 && React(s[0], s[1]) {
      PassSubsequence(s[2..]);
      assert s[1..][1..] == s[2..];
      if Pass(s[2..]) != [] {
        SubsequenceDrop(Pass(s[2..]), s[1..]);
        SubsequenceDrop(Pass(s[2..]), s);
      }
    } else if s != [] {
      PassSubsequence(s[1..]);
    }
  }

  /** The reduced polymer is the input with some units removed, and never longer. */
  lemma {:induction false} ReduceSubsequence(s: string)
    ensures IsSubsequence(Reduce(s), s)
    ensures |Reduce(s)| <= |s|
    decreases |s|
  {
    var r := Pass(s);
    PassSubsequence(s);
    if |r| != |s| {
      ReduceSubsequence(r);
      SubsequenceTrans(Reduce(r), r, s);
    }
  }

  /** Units vanish in pairs. */
  lemma {:induction false} ReduceRemovesPairs(s: string)
    ensures (|s| - |Reduce(s)|) % 2 == 0
    decreases |s|
  {
    PassRemovesPairs(s);
    if |Pass(s)| != |s| {
      ReduceRemovesPairs(Pass(s));
    }
  }

  lemma {:induction false} PassRemovesPairs(s: string)
    ensures (|s| - |Pass(s)|) % 2 == 0
  {
    if |s| >= 2 && React(s[0], s[1]) {
      PassRemovesPairs(s[2..]);
    } else if s != [] {
      PassRemovesPairs(s[1..]);
    }
  }

  lemma ReduceExample1() ensures Reduce("aA") == "" { }
  lemma ReduceExample2() ensures Reduce("abBA") == "" { }
  lemma ReduceExample3() ensures Reduce("aabAAB") == "aabAAB" { }
  lemma ReduceExample5() ensures Reduce("abcCcd") == "abcd" { }
  lemma ReduceExample6() ensures Reduce("abcCcdD") == "abc"
  {
    PassExample6();
    InertExample6();
    ReduceAfterOnePass("abcCcdD", "abc");
  }
  lemma PassExample6() ensures Pass("abcCcdD") == "abc" { }
  lemma InertExample6() ensures Pass("abc") == "abc" { }
  lemma ReduceExample7() ensures Reduce("aaBbaAB") == "aaB"
  {
    PassExample7();
    InertExample7();
    ReduceAfterOnePass("aaBbaAB", "aaB");
  }
  lemma PassExample7() ensures Pass("aaBbaAB") == "aaB" { }
  lemma InertExample7() ensures Pass("aaB") == "aaB" { }

  /** A pass over a concatenation that cannot pair the units at the seam is the two passes joined. */
  lemma {:induction false} PassAppend(a: string, b: string)
    requires a == [] || b == [] || !React(a[|a| - 1], b[0])
    ensures Pass(a + b) == Pass(a) + Pass(b)
  {
    if a == [] {
      assert a + b == b;
    } else if |a| >= 2 && React(a[0], a[1]) {
      assert (a + b)[2..] == a[2..] + b;
      PassAppend(a[2..], b);
    } else if |a| == 1 {
      assert (a + b)[1..] == b;
      assert Pass(a) == [a[0]] + Pass([]);
    } else {
      assert (a + b)[1..] == a[1..] + b;
      PassAppend(a[1..], b);
    }
  }

  lemma PassChunk1() ensures Pass("dabA") == "dabA" { }
  lemma PassChunk2() ensures Pass("cCaC") == "aC" { }
  lemma PassChunk3() ensures Pass("BAcCc") == "BAc" { }
  lemma PassChunk4() ensures Pass("aDA") == "aDA" { }
  lemma PassChunk5() ensures Pass("dabAaC") == "dabC" { }
  lemma PassChunk6() ensures Pass("BAcaDA") == "BAcaDA" { }

  lemma ReduceExample4Seams()
    ensures Pass("dabA" + ("cCaC" + ("BAcCc" + "aDA"))) == "dabA" + ("aC" + ("BAc" + "aDA"))
  {
    PassChunk1(); PassChunk2(); PassChunk3(); PassChunk4();
    PassAppend("BAcCc", "aDA");
    PassAppend("cCaC", "BAcCc" + "aDA");
    PassAppend("dabA", "cCaC" + ("BAcCc" + "aDA"));
  }

  lemma ReduceExample4Pass1() ensures Pass("dabAcCaCBAcCcaDA") == "dabAaCBAcaDA"
  {
    assert "dabAcCaCBAcCcaDA" == "dabA" + ("cCaC" + ("BAcCc" + "aDA"));
    assert "dabAaCBAcaDA" == "dabA" + ("aC" + ("BAc" + "aDA"));
    ReduceExample4Seams();
  }

  lemma ReduceExample4Pass2() ensures Pass("dabAaCBAcaDA") == "dabCBAcaDA"
  {
    PassChunk5(); PassChunk6();
    PassAppend("dabAaC", "BAcaDA");
    HalfLeft();
    HalfRight();
  }

  lemma HalfLeft() ensures "dabAaCBAcaDA" == "dabAaC" + "BAcaDA" { }
  lemma HalfRight() ensures "dabCBAcaDA" == "dabC" + "BAcaDA" { }

  lemma ReduceExample4Pass3() ensures Pass("dabCBAcaDA") == "dabCBAcaDA"
  {
    PassChunk7();
    PassChunk8();
    PassAppend("dabCB", "AcaDA");
    assert "dabCB" + "AcaDA" == "dabCBAcaDA";
  }

  lemma PassChunk7() ensures Pass("dabCB") == "dabCB" { }
  lemma PassChunk8() ensures Pass("AcaDA") == "AcaDA" { }

  lemma ReduceExample4()
    ensures Reduce("dabAcCaCBAcCcaDA") == "dabCBAcaDA"
  {
    ReduceExample4Pass1();
    ReduceExample4Pass2();
    ReduceExample4Pass3();
    ReduceAfterOnePass("dabAaCBAcaDA", "dabCBAcaDA");
    ReduceStep("dabAcCaCBAcCcaDA", "dabAaCBAcaDA");
  }

  lemma ReduceStep(x: string, y: string)
    requires Pass(x) == y && |y| != |x|
    ensures Reduce(x) == Reduce(y)
  {
  }

  // ---------------------------------------------------------------------
  // Improving the polymer

  /** The unit types present, as lower-case letters. */
  function UnitTypes(s: string): (types: set<char>)
  {
    if s == [] then {} else {ToAsciiLower(s[0])} + UnitTypes(s[1..])
  }

  /** Every unit's type is present, and only those; an empty polymer has none. */
  lemma {:induction false} UnitTypesSpec(s: string)
    ensures forall c <- s :: ToAsciiLower(c) in UnitTypes(s)
    ensures forall t <- UnitTypes(s) :: exists c <- s :: ToAsciiLower(c) == t
    ensures UnitTypes(s) == {} <==> s == []
  {
    if s != [] {
      UnitTypesSpec(s[1..]);
      assert forall c <- s :: c == s[0] || c in s[1..];
      forall t <- UnitTypes(s) ensures exists c <- s :: ToAsciiLower(c) == t {
        if t != ToAsciiLower(s[0]) {
          var c :| c in s[1..] && ToAsciiLower(c) == t;
          assert c in s;
        }
      }
    }
  }

  lemma {:induction false} UnitTypesAppend(a: string, b: string)
    ensures UnitTypes(a + b) == UnitTypes(a) + UnitTypes(b)
  {
    if a == [] {
      assert a + b == b;
    } else {
      assert (a + b)[1..] == a[1..] + b;
      UnitTypesAppend(a[1..], b);
    }
  }

  /** The polymer without the units of type `t`, in either case. */
  function Without(s: string, t: char): (r: string)
    ensures |r| <= |s|
  {
    if s == [] then [] else (if ToAsciiLower(s[0]) == t then [] else [s[0]]) + Without(s[1..], t)
  }

  /** `Without` keeps exactly the units of other types. */
  lemma {:induction false} WithoutFilters(s: string, t: char, c: char)
    ensures c in Without(s, t) <==> c in s && ToAsciiLower(c) != t
  {
    if s != [] {
      WithoutFilters(s[1..], t, c);
      assert s == [s[0]] + s[1..];
    }
  }

  /** What `improve_polymer` may return: a unit type whose removal gives a
      shortest reduced polymer, with that polymer; `None` is its panic on an
      empty polymer. */
  ghost predicate ImproveSpec(s: string, r: Option<(char, string)>)
  {
    match r
    case None => s == []
    case Some((t, p)) =>
      t in UnitTypes(s) && p == Reduce(Without(s, t))
      && forall t' <- UnitTypes(s) :: |p| <= |Reduce(Without(s, t'))|
  }

  /** `improve_polymer`. */
  method ImprovePolymer(s: string) returns (r: Option<(char, string)>)
    ensures ImproveSpec(s, r)
  {
    var types := UnitTypes(s);
    var improved: map<char, string> := map[];
    var remaining := types;
    while remaining != {}
      invariant remaining <= types
      invariant improved.Keys == types - remaining
      invariant forall t <- improved.Keys :: improved[t] == Reduce(Without(s, t))
      decreases |remaining|
    {
      var t :| t in remaining;
      var reduced := ReducePolymer(Without(s, t));
      improved := improved[t := reduced];
      remaining := remaining - {t};
    }
    if improved == map[] {
      UnitTypesSpec(s);
      assert types == {};
      return None;
    }
    var lengths := map t | t in improved :: -|improved[t]|;
    var best := MaxByValue(lengths);
    assert forall t' <- types :: |improved[best]| <= |Reduce(Without(s, t'))| by {
      forall t' <- types ensures |improved[best]| <= |Reduce(Without(s, t'))| {
        assert lengths[t'] <= lengths[best];
      }
    }
    return Some((best, improved[best]));
  }

  lemma {:induction false} WithoutAppend(a: string, b: string, t: char)
    ensures Without(a + b, t) == Without(a, t) + Without(b, t)
  {
    if a == [] {
      assert a + b == b;
    } else {
      assert (a + b)[1..] == a[1..] + b;
      WithoutAppend(a[1..], b, t);
    }
  }

  lemma ReduceAfterOnePass(x: string, y: string)
    requires Pass(x) == y && Pass(y) == y
    ensures Reduce(x) == y
  {
    if |y| != |x| {
      assert Reduce(y) == y;
    }
  }

  /** The example polymer, cut where no pass can pair units across the cut. */
  function ExamplePolymer(): string { "dabA" + ("cCaC" + ("BAcCc" + "aDA")) }

  lemma ExamplePolymerSpelled()
    ensures ExamplePolymer() == "dabAcCaCBAcCcaDA"
  {
  }

  lemma ExampleWithout(t: char)
    ensures Without(ExamplePolymer(), t)
         == Without("dabA", t) + (Without("cCaC", t) + (Without("BAcCc", t) + Without("aDA", t)))
  {
    WithoutAppend("BAcCc", "aDA", t);
    WithoutAppend("cCaC", "BAcCc" + "aDA", t);
    WithoutAppend("dabA", "cCaC" + ("BAcCc" + "aDA"), t);
  }

  lemma ExampleTypes()
    ensures UnitTypes(ExamplePolymer()) == {'a', 'b', 'c', 'd'}
  {
    UnitTypesAppend("BAcCc", "aDA");
    UnitTypesAppend("cCaC", "BAcCc" + "aDA");
    UnitTypesAppend("dabA", "cCaC" + ("BAcCc" + "aDA"));
    TypesOfChunks();
  }

  lemma TypesOfChunks()
    ensures UnitTypes("dabA") == {'d', 'a', 'b'} && UnitTypes("cCaC") == {'c', 'a'}
    ensures UnitTypes("BAcCc") == {'b', 'a', 'c'} && UnitTypes("aDA") == {'a', 'd'}
  {
  }

  lemma WithoutA()
    ensures Without("dabA", 'a') == "db" && Without("cCaC", 'a') == "cCC"
    ensures Without("BAcCc", 'a') == "BcCc" && Without("aDA", 'a') == "D"
  {
  }

  lemma WithoutB()
    ensures Without("dabA", 'b') == "daA" && Without("cCaC", 'b') == "cCaC"
    ensures Without("BAcCc", 'b') == "AcCc" && Without("aDA", 'b') == "aDA"
  {
  }

  lemma WithoutC()
    ensures Without("dabA", 'c') == "dabA" && Without("cCaC", 'c') == "a"
    ensures Without("BAcCc", 'c') == "BA" && Without("aDA", 'c') == "aDA"
  {
    WithoutCHead();
    WithoutCTail();
  }

  lemma WithoutCHead() ensures Without("dabA", 'c') == "dabA" && Without("cCaC", 'c') == "a" { }
  lemma WithoutCTail() ensures Without("BAcCc", 'c') == "BA" && Without("aDA", 'c') == "aDA" { }

  lemma WithoutD()
    ensures Without("dabA", 'd') == "abA" && Without("cCaC", 'd') == "cCaC"
    ensures Without("BAcCc", 'd') == "BAcCc" && Without("aDA", 'd') == "aA"
  {
    WithoutDHead();
    WithoutDTail();
  }

  lemma WithoutDHead() ensures Without("dabA", 'd') == "abA" && Without("cCaC", 'd') == "cCaC" { }
  lemma WithoutDTail() ensures Without("BAcCc", 'd') == "BAcCc" && Without("aDA", 'd') == "aA" { }

  /** A pass over four pieces that cannot pair units across their seams. */
  lemma PassFour(a: string, b: string, c: string, d: string)
    requires a != [] && b != [] && c != [] && d != []
    requires !React(a[|a| - 1], b[0]) && !React(b[|b| - 1], c[0]) && !React(c[|c| - 1], d[0])
    ensures Pass(a + (b + (c + d))) == Pass(a) + (Pass(b) + (Pass(c) + Pass(d)))
  {
    PassAppend(c, d);
    assert (c + d)[0] == c[0];
    PassAppend(b, c + d);
    assert (b + (c + d))[0] == b[0];
    PassAppend(a, b + (c + d));
  }

  lemma PassesA() ensures Pass("db") == "db" && Pass("cCC") == "C" && Pass("BcCc") == "Bc" && Pass("D") == "D" { }
  lemma PassesB() ensures Pass("daA") == "d" && Pass("cCaC") == "aC" && Pass("AcCc") == "Ac" && Pass("aDA") == "aDA" { }
  lemma PassesD() ensures Pass("abA") == "abA" && Pass("cCaC") == "aC" && Pass("BAcCc") == "BAc" && Pass("aA") == "" { }
  lemma InertA() ensures Pass("dbCBcD") == "dbCBcD"
  {
    InertALeft();
    InertARight();
    PassAppend("dbC", "BcD");
    assert "dbC" + "BcD" == "dbCBcD";
  }
  lemma InertALeft() ensures Pass("dbC") == "dbC" { }
  lemma InertARight() ensures Pass("BcD") == "BcD" { }
  lemma InertB() ensures Pass("daCAcaDA") == "daCAcaDA"
  {
    InertBLeft();
    InertBRight();
    PassAppend("daCA", "caDA");
    assert "daCA" + "caDA" == "daCAcaDA";
  }
  lemma InertBLeft() ensures Pass("daCA") == "daCA" { }
  lemma InertBRight() ensures Pass("caDA") == "caDA" { }
  lemma InertC() ensures Pass("daDA") == "daDA" { }
  lemma InertD() ensures Pass("abCBAc") == "abCBAc"
  {
    InertDLeft();
    InertDRight();
    PassAppend("abC", "BAc");
    assert "abC" + "BAc" == "abCBAc";
  }
  lemma InertDLeft() ensures Pass("abC") == "abC" { }
  lemma InertDRight() ensures Pass("BAc") == "BAc" { }
  lemma SecondPassD() ensures Pass("abAaCBAc") == "abCBAc"
  {
    SecondPassDLeft();
    SecondPassDRight();
    PassAppend("abAaC", "BAc");
    assert "abAaC" + "BAc" == "abAaCBAc";
  }
  lemma SecondPassDLeft() ensures Pass("abAaC") == "abC" { }
  lemma SecondPassDRight() ensures Pass("BAc") == "BAc" { }
  lemma PassesC() ensures Pass("dabAaBAaDA") == "dabBDA" && Pass("dabBDA") == "daDA"
  {
    FirstPassC();
    SecondPassC();
  }
  lemma FirstPassC() ensures Pass("dabAaBAaDA") == "dabBDA"
  {
    PassChunk9();
    PassChunk10();
    PassAppend("dabAaB", "AaDA");
    assert "dabAaB" + "AaDA" == "dabAaBAaDA";
  }
  lemma PassChunk9() ensures Pass("dabAaB") == "dabB" { }
  lemma PassChunk10() ensures Pass("AaDA") == "DA" { }
  lemma SecondPassC() ensures Pass("dabBDA") == "daDA" { }

  lemma WithoutAChunks(s: string)
    requires s == ExamplePolymer()
    ensures Without(s, 'a') == "db" + ("cCC" + ("BcCc" + "D"))
  {
    ExampleWithout('a');
    WithoutA();
  }

  lemma FirstPassA()
    ensures Pass("db" + ("cCC" + ("BcCc" + "D"))) == "dbCBcD"
  {
    PassFour("db", "cCC", "BcCc", "D");
    PassesA();
    JoinedA();
  }

  lemma JoinedA() ensures "db" + ("C" + ("Bc" + "D")) == "dbCBcD" { }

  /** Without the a/A units the example reduces to "dbCBcD". */
  lemma ImproveExampleA(s: string)
    requires s == ExamplePolymer()
    ensures Reduce(Without(s, 'a')) == "dbCBcD"
  {
    WithoutAChunks(s);
    FirstPassA();
    ReduceA(Without(s, 'a'));
  }

  lemma ReduceA(x: string)
    requires Pass(x) == "dbCBcD"
    ensures Reduce(x) == "dbCBcD"
  {
    InertA();
    ReduceAfterOnePass(x, "dbCBcD");
  }

  lemma WithoutBChunks(s: string)
    requires s == ExamplePolymer()
    ensures Without(s, 'b') == "daA" + ("cCaC" + ("AcCc" + "aDA"))
  {
    ExampleWithout('b');
    WithoutB();
  }

  lemma FirstPassB()
    ensures Pass("daA" + ("cCaC" + ("AcCc" + "aDA"))) == "daCAcaDA"
  {
    PassFour("daA", "cCaC", "AcCc", "aDA");
    PassesB();
    JoinedB();
  }

  lemma JoinedB() ensures "d" + ("aC" + ("Ac" + "aDA")) == "daCAcaDA" { }

  /** Without the b/B units the example reduces to "daCAcaDA". */
  lemma ImproveExampleB(s: string)
    requires s == ExamplePolymer()
    ensures Reduce(Without(s, 'b')) == "daCAcaDA"
  {
    WithoutBChunks(s);
    FirstPassB();
    ReduceB(Without(s, 'b'));
  }

  lemma ReduceB(x: string)
    requires Pass(x) == "daCAcaDA"
    ensures Reduce(x) == "daCAcaDA"
  {
    InertB();
    ReduceAfterOnePass(x, "daCAcaDA");
  }

  lemma WithoutDChunks(s: string)
    requires s == ExamplePolymer()
    ensures Without(s, 'd') == "abA" + ("cCaC" + ("BAcCc" + "aA"))
  {
    ExampleWithout('d');
    WithoutD();
  }

  lemma FirstPassD()
    ensures Pass("abA" + ("cCaC" + ("BAcCc" + "aA"))) == "abAaCBAc"
  {
    PassFour("abA", "cCaC", "BAcCc", "aA");
    PassesD();
    JoinedD();
  }

  lemma JoinedD() ensures "abA" + ("aC" + ("BAc" + "")) == "abAaCBAc" { }

  /** Without the d/D units the example reduces to "abCBAc". */
  lemma ImproveExampleD(s: string)
    requires s == ExamplePolymer()
    ensures Reduce(Without(s, 'd')) == "abCBAc"
  {
    WithoutDChunks(s);
    FirstPassD();
    ReduceD(Without(s, 'd'));
  }

  lemma ReduceD(x: string)
    requires Pass(x) == "abAaCBAc" && |x| > 8
    ensures Reduce(x) == "abCBAc"
  {
    SecondPassD();
    InertD();
    ReduceAfterOnePass("abAaCBAc", "abCBAc");
  }

  lemma WithoutCJoined(s: string)
    requires s == ExamplePolymer()
    ensures Without(s, 'c') == "dabAaBAaDA"
  {
    ExampleWithout('c');
    WithoutC();
    JoinedC();
  }

  lemma JoinedC() ensures "dabA" + ("a" + ("BA" + "aDA")) == "dabAaBAaDA" { }

  lemma ReduceC(x: string)
    requires x == "dabAaBAaDA"
    ensures Reduce(x) == "daDA"
  {
    PassesC();
    InertC();
    ReduceAfterOnePass("dabBDA", "daDA");
  }

  /** Without the c/C units the example reduces to "daDA". */
  lemma ImproveExampleC(s: string)
    requires s == ExamplePolymer()
    ensures Reduce(Without(s, 'c')) == "daDA"
  {
    WithoutCJoined(s);
    ReduceC(Without(s, 'c'));
  }

  /** Removing c/C gives the shortest polymer, "daDA". */
  /** When one unit type gives a strictly shorter reduction than every other, it is the only valid choice. */
  lemma UniqueShortest(s: string, r: Option<(char, string)>, best: char)
    requires ImproveSpec(s, r) && best in UnitTypes(s)
    requires forall t <- UnitTypes(s) :: t != best ==> |Reduce(Without(s, best))| < |Reduce(Without(s, t))|
    ensures r == Some((best, Reduce(Without(s, best))))
  {
    if r.None? {
      assert false;
    }
  }

  lemma ExampleLengths(s: string)
    requires s == ExamplePolymer()
    ensures |Reduce(Without(s, 'a'))| == 6 && |Reduce(Without(s, 'b'))| == 8
    ensures |Reduce(Without(s, 'd'))| == 6
  {
    ImproveExampleA(s);
    ImproveExampleB(s);
    ImproveExampleD(s);
  }

  lemma ShortestOfFour(s: string)
    requires UnitTypes(s) == {'a', 'b', 'c', 'd'} && |Reduce(Without(s, 'c'))| == 4
    requires |Reduce(Without(s, 'a'))| == 6 && |Reduce(Without(s, 'b'))| == 8 && |Reduce(Without(s, 'd'))| == 6
    ensures forall t <- UnitTypes(s) :: t != 'c' ==> |Reduce(Without(s, 'c'))| < |Reduce(Without(s, t))|
  {
    forall t <- UnitTypes(s) | t != 'c' ensures |Reduce(Without(s, 'c'))| < |Reduce(Without(s, t))| {
      assert t == 'a' || t == 'b' || t == 'd';
    }
  }

  /** Removing c/C is the best improvement of the example, leaving "daDA". */
  lemma ImproveExample(s: string, r: Option<(char, string)>)
    requires s == ExamplePolymer() && ImproveSpec(s, r)
    ensures r == Some(('c', "daDA"))
  {
    ExampleTypes();
    ExampleLengths(s);
    ImproveExampleC(s);
    ShortestOfFour(s);
    UniqueShortest(s, r, 'c');
  }
}

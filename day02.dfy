// Day 2: Inventory Management System. Box ids and the checksum made from
// the ids that contain some letter exactly twice or exactly three times.
module Day02 {
  import opened Common

  /** The non-empty pieces of `pieces`, in order. */
  function NonEmpty(pieces: seq<string>): (r: seq<string>)
    ensures forall id <- r :: id != [] && id in pieces
  {
    if pieces == [] then []
    else if pieces[0] == "" then NonEmpty(pieces[1..])
    else [pieces[0]] + NonEmpty(pieces[1..])
  }

  /** `parse`: the input split at line feeds, empty pieces dropped. */
  function Parse(input: string): (ids: seq<string>)
    ensures forall id <- ids :: id != ""
  {
    NonEmpty(Split(input, '\n'))
  }

  lemma {:induction false} ParseIds(input: string)
    ensures forall id <- Parse(input) :: id != "" && '\n' !in id
  {
  }

  /** Writing non-empty, line-feed-free ids one per line and parsing gives them back. */
  lemma {:induction false} ParseJoined(ids: seq<string>)
    requires |ids| >= 1
    requires forall id <- ids :: id != "" && '\n' !in id
    ensures Parse(Join(ids, '\n')) == ids
  {
    SplitJoin(ids, '\n');
    assert forall i :: 0 <= i < |ids| ==> ids[i] in ids;
    NonEmptyKeeps(ids);
  }

  lemma {:induction false} NonEmptyKeeps(ids: seq<string>)
    requires forall i :: 0 <= i < |ids| ==> ids[i] != ""
    ensures NonEmpty(ids) == ids
  {
    if ids != [] {
      assert forall i :: 0 <= i < |ids[1..]| ==> ids[1..][i] == ids[i + 1];
      NonEmptyKeeps(ids[1..]);
      assert [ids[0]] + ids[1..] == ids;
    }
  }

  /** The id has some letter that occurs exactly `k` times. */
  predicate HasLetterTimes(id: string, k: nat)
  {
    exists c <- id :: multiset(id)[c] == k
  }

  /** How many ids have some letter exactly `k` times (each id counts once). */
  function CountIds(ids: seq<string>, k: nat): (n: nat)
    ensures n <= |ids|
  {
    if ids == [] then 0
    else (if HasLetterTimes(ids[0], k) then 1 else 0) + CountIds(ids[1..], k)
  }

  /** The letter counts of a prefix of an id, as the source's per-id map. */
  function LetterCounts(id: string): (m: map<char, nat>)
  {
    map c | c in id :: multiset(id)[c]
  }

  lemma LetterCountsStep(id: string, i: nat)
    requires i < |id|
    ensures LetterCounts(id[..i + 1]) ==
      var m := LetterCounts(id[..i]);
      if id[i] in m then m[id[i] := m[id[i]] + 1] else m[id[i] := 1]
  {
    assert id[..i + 1] == id[..i] + [id[i]];
  }

  /** Some letter of the count map has count `k`. */
  predicate SomeCountIs(counts: map<char, nat>, k: nat)
  {
    exists c | c in counts :: counts[c] == k
  }

  lemma CountsHaveTimes(id: string, k: nat)
    ensures SomeCountIs(LetterCounts(id), k) == HasLetterTimes(id, k)
  {
    var m := LetterCounts(id);
    if HasLetterTimes(id, k) {
      var c :| c in id && multiset(id)[c] == k;
      assert c in m && m[c] == k;
    }
    if SomeCountIs(m, k) {
      var c :| c in m && m[c] == k;
      assert c in id && multiset(id)[c] == k;
    }
  }

  /** The per-id letter count loop of `checksum`. */
  method CountLetters(id: string) returns (counts: map<char, nat>)
    ensures counts == LetterCounts(id)
  {
    counts := map[];
    var i := 0;
    while i < |id|
      invariant 0 <= i <= |id|
      invariant counts == LetterCounts(id[..i])
    {
      var letter := id[i];
      LetterCountsStep(id, i);
      if letter in counts {
        counts := counts[letter := counts[letter] + 1];
      } else {
        counts := counts[letter := 1];
      }
      i := i + 1;
    }
    assert id[..i] == id;
  }

  /** `checksum`: ids with a doubled letter times ids with a tripled letter. */
  method Checksum(ids: seq<string>) returns (r: nat)
    ensures r == CountIds(ids, 2) * CountIds(ids, 3)
  {
    var twos, threes := 0, 0;
    var n := 0;
    while n < |ids|
      invariant 0 <= n <= |ids|
      invariant twos + CountIds(ids[n..], 2) == CountIds(ids, 2)
      invariant threes + CountIds(ids[n..], 3) == CountIds(ids, 3)
    {
      var id := ids[n];
      var counts := CountLetters(id);
      CountsHaveTimes(id, 2);
      CountsHaveTimes(id, 3);
      if SomeCountIs(counts, 2) { twos := twos + 1; }
      if SomeCountIs(counts, 3) { threes := threes + 1; }
      assert ids[n..][1..] == ids[n + 1..];
      n := n + 1;
    }
    r := twos * threes;
  }

  lemma ExampleId1() ensures !HasLetterTimes("abcdef", 2) && !HasLetterTimes("abcdef", 3) { }
  lemma ExampleId2() ensures HasLetterTimes("bababc", 2) && HasLetterTimes("bababc", 3)
  {
    assert multiset("bababc")['a'] == 2 && multiset("bababc")['b'] == 3;
  }
  lemma ExampleId3() ensures HasLetterTimes("abbcde", 2) && !HasLetterTimes("abbcde", 3)
  {
    assert multiset("abbcde")['b'] == 2;
  }
  lemma ExampleId4() ensures !HasLetterTimes("abcccd", 2) && HasLetterTimes("abcccd", 3)
  {
    assert multiset("abcccd")['c'] == 3;
  }
  lemma ExampleId5() ensures HasLetterTimes("aabcdd", 2) && !HasLetterTimes("aabcdd", 3)
  {
    assert multiset("aabcdd")['a'] == 2;
  }
  lemma ExampleId6() ensures HasLetterTimes("abcdee", 2) && !HasLetterTimes("abcdee", 3)
  {
    assert multiset("abcdee")['e'] == 2;
  }
  lemma ExampleId7() ensures !HasLetterTimes("ababab", 2) && HasLetterTimes("ababab", 3)
  {
    assert multiset("ababab")['a'] == 3;
  }

  /** The example list: four ids with a doubled letter, three with a tripled one, 4 * 3 = 12. */
  lemma ChecksumExample()
    ensures CountIds(["abcdef", "bababc", "abbcde", "abcccd", "aabcdd", "abcdee", "ababab"], 2) == 4
    ensures CountIds(["abcdef", "bababc", "abbcde", "abcccd", "aabcdd", "abcdee", "ababab"], 3) == 3
  {
    ExampleId1(); ExampleId2(); ExampleId3(); ExampleId4(); ExampleId5(); ExampleId6(); ExampleId7();
  }
}

// Shared vocabulary: optional values, fallible results, and the few pieces
// of Rust's `str` behaviour that the puzzle parsers rely on (`split`,
// `lines`, `trim` and integer `parse`).
module Common {

  datatype Option<T> = None | Some(value: T)

  /** A parse or lookup that can fail; a Rust `panic!` on bad input is an `Err` too. */
  datatype Result<T> = Ok(value: T) | Err(msg: string)
  {
    predicate IsOk() { this.Ok? }
  }

  /** Rust's `std::cmp::Ordering`. */
  datatype Ordering = Less | Equal | Greater

  // ---------------------------------------------------------------------
  // Characters

  predicate IsDigit(c: char) { '0' <= c <= '9' }

  predicate IsWhitespace(c: char) { c == ' ' || c == '\t' || c == '\n' || c == '\r' || c == '\U{000B}' || c == '\U{000C}' }

  predicate IsAsciiLower(c: char) { 'a' <= c <= 'z' }

  predicate IsAsciiUpper(c: char) { 'A' <= c <= 'Z' }

  function ToAsciiLower(c: char): (r: char)
    ensures IsAsciiUpper(c) ==> IsAsciiLower(r)
    ensures !IsAsciiUpper(c) ==> r == c
  {
    if IsAsciiUpper(c) then (c as int - 'A' as int + 'a' as int) as char else c
  }

  function DigitValue(c: char): (d: nat)
    requires IsDigit(c)
    ensures d < 10
  {
    c as int - '0' as int
  }

  function DigitChar(d: nat): (c: char)
    requires d < 10
    ensures IsDigit(c) && DigitValue(c) == d
  {
    ('0' as int + d) as char
  }

  // ---------------------------------------------------------------------
  // Splitting

  /** `s.split(sep)`: the pieces between separators, always at least one. */
  function Split(s: string, sep: char): (parts: seq<string>)
    ensures |parts| >= 1
    ensures forall p <- parts :: sep !in p
  {
    if s == [] then [""]
    else
      var rest := Split(s[1..], sep);
      if s[0] == sep then [""] + rest
      else [[s[0]] + rest[0]] + rest[1..]
  }

  /** The inverse of `Split`: the pieces glued back with the separator. */
  function Join(parts: seq<string>, sep: char): string
    requires |parts| >= 1
  {
    if |parts| == 1 then parts[0] else parts[0] + [sep] + Join(parts[1..], sep)
  }

  /** A join starts with its first piece's first character and ends with
      its last piece's last character. */
  lemma {:induction false} JoinEnds(parts: seq<string>, sep: char)
    requires |parts| >= 1 && parts[0] != [] && parts[|parts| - 1] != []
    ensures Join(parts, sep) != []
    ensures Join(parts, sep)[0] == parts[0][0]
    ensures Join(parts, sep)[|Join(parts, sep)| - 1] == parts[|parts| - 1][|parts[|parts| - 1]| - 1]
  {
    if |parts| > 1 {
      JoinLast(parts[1..], sep);
    }
  }

  lemma {:induction false} JoinLast(parts: seq<string>, sep: char)
    requires |parts| >= 1 && parts[|parts| - 1] != []
    ensures Join(parts, sep) != []
    ensures Join(parts, sep)[|Join(parts, sep)| - 1] == parts[|parts| - 1][|parts[|parts| - 1]| - 1]
  {
    if |parts| > 1 {
      JoinLast(parts[1..], sep);
    }
  }

  lemma {:induction false} JoinSplit(s: string, sep: char)
    ensures Join(Split(s, sep), sep) == s
  {
    if s != [] {
      JoinSplit(s[1..], sep);
      var rest := Split(s[1..], sep);
      if s[0] != sep {
        if |rest| == 1 {
          assert Join(rest, sep) == rest[0];
        } else {
          assert Join(rest, sep) == rest[0] + [sep] + Join(rest[1..], sep);
          assert ([s[0]] + rest[0]) + [sep] + Join(rest[1..], sep)
              == [s[0]] + (rest[0] + [sep] + Join(rest[1..], sep));
        }
        assert ([[s[0]] + rest[0]] + rest[1..])[1..] == rest[1..];
      } else {
        assert ([""] + rest)[1..] == rest;
      }
    }
  }

  lemma {:induction false} SplitJoin(parts: seq<string>, sep: char)
    requires |parts| >= 1
    requires forall p <- parts :: sep !in p
    ensures Split(Join(parts, sep), sep) == parts
    decreases |parts|, |parts[0]|
  {
    var p := parts[0];
    if |parts| == 1 {
      SplitSegment(p, sep, []);
    } else {
      SplitJoin(parts[1..], sep);
      SplitSegment(p, sep, Join(parts[1..], sep));
      assert Join(parts, sep) == p + ([sep] + Join(parts[1..], sep));
      assert [p] + parts[1..] == parts;
    }
  }

  /** Splitting a separator-free prefix followed by `tail` (empty or starting with `sep`). */
  lemma {:induction false} SplitSegment(p: string, sep: char, t: string)
    requires sep !in p
    ensures t == [] ==> Split(p, sep) == [p]
    ensures Split(p + [sep] + t, sep) == [p] + Split(t, sep)
    decreases |p|
  {
    if p == [] {
      assert [] + [sep] + t == [sep] + t;
      assert ([sep] + t)[1..] == t;
    } else {
      SplitSegment(p[1..], sep, t);
      assert (p + [sep] + t)[1..] == p[1..] + [sep] + t;
      assert [p[0]] + p[1..] == p;
      if t == [] {
        assert Split(p, sep) == [[p[0]] + p[1..]];
      }
    }
  }

  /** Splitting at a separator splits the two sides independently. */
  lemma {:induction false} SplitAtSeparator(a: string, sep: char, b: string)
    ensures Split(a + [sep] + b, sep) == Split(a, sep) + Split(b, sep)
  {
    if a == [] {
      assert a + [sep] + b == [sep] + b;
      SplitCons(sep, b, sep);
    } else {
      SplitAtSeparator(a[1..], sep, b);
      assert a == [a[0]] + a[1..];
      SplitAtSeparatorStep(a[0], a[1..], sep, b);
    }
  }

  lemma SplitAtSeparatorStep(x: char, t: string, sep: char, b: string)
    requires Split(t + [sep] + b, sep) == Split(t, sep) + Split(b, sep)
    ensures Split([x] + t + [sep] + b, sep) == Split([x] + t, sep) + Split(b, sep)
  {
    var rest := t + [sep] + b;
    assert [x] + t + [sep] + b == [x] + rest;
    SplitCons(x, rest, sep);
    SplitCons(x, t, sep);
    ConsPieces(x, Split(t, sep), Split(b, sep), sep);
  }

  lemma ConsPieces(x: char, q: seq<string>, r: seq<string>, sep: char)
    requires |q| >= 1
    ensures (if x == sep then [""] + (q + r) else [[x] + (q + r)[0]] + (q + r)[1..])
         == (if x == sep then [""] + q else [[x] + q[0]] + q[1..]) + r
  {
    if x != sep {
      assert (q + r)[1..] == q[1..] + r;
    }
  }

  /** One step of `Split`. */
  lemma SplitCons(x: char, t: string, sep: char)
    ensures var q := Split(t, sep);
            Split([x] + t, sep) == if x == sep then [""] + q else [[x] + q[0]] + q[1..]
  {
    assert ([x] + t)[1..] == t;
  }

  /** Appending a non-separator character extends the last piece. */
  lemma {:induction false} SplitSnoc(a: string, sep: char, c: char)
    requires c != sep
    ensures var p := Split(a, sep);
            Split(a + [c], sep) == p[..|p| - 1] + [p[|p| - 1] + [c]]
  {
    if a == [] {
      assert a + [c] == [c] + a;
      SplitCons(c, a, sep);
    } else {
      SplitSnoc(a[1..], sep, c);
      assert a == [a[0]] + a[1..];
      SplitSnocStep(a[0], a[1..], sep, c);
    }
  }

  lemma SplitSnocStep(x: char, t: string, sep: char, c: char)
    requires var q := Split(t, sep);
             Split(t + [c], sep) == q[..|q| - 1] + [q[|q| - 1] + [c]]
    ensures var p := Split([x] + t, sep);
            Split([x] + t + [c], sep) == p[..|p| - 1] + [p[|p| - 1] + [c]]
  {
    assert [x] + t + [c] == [x] + (t + [c]);
    SplitCons(x, t, sep);
    SplitCons(x, t + [c], sep);
    SnocPieces(x, Split(t, sep), sep, c);
  }

  lemma SnocPieces(x: char, q: seq<string>, sep: char, c: char)
    requires |q| >= 1
    ensures var q' := q[..|q| - 1] + [q[|q| - 1] + [c]];
            var p := if x == sep then [""] + q else [[x] + q[0]] + q[1..];
            (if x == sep then [""] + q' else [[x] + q'[0]] + q'[1..])
              == p[..|p| - 1] + [p[|p| - 1] + [c]]
  {
    var q' := q[..|q| - 1] + [q[|q| - 1] + [c]];
    if x != sep && |q| == 1 {
      assert [x] + (q[0] + [c]) == ([x] + q[0]) + [c];
    } else if x != sep {
      assert q'[0] == q[0];
      assert q'[1..] == q[1..|q| - 1] + [q[|q| - 1] + [c]];
    }
  }

  function StripCarriageReturn(line: string): (r: string)
    ensures forall c <- r :: c in line
  {
    if |line| > 0 && line[|line| - 1] == '\r' then line[..|line| - 1] else line
  }

  /** `StripCarriageReturn` applied to every line. */
  function StripAll(lines: seq<string>): (r: seq<string>)
    requires forall l <- lines :: '\n' !in l
    ensures |r| == |lines|
    ensures forall l <- r :: '\n' !in l
  {
    if lines == [] then [] else [StripCarriageReturn(lines[0])] + StripAll(lines[1..])
  }

  /** `s.lines()`: split on line feeds, drop the empty piece after a final
      line feed, and strip one trailing carriage return from every line. */
  function Lines(s: string): (r: seq<string>)
    ensures forall l <- r :: '\n' !in l
  {
    var parts := Split(s, '\n');
    StripAll(if parts[|parts| - 1] == "" then parts[..|parts| - 1] else parts)
  }

  lemma {:induction false} StripAllKeeps(lines: seq<string>)
    requires forall l <- lines :: '\n' !in l && (l == [] || l[|l| - 1] != '\r')
    ensures StripAll(lines) == lines
  {
    if lines != [] {
      assert lines[0] in lines;
      assert forall l <- lines[1..] :: l in lines;
      StripAllKeeps(lines[1..]);
      assert [lines[0]] + lines[1..] == lines;
    }
  }

  /** Lines without line feeds or a final carriage return, the last one non-empty,
      joined with line feeds, are read back by `Lines`. */
  lemma LinesJoin(parts: seq<string>)
    requires |parts| >= 1 && parts[|parts| - 1] != ""
    requires forall p <- parts :: '\n' !in p && (p == [] || p[|p| - 1] != '\r')
    ensures Lines(Join(parts, '\n')) == parts
  {
    SplitJoin(parts, '\n');
    StripAllKeeps(parts);
  }

  /** Concatenation associates; stated apart so that proofs about long
      concatenations can appeal to it without unfolding anything. */
  lemma Associates<T>(x: seq<T>, y: seq<T>, z: seq<T>)
    ensures x + y + z == x + (y + z)
  {
  }

  /** A prefix one element longer. */
  lemma TakeNext<T>(s: seq<T>, k: nat)
    requires k < |s|
    ensures s[..k + 1] == s[..k] + [s[k]]
  {
  }

  /** Every character of a join is the separator or comes from a piece. */
  lemma {:induction false} JoinChars(parts: seq<string>, sep: char)
    requires |parts| >= 1
    ensures forall c <- Join(parts, sep) :: c == sep || exists p <- parts :: c in p
    decreases |parts|
  {
    if |parts| > 1 {
      JoinChars(parts[1..], sep);
      forall p <- parts[1..]
        ensures p in parts
      {
      }
    }
  }

  /** Lines each ended by a newline read back as those lines. */
  lemma LinesTerminated(parts: seq<string>)
    requires |parts| >= 1
    requires forall p <- parts :: '\n' !in p && (p == [] || p[|p| - 1] != '\r')
    ensures Lines(Join(parts, '\n') + "\n") == parts
  {
    assert Join(parts, '\n') + "\n" == Join(parts, '\n') + ['\n'] + [];
    SplitAtSeparator(Join(parts, '\n'), '\n', []);
    SplitJoin(parts, '\n');
    var all := parts + [""];
    assert all[..|all| - 1] == parts;
    StripAllKeeps(parts);
  }

  /** Each line followed by a newline, as `writeln!` writes it. */
  function Terminated(lines: seq<string>): string
  {
    if lines == [] then "" else lines[0] + "\n" + Terminated(lines[1..])
  }

  /** One more line at the end. */
  lemma {:induction false} TerminatedSnoc(lines: seq<string>, l: string)
    ensures Terminated(lines + [l]) == Terminated(lines) + (l + "\n")
    decreases |lines|
  {
    if lines != [] {
      assert (lines + [l])[1..] == lines[1..] + [l];
      TerminatedSnoc(lines[1..], l);
      Associates(lines[0] + "\n", Terminated(lines[1..]), l + "\n");
    }
  }

  /** Terminating each line is joining them and ending with a newline. */
  lemma {:induction false} TerminatedJoin(lines: seq<string>)
    requires |lines| >= 1
    ensures Terminated(lines) == Join(lines, '\n') + "\n"
    decreases |lines|
  {
    if |lines| > 1 {
      TerminatedJoin(lines[1..]);
      Associates(lines[0] + "\n", Join(lines[1..], '\n'), "\n");
    }
  }

  /** Lines without line feeds or a final carriage return, each ended by a
      newline, are read back by `Lines`. */
  lemma LinesOfTerminated(lines: seq<string>)
    requires forall l <- lines :: '\n' !in l && (l == [] || l[|l| - 1] != '\r')
    ensures Lines(Terminated(lines)) == lines
  {
    if lines == [] {
      assert Split("", '\n') == [""];
    } else {
      TerminatedJoin(lines);
      LinesTerminated(lines);
    }
  }

  function TrimStart(s: string): string
  {
    if s != [] && IsWhitespace(s[0]) then TrimStart(s[1..]) else s
  }

  function TrimEnd(s: string): string
  {
    if s != [] && IsWhitespace(s[|s| - 1]) then TrimEnd(s[..|s| - 1]) else s
  }

  /** `s.trim()`. */
  function Trim(s: string): string
  {
    TrimEnd(TrimStart(s))
  }

  // ---------------------------------------------------------------------
  // Integers

  predicate AllDigits(s: string) { forall c <- s :: IsDigit(c) }

  /** The value of a string of decimal digits, most significant first. */
  function DigitsValue(s: string): nat
    requires AllDigits(s)
  {
    if s == [] then 0 else 10 * DigitsValue(s[..|s| - 1]) + DigitValue(s[|s| - 1])
  }

  /** `str::parse` for an integer type with range lo..=hi: an optional sign
      ('-' only where the type is signed), then at least one digit. */
  function ParseInt(s: string, lo: int, hi: int): (r: Option<int>)
    ensures r.Some? ==> lo <= r.value <= hi
    ensures AllDigits(s) && s != [] && lo <= DigitsValue(s) <= hi ==> r == Some(DigitsValue(s))
    ensures s == [] ==> r.None?
  {
    if s == [] then None
    else if s[0] == '+' || s[0] == '-' then
      assert !IsDigit(s[0]);
      var body := s[1..];
      if body == [] || !AllDigits(body) then None
      else
        var v: int := if s[0] == '-' then -(DigitsValue(body) as int) else DigitsValue(body);
        if s[0] == '-' && lo >= 0 then None   // unsigned types refuse any '-'
        else if lo <= v <= hi then Some(v) else None
    else if AllDigits(s) && lo <= DigitsValue(s) <= hi then Some(DigitsValue(s))
    else None
  }

  const I32_MIN: int := -0x8000_0000
  const I32_MAX: int := 0x7FFF_FFFF
  const U8_MAX: int := 0xFF
  const U16_MAX: int := 0xFFFF
  const U32_MAX: int := 0xFFFF_FFFF
  const U64_MAX: int := 0xFFFF_FFFF_FFFF_FFFF

  /** The decimal digits of `n`, without leading zeros ("0" for zero). */
  function ShowNat(n: nat): (s: string)
    ensures s != [] && AllDigits(s) && DigitsValue(s) == n
  {
    if n < 10 then [DigitChar(n)]
    else
      var p := ShowNat(n / 10);
      assert (p + [DigitChar(n % 10)])[..|p|] == p;
      p + [DigitChar(n % 10)]
  }

  function Abs(v: int): (r: nat)
    ensures r == v || r == -v
  {
    if v < 0 then -v else v
  }

  /** Rust's `Display` for a signed integer. */
  function ShowInt(v: int): (s: string)
    ensures s != [] && IsDigit(s[|s| - 1])
    ensures IsDigit(s[0]) || s[0] == '-'
  {
    if v < 0 then "-" + ShowNat(-v) else ShowNat(v)
  }

  /** A positive factor of at least one gives at least the other factor. */
  lemma ProductAtLeast(a: nat, b: int)
    requires b >= 1
    ensures a * b >= a
  {
    assert a * b == a + a * (b - 1);
  }

  /** Euclidean division is determined by its defining equation. */
  lemma DivModUnique(n: int, d: int, q: int, r: int)
    requires d > 0 && 0 <= r < d && n == q * d + r
    ensures n / d == q && n % d == r
  {
    var q', r' := n / d, n % d;
    assert n == q' * d + r';
    assert (q - q') * d == r' - r by {
      assert (q - q') * d == q * d - q' * d;
    }
    if q - q' >= 1 {
      ProductAtLeast(d, q - q');
    } else if q' - q >= 1 {
      ProductAtLeast(d, q' - q);
    }
  }

  /** Parsing a displayed integer of the parsed type gives it back. */
  lemma ParseShowInt(v: int, lo: int, hi: int)
    requires lo <= v <= hi && lo < 0
    ensures ParseInt(ShowInt(v), lo, hi) == Some(v)
  {
    if v < 0 {
      var p := ShowNat(-v);
      assert ("-" + p)[1..] == p;
      assert !IsDigit('-');
    } else {
      var p := ShowNat(v);
      assert p[0] in p;
    }
  }

  /** Trimming leaves alone a string that neither starts nor ends with whitespace. */
  lemma TrimKeeps(s: string)
    requires s != [] && !IsWhitespace(s[0]) && !IsWhitespace(s[|s| - 1])
    ensures Trim(s) == s
  {
  }

  /** Trimming drops one whitespace character after a string that neither
      starts nor ends with whitespace. */
  lemma TrimWhitespaceAfter(s: string, c: char)
    requires s != [] && !IsWhitespace(s[0]) && !IsWhitespace(s[|s| - 1]) && IsWhitespace(c)
    ensures Trim(s + [c]) == s
  {
    assert TrimStart(s + [c]) == s + [c];
    assert (s + [c])[..|s|] == s;
    assert TrimEnd(s + [c]) == TrimEnd(s);
    assert TrimEnd(s) == s;
  }

  lemma TrimSpaceBefore(s: string)
    requires s != [] && !IsWhitespace(s[0]) && !IsWhitespace(s[|s| - 1])
    ensures Trim(" " + s) == s
  {
    assert (" " + s)[1..] == s;
    assert TrimStart(" " + s) == TrimStart(s) == s;
  }

  // ---------------------------------------------------------------------
  // Sums

  function Sum(s: seq<int>): int
  {
    if s == [] then 0 else s[0] + Sum(s[1..])
  }

  lemma {:induction false} SumAppend(a: seq<int>, b: seq<int>)
    ensures Sum(a + b) == Sum(a) + Sum(b)
  {
    if a == [] {
      assert a + b == b;
    } else {
      SumAppend(a[1..], b);
      assert (a + b)[1..] == a[1..] + b;
    }
  }

  // ---------------------------------------------------------------------
  // Maps

  /** A subset is no larger than its superset, and equally large only when
      it is the whole superset. */
  lemma {:induction false} SubsetCard<T>(a: set<T>, b: set<T>)
    requires a <= b
    ensures |a| <= |b|
    ensures |a| == |b| ==> a == b
    decreases |b|
  {
    if b != {} {
      var x :| x in b;
      SubsetCard(a - {x}, b - {x});
      if x !in a {
        assert a - {x} == a;
      } else {
        assert a == (a - {x}) + {x};
        assert b == (b - {x}) + {x};
      }
    }
  }

  /** `max_by_key` over a map's entries: some key whose value is largest
      (which one among equal values depends on hash order in the source). */
  method MaxByValue<K>(m: map<K, int>) returns (k: K)
    requires m != map[]
    ensures k in m && forall k' <- m.Keys :: m[k'] <= m[k]
  {
    var keys := m.Keys;
    k :| k in keys;
    keys := keys - {k};
    while keys != {}
      invariant keys <= m.Keys && k in m
      invariant forall k' <- m.Keys - keys :: m[k'] <= m[k]
      decreases |keys|
    {
      var k' :| k' in keys;
      if m[k'] > m[k] {
        k := k';
      }
      keys := keys - {k'};
    }
  }

  /** `min_by_key` over a map's entries: some key whose value is smallest. */
  method MinByValue<K>(m: map<K, int>) returns (k: K)
    requires m != map[]
    ensures k in m && forall k' <- m.Keys :: m[k] <= m[k']
  {
    var keys := m.Keys;
    k :| k in keys;
    keys := keys - {k};
    while keys != {}
      invariant keys <= m.Keys && k in m
      invariant forall k' <- m.Keys - keys :: m[k] <= m[k']
      decreases |keys|
    {
      var k' :| k' in keys;
      if m[k'] < m[k] {
        k := k';
      }
      keys := keys - {k'};
    }
  }
}

// Day 4: Repose Record. Guard shift records, the sleeping periods they
// describe, and the two strategies for picking a guard and a minute.
module Day04 {
  import opened Common

  datatype Event = FallAsleep | WakeUp

  datatype Record = Record(guard: nat, day: string, hour: nat, minute: nat, event: Event)

  /** A half-open sleeping period `(from, till)` in minutes of the midnight hour. */
  type Period = (nat, nat)

  // ---------------------------------------------------------------------
  // Sorting the lines

  /** Rust's `Ord for str`: lexicographic by character. */
  predicate LexLe(a: string, b: string)
  {
    a == [] || (b != [] && (a[0] < b[0] || (a[0] == b[0] && LexLe(a[1..], b[1..]))))
  }

  lemma {:induction false} LexTotal(a: string, b: string)
    ensures LexLe(a, b) || LexLe(b, a)
  {
    if a != [] && b != [] && a[0] == b[0] {
      LexTotal(a[1..], b[1..]);
    }
  }

  predicate SortedLines(s: seq<string>)
  {
    forall i :: 0 < i < |s| ==> LexLe(s[i - 1], s[i])
  }

  function Insert(x: string, s: seq<string>): (r: seq<string>)
  {
    if s == [] then [x]
    else if LexLe(x, s[0]) then [x] + s
    else [s[0]] + Insert(x, s[1..])
  }

  /** `lines.sort()`, as an insertion sort. */
  function SortLines(lines: seq<string>): seq<string>
  {
    if lines == [] then [] else Insert(lines[0], SortLines(lines[1..]))
  }

  lemma {:induction false} InsertSorted(x: string, s: seq<string>)
    requires SortedLines(s)
    ensures SortedLines(Insert(x, s))
    ensures s != [] ==> Insert(x, s)[0] == x || Insert(x, s)[0] == s[0]
  {
    if s != [] && !LexLe(x, s[0]) {
      LexTotal(x, s[0]);
      InsertSorted(x, s[1..]);
      var r := Insert(x, s[1..]);
      assert Insert(x, s) == [s[0]] + r;
      forall i | 0 < i < |Insert(x, s)| ensures LexLe(Insert(x, s)[i - 1], Insert(x, s)[i]) {
        if i > 1 {
          assert Insert(x, s)[i - 1] == r[i - 2] && Insert(x, s)[i] == r[i - 1];
        }
      }
    }
  }

  lemma {:induction false} InsertPermutes(x: string, s: seq<string>)
    ensures multiset(Insert(x, s)) == multiset(s) + multiset{x}
  {
    if s != [] && !LexLe(x, s[0]) {
      InsertPermutes(x, s[1..]);
      assert s == [s[0]] + s[1..];
    }
  }

  /** The sorted lines are in order and are the same lines. */
  lemma {:induction false} SortLinesSpec(lines: seq<string>)
    ensures SortedLines(SortLines(lines))
    ensures multiset(SortLines(lines)) == multiset(lines)
  {
    if lines != [] {
      SortLinesSpec(lines[1..]);
      InsertSorted(lines[0], SortLines(lines[1..]));
      InsertPermutes(lines[0], SortLines(lines[1..]));
      assert lines == [lines[0]] + lines[1..];
    }
  }

  // ---------------------------------------------------------------------
  // Parsing

  /** What one line says: a new shift, or an event of the current guard. */
  datatype Entry = Shift(guard: nat) | Happening(day: string, hour: nat, minute: nat, event: Event)

  /** The digits of `s`, in order. */
  function FilterDigits(s: string): (r: string)
  {
    if s == [] then [] else (if IsDigit(s[0]) then [s[0]] else []) + FilterDigits(s[1..])
  }

  /** Digits followed by a digit-free tail filter to those digits. */
  lemma {:induction false} FilterDigitsKeeps(d: string, rest: string)
    requires AllDigits(d) && forall c <- rest :: !IsDigit(c)
    ensures FilterDigits(d + rest) == d
  {
    if d == [] {
      assert d + rest == rest;
      FilterDigitsNone(rest);
    } else {
      assert (d + rest)[1..] == d[1..] + rest;
      FilterDigitsKeeps(d[1..], rest);
      assert [d[0]] + d[1..] == d;
    }
  }

  lemma {:induction false} FilterDigitsNone(rest: string)
    requires forall c <- rest :: !IsDigit(c)
    ensures FilterDigits(rest) == []
  {
    if rest != [] {
      assert forall c <- rest[1..] :: c in rest;
      FilterDigitsNone(rest[1..]);
    }
  }

  /** One line: the word at columns 19..24 decides its kind; a guard's id is
      the digits after column 26 as a `u16`; an event's day, hour and minute
      sit at columns 1..11, 12..14 and 15..17. `None` is a panic (a short
      line, a bad number, an unknown word). */
  function ParseEntry(line: string): (r: Option<Entry>)
    ensures r.Some? && r.value.Happening? ==> r.value.hour <= U8_MAX && r.value.minute <= U8_MAX
    ensures r.Some? && r.value.Shift? ==> r.value.guard <= U16_MAX
  {
    if |line| < 24 then None
    else
      var word := line[19..24];
      if word == "Guard" then
        if |line| < 26 then None
        else
          match ParseInt(FilterDigits(line[26..]), 0, U16_MAX)
          case None => None
          case Some(id) => Some(Shift(id))
      else if word == "falls" || word == "wakes" then
        match (ParseInt(line[12..14], 0, U8_MAX), ParseInt(line[15..17], 0, U8_MAX))
        case (Some(hour), Some(minute)) =>
          Some(Happening(line[1..11], hour, minute, if word == "falls" then FallAsleep else WakeUp))
        case _ => None
      else None
  }

  /** The records of the (sorted) lines, each carrying the guard of the last shift line before it. */
  function ParseRecords(lines: seq<string>, guard: nat): (r: Option<seq<Record>>)
    ensures r.Some? ==> forall rec <- r.value :: rec.minute <= U8_MAX
  {
    if lines == [] then Some([])
    else match ParseEntry(lines[0])
      case None => None
      case Some(Shift(g)) => ParseRecords(lines[1..], g)
      case Some(Happening(day, hour, minute, event)) =>
        match ParseRecords(lines[1..], guard)
        case None => None
        case Some(rest) => Some([Record(guard, day, hour, minute, event)] + rest)
  }

  /** `parse`: sort the lines, then read them in order. */
  function Parse(input: string): (r: Option<seq<Record>>)
    ensures r.Some? ==> forall rec <- r.value :: rec.minute <= U8_MAX
  {
    ParseRecords(SortLines(Lines(input)), 0)
  }

  /** Every record's guard is the initial guard 0 or one named on a shift line. */
  lemma {:induction false} RecordGuards(lines: seq<string>, guard: nat)
    requires ParseRecords(lines, guard).Some?
    ensures forall rec <- ParseRecords(lines, guard).value ::
      rec.guard == guard || exists l <- lines :: ParseEntry(l) == Some(Shift(rec.guard))
  {
    if lines != [] {
      var rs := ParseRecords(lines, guard).value;
      match ParseEntry(lines[0])
      case Some(Shift(g)) =>
        RecordGuards(lines[1..], g);
        forall rec <- rs
          ensures rec.guard == guard || exists l <- lines :: ParseEntry(l) == Some(Shift(rec.guard))
        {
          if rec.guard != g {
            var l :| l in lines[1..] && ParseEntry(l) == Some(Shift(rec.guard));
            assert l in lines;
          } else {
            assert lines[0] in lines;
          }
        }
      case Some(Happening(_, _, _, _)) =>
        RecordGuards(lines[1..], guard);
        forall rec <- rs
          ensures rec.guard == guard || exists l <- lines :: ParseEntry(l) == Some(Shift(rec.guard))
        {
          if rec != rs[0] && rec.guard != guard {
            assert rec in rs[1..];
            var l :| l in lines[1..] && ParseEntry(l) == Some(Shift(rec.guard));
            assert l in lines;
          }
        }
    }
  }

  /** `a` sorts strictly before `b` within their common length. */
  predicate LexLt(a: string, b: string)
  {
    a != [] && b != [] && (a[0] < b[0] || (a[0] == b[0] && LexLt(a[1..], b[1..])))
  }

  lemma {:induction false} LexLtPrefix(p: string, a: string, b: string)
    requires LexLt(a, b)
    ensures LexLt(p + a, p + b)
  {
    if p != [] {
      assert (p + a)[0] == p[0] == (p + b)[0];
      LexLtPrefix(p[1..], a, b);
      assert (p + a)[1..] == p[1..] + a && (p + b)[1..] == p[1..] + b;
    } else {
      assert p + a == a && p + b == b;
    }
  }

  lemma {:induction false} LexLtAppend(a: string, b: string, s: string, t: string)
    requires LexLt(a, b)
    ensures LexLe(a + s, b + t)
  {
    assert (a + s)[0] == a[0] && (b + t)[0] == b[0];
    if a[0] == b[0] && !(a[0] < b[0]) {
      LexLtAppend(a[1..], b[1..], s, t);
      assert (a + s)[1..] == a[1..] + s && (b + t)[1..] == b[1..] + t;
    }
  }

  /** A shift line: an 18-character time stamp, " Guard #", then the id somewhere in the tail. */
  lemma ShiftLine(stamp: string, tail: string)
    requires |stamp| == 18
    ensures ParseEntry(stamp + " Guard #" + tail)
         == match ParseInt(FilterDigits(tail), 0, U16_MAX)
            case None => None
            case Some(id) => Some(Shift(id))
  {
    var l := stamp + " Guard #" + tail;
    assert l[19..24] == "Guard";
    assert l[26..] == tail;
  }

  /** An event line: an 18-character time stamp, a space, then the word. */
  lemma EventLine(stamp: string, word: string, tail: string)
    requires |stamp| == 18 && (word == "falls" || word == "wakes")
    ensures ParseEntry(stamp + " " + word + tail)
         == match (ParseInt(stamp[12..14], 0, U8_MAX), ParseInt(stamp[15..17], 0, U8_MAX))
            case (Some(hour), Some(minute)) =>
              Some(Happening(stamp[1..11], hour, minute, if word == "falls" then FallAsleep else WakeUp))
            case _ => None
  {
    var l := stamp + " " + word + tail;
    assert l[19..24] == word;
    assert l[12..14] == stamp[12..14] && l[15..17] == stamp[15..17] && l[1..11] == stamp[1..11];
  }

  function ShiftLine577(): string { ("[1518-05-19" + " 23:51]") + " Guard #" + ("577" + " begins shift") }

  function FallsLine(): string { ("[1518-05-20" + " 00:03]") + " " + "falls" + " asleep" }

  lemma ParseFallsAsleepShift()
    ensures ParseEntry(ShiftLine577()) == Some(Shift(577))
  {
    ShiftLine("[1518-05-19" + " 23:51]", "577" + " begins shift");
    FilterDigitsKeeps("577", " begins shift");
    assert DigitsValue("577") == 577 by {
      assert "577"[..2] == "57";
      assert "57"[..1] == "5";
    }
  }

  lemma ParseFallsAsleepEvent()
    ensures ParseEntry(FallsLine()) == Some(Happening("1518-05-20", 0, 3, FallAsleep))
  {
    var stamp := "[1518-05-20" + " 00:03]";
    EventLine(stamp, "falls", " asleep");
    assert stamp[1..11] == "1518-05-20";
    assert stamp[12..14] == "00" && stamp[15..17] == "03";
    assert AllDigits("00") && AllDigits("03");
    assert "00"[..1] == "0" && "03"[..1] == "0";
    assert DigitsValue("0") == 0;
    assert DigitsValue("00") == 0 && DigitsValue("03") == 3;
  }

  lemma FallsAsleepLines()
    ensures Lines(ShiftLine577() + "\n" + FallsLine()) == [ShiftLine577(), FallsLine()]
  {
    var a, b := ShiftLine577(), FallsLine();
    var parts := [a, b];
    assert parts[1..] == [b];
    assert '\n' !in a && '\n' !in b && a[|a| - 1] == 't' && b[|b| - 1] == 'p';
    LinesJoin(parts);
    assert Join(parts, '\n') == a + "\n" + b;
  }

  lemma ConcatAssoc(a: string, b: string, c: string)
    ensures (a + b) + c == a + (b + c)
  {
  }

  /** The shift line, from the earlier day, sorts before the falling-asleep line. */
  lemma FallsAsleepOrdered()
    ensures LexLe(ShiftLine577(), FallsLine())
  {
    var s := " 23:51]" + " Guard #" + ("577" + " begins shift");
    var t := " 00:03]" + " " + "falls" + " asleep";
    assert LexLt("19", "20");
    LexLtPrefix("[1518-05-", "19", "20");
    assert "[1518-05-" + "19" == "[1518-05-19" && "[1518-05-" + "20" == "[1518-05-20";
    LexLtAppend("[1518-05-19", "[1518-05-20", s, t);
    ConcatAssoc("[1518-05-19", " 23:51]", " Guard #");
    ConcatAssoc("[1518-05-19", " 23:51]" + " Guard #", "577" + " begins shift");
    ConcatAssoc("[1518-05-20", " 00:03]", " ");
    ConcatAssoc("[1518-05-20", " 00:03]" + " ", "falls");
    ConcatAssoc("[1518-05-20", " 00:03]" + " " + "falls", " asleep");
  }

  lemma FallsAsleepSorted()
    ensures SortLines([ShiftLine577(), FallsLine()]) == [ShiftLine577(), FallsLine()]
  {
    FallsAsleepOrdered();
    assert [ShiftLine577(), FallsLine()][1..] == [FallsLine()];
  }

  /** A shift line followed by a falling-asleep line gives one record of that guard. */
  lemma ParseFallsAsleep()
    ensures Parse(ShiftLine577() + "\n" + FallsLine()) == Some([Record(577, "1518-05-20", 0, 3, FallAsleep)])
  {
    FallsAsleepLines();
    FallsAsleepSorted();
    ParseFallsAsleepShift();
    ParseFallsAsleepEvent();
    FallsAsleepRecords(ShiftLine577(), FallsLine());
  }

  lemma FallsAsleepRecords(a: string, b: string)
    requires ParseEntry(a) == Some(Shift(577))
    requires ParseEntry(b) == Some(Happening("1518-05-20", 0, 3, FallAsleep))
    ensures ParseRecords([a, b], 0) == Some([Record(577, "1518-05-20", 0, 3, FallAsleep)])
  {
    RecordsEvent(b, [], 577, Some([]));
    RecordsShift(a, [b], 577, 0);
    assert [a] + [b] == [a, b];
    assert [b] + [] == [b];
    var rec := Record(577, "1518-05-20", 0, 3, FallAsleep);
    assert [rec] + [] == [rec];
  }

  lemma RecordsShift(l: string, rest: seq<string>, g: nat, g0: nat)
    requires ParseEntry(l) == Some(Shift(g))
    ensures ParseRecords([l] + rest, g0) == ParseRecords(rest, g)
  {
    assert ([l] + rest)[1..] == rest;
  }

  lemma RecordsEvent(l: string, rest: seq<string>, g: nat, rs: Option<seq<Record>>)
    requires ParseEntry(l).Some? && ParseEntry(l).value.Happening?
    requires ParseRecords(rest, g) == rs && rs.Some?
    ensures var e := ParseEntry(l).value;
      ParseRecords([l] + rest, g) == Some([Record(g, e.day, e.hour, e.minute, e.event)] + rs.value)
  {
    assert ([l] + rest)[1..] == rest;
  }

  // ---------------------------------------------------------------------
  // Sleeping periods

  function Lookup(m: map<nat, seq<Period>>, g: nat): seq<Period>
  {
    if g in m then m[g] else []
  }

  /** One record applied to (periods by guard, last falling-asleep minute). */
  function Step(periods: map<nat, seq<Period>>, fall: nat, rec: Record): (map<nat, seq<Period>>, nat)
  {
    match rec.event
    case FallAsleep => (periods, rec.minute)
    case WakeUp => (periods[rec.guard := Lookup(periods, rec.guard) + [(fall, rec.minute)]], fall)
  }

  /** The remaining records applied in order to a state. */
  function PeriodsFrom(rs: seq<Record>, periods: map<nat, seq<Period>>, fall: nat): (map<nat, seq<Period>>, nat)
  {
    if rs == [] then (periods, fall)
    else
      var (p, f) := Step(periods, fall, rs[0]);
      PeriodsFrom(rs[1..], p, f)
  }

  /** `sleeping_periods`: the periods of every guard that woke up at least once. */
  ghost function SleepingPeriodsOf(rs: seq<Record>): map<nat, seq<Period>>
  {
    PeriodsFrom(rs, map[], 0).0
  }

  /** Reference definition: guard `g`'s periods, each wake-up of `g` paired
      with the minute of the latest falling asleep before it (of any guard,
      0 if none). */
  function GuardPeriods(rs: seq<Record>, g: nat, fall: nat): seq<Period>
  {
    if rs == [] then []
    else match rs[0].event
      case FallAsleep => GuardPeriods(rs[1..], g, rs[0].minute)
      case WakeUp => (if rs[0].guard == g then [(fall, rs[0].minute)] else []) + GuardPeriods(rs[1..], g, fall)
  }

  lemma {:induction false} PeriodsFromSpec(rs: seq<Record>, periods: map<nat, seq<Period>>, fall: nat, g: nat)
    ensures Lookup(PeriodsFrom(rs, periods, fall).0, g) == Lookup(periods, g) + GuardPeriods(rs, g, fall)
    ensures g in PeriodsFrom(rs, periods, fall).0 <==> g in periods || GuardPeriods(rs, g, fall) != []
  {
    if rs != [] {
      var (p, f) := Step(periods, fall, rs[0]);
      PeriodsFromSpec(rs[1..], p, f, g);
      if rs[0].event == WakeUp && rs[0].guard == g {
        assert Lookup(p, g) == Lookup(periods, g) + [(fall, rs[0].minute)];
      }
    } else {
      assert Lookup(periods, g) + [] == Lookup(periods, g);
    }
  }

  /** A guard has periods exactly when it woke up, and they are its reference periods. */
  lemma SleepingPeriodsSpec(rs: seq<Record>, g: nat)
    ensures g in SleepingPeriodsOf(rs) <==> GuardPeriods(rs, g, 0) != []
    ensures Lookup(SleepingPeriodsOf(rs), g) == GuardPeriods(rs, g, 0)
  {
    PeriodsFromSpec(rs, map[], 0, g);
    assert Lookup(map[], g) == [];
  }

  /** `sleeping_periods`. */
  method SleepingPeriods(rs: seq<Record>) returns (periods: map<nat, seq<Period>>)
    ensures periods == SleepingPeriodsOf(rs)
  {
    periods := map[];
    var fall := 0;
    for i := 0 to |rs|
      invariant PeriodsFrom(rs[i..], periods, fall) == PeriodsFrom(rs, map[], 0)
    {
      assert rs[i..][1..] == rs[i + 1..];
      var rec := rs[i];
      match rec.event {
        case FallAsleep =>
          fall := rec.minute;
        case WakeUp =>
          var period := (fall, rec.minute);
          assert [] + [period] == [period];
          if rec.guard in periods {
            periods := periods[rec.guard := periods[rec.guard] + [period]];
          } else {
            periods := periods[rec.guard := [period]];
          }
      }
    }
  }

  // ---------------------------------------------------------------------
  // Minutes asleep

  /** A guard is asleep from `from` up to but not including `till`. */
  function MinuteCount(ps: seq<Period>, m: nat): (n: nat)
    ensures n <= |ps|
  {
    if ps == [] then 0 else (if ps[0].0 <= m < ps[0].1 then 1 else 0) + MinuteCount(ps[1..], m)
  }

  lemma {:induction false} MinuteCountAppend(a: seq<Period>, b: seq<Period>, m: nat)
    ensures MinuteCount(a + b, m) == MinuteCount(a, m) + MinuteCount(b, m)
  {
    if a == [] {
      assert a + b == b;
    } else {
      MinuteCountAppend(a[1..], b, m);
      assert (a + b)[1..] == a[1..] + b;
    }
  }

  /** Total minutes asleep, as the sum of `till - from`. */
  function Total(ps: seq<Period>): int
  {
    if ps == [] then 0 else (ps[0].1 - ps[0].0) + Total(ps[1..])
  }

  /** The per-minute counting loop: how many periods cover each minute that is covered at all. */
  method CountMinutes(ps: seq<Period>) returns (counts: map<nat, nat>)
    ensures forall m :: m in counts <==> MinuteCount(ps, m) > 0
    ensures forall m <- counts.Keys :: counts[m] == MinuteCount(ps, m)
  {
    counts := map[];
    for i := 0 to |ps|
      invariant forall m :: m in counts <==> MinuteCount(ps[..i], m) > 0
      invariant forall m <- counts.Keys :: counts[m] == MinuteCount(ps[..i], m)
    {
      var (from, till) := ps[i];
      var minute := from;
      while minute < till
        invariant from <= minute && (minute <= till || minute == from)
        invariant forall m :: m in counts <==> MinuteCount(ps[..i], m) + (if from <= m < minute then 1 else 0) > 0
        invariant forall m <- counts.Keys :: counts[m] == MinuteCount(ps[..i], m) + (if from <= m < minute then 1 else 0)
      {
        if minute in counts {
          counts := counts[minute := counts[minute] + 1];
        } else {
          counts := counts[minute := 1];
        }
        minute := minute + 1;
      }
      assert ps[..i + 1] == ps[..i] + [ps[i]];
      forall m ensures MinuteCount(ps[..i + 1], m) == MinuteCount(ps[..i], m) + (if from <= m < till then 1 else 0) {
        MinuteCountAppend(ps[..i], [ps[i]], m);
      }
    }
    assert ps[..|ps|] == ps;
  }

  /** `g` slept at least as long as every other guard. */
  ghost predicate Sleepiest(periods: map<nat, seq<Period>>, g: nat)
  {
    g in periods && forall g' <- periods.Keys :: Total(periods[g']) <= Total(periods[g])
  }

  /** `m` is a minute covered most often, and at least once. */
  ghost predicate MostFrequentMinute(ps: seq<Period>, m: nat)
  {
    MinuteCount(ps, m) > 0 && forall m' :: MinuteCount(ps, m') <= MinuteCount(ps, m)
  }

  /** No minute is covered at all. */
  ghost predicate NeverAsleep(ps: seq<Period>)
  {
    forall m :: MinuteCount(ps, m) == 0
  }

  /** What `most_asleep_minute` may return; `None` is its panic when no guard
      sleeps or the chosen sleepiest guard has no minute asleep. */
  ghost predicate MostAsleepSpec(rs: seq<Record>, r: Option<(nat, nat)>)
  {
    var periods := SleepingPeriodsOf(rs);
    match r
    case Some((g, m)) => Sleepiest(periods, g) && MostFrequentMinute(periods[g], m)
    case None => periods == map[] || exists g :: Sleepiest(periods, g) && NeverAsleep(periods[g])
  }

  /** `most_asleep_minute`: the guard with the most minutes asleep and that guard's most frequent minute. */
  method MostAsleepMinute(rs: seq<Record>) returns (r: Option<(nat, nat)>)
    ensures MostAsleepSpec(rs, r)
    ensures SleepingPeriodsOf(rs) == map[] ==> r.None?
  {
    var periods := SleepingPeriods(rs);
    if periods == map[] {
      return None;
    }
    var totals := map g | g in periods :: Total(periods[g]);
    var guard := MaxByValue(totals);
    assert Sleepiest(periods, guard) by {
      forall g' <- periods.Keys ensures Total(periods[g']) <= Total(periods[guard]) {
        assert totals[g'] <= totals[guard];
      }
    }
    var counts := CountMinutes(periods[guard]);
    if counts == map[] {
      assert NeverAsleep(periods[guard]);
      return None;
    }
    var minute := MaxByValue(counts);
    assert MostFrequentMinute(periods[guard], minute) by {
      forall m' ensures MinuteCount(periods[guard], m') <= MinuteCount(periods[guard], minute) {
        if m' in counts {
          assert counts[m'] <= counts[minute];
        }
      }
    }
    return Some((guard, minute));
  }

  /** What `most_frequently_asleep_minute` may return; `None` is its panic
      when no guard sleeps or some guard has no minute asleep. */
  ghost predicate MostFrequentSpec(rs: seq<Record>, r: Option<(nat, nat, nat)>)
  {
    var periods := SleepingPeriodsOf(rs);
    match r
    case Some((g, m, c)) =>
      g in periods && c == MinuteCount(periods[g], m) && c > 0
      && (forall g' <- periods.Keys, m' :: MinuteCount(periods[g'], m') <= c)
      && (forall g' <- periods.Keys :: !NeverAsleep(periods[g']))
    case None => periods == map[] || exists g <- periods.Keys :: NeverAsleep(periods[g])
  }

  /** `most_frequently_asleep_minute`: the guard and minute asleep most often, with the count. */
  method MostFrequentlyAsleepMinute(rs: seq<Record>) returns (r: Option<(nat, nat, nat)>)
    ensures MostFrequentSpec(rs, r)
  {
    var periods := SleepingPeriods(rs);
    if periods == map[] {
      return None;
    }
    var remaining := periods.Keys;
    var best: Option<(nat, nat, nat)> := None;
    while remaining != {}
      invariant remaining <= periods.Keys
      invariant forall g <- periods.Keys - remaining :: !NeverAsleep(periods[g])
      invariant best.None? ==> remaining == periods.Keys
      invariant best.Some? ==>
        var (g, m, c) := best.value;
        g in periods && c == MinuteCount(periods[g], m) && c > 0
        && forall g' <- periods.Keys - remaining, m' :: MinuteCount(periods[g'], m') <= c
      decreases |remaining|
    {
      var guard :| guard in remaining;
      var counts := CountMinutes(periods[guard]);
      if counts == map[] {
        return None;
      }
      var minute := MaxByValue(counts);
      var count := counts[minute];
      if best.None? || best.value.2 <= count {
        best := Some((guard, minute, count));
      }
      remaining := remaining - {guard};
    }
    return best;
  }

  /** `strategy1`: the guard id times the chosen minute. */
  method Strategy1(rs: seq<Record>) returns (r: Option<nat>)
    ensures r.None? ==> MostAsleepSpec(rs, None)
    ensures r.Some? ==> exists g: nat, m: nat :: MostAsleepSpec(rs, Some((g, m))) && r.value == g * m
  {
    var choice := MostAsleepMinute(rs);
    match choice {
      case None => return None;
      case Some((g, m)) => return Some(g * m);
    }
  }

  /** `strategy2`: the guard id times the chosen minute. */
  method Strategy2(rs: seq<Record>) returns (r: Option<nat>)
    ensures r.None? ==> MostFrequentSpec(rs, None)
    ensures r.Some? ==> exists g: nat, m: nat, c: nat :: MostFrequentSpec(rs, Some((g, m, c))) && r.value == g * m
  {
    var choice := MostFrequentlyAsleepMinute(rs);
    match choice {
      case None => return None;
      case Some((g, m, c)) => return Some(g * m);
    }
  }

  // ---------------------------------------------------------------------
  // The example of the puzzle text

  /** One night: the guard falls asleep at `from` and wakes up at `till`. */
  datatype Night = Night(guard: nat, day: string, from: nat, till: nat)

  function NightRecords(ns: seq<Night>): seq<Record>
  {
    if ns == [] then []
    else [Record(ns[0].guard, ns[0].day, 0, ns[0].from, FallAsleep),
          Record(ns[0].guard, ns[0].day, 0, ns[0].till, WakeUp)] + NightRecords(ns[1..])
  }

  function NightPeriods(ns: seq<Night>, g: nat): seq<Period>
  {
    if ns == [] then [] else (if ns[0].guard == g then [(ns[0].from, ns[0].till)] else []) + NightPeriods(ns[1..], g)
  }

  /** Records made of whole nights give each guard the periods of its own nights. */
  lemma {:induction false} NightRecordsPeriods(ns: seq<Night>, g: nat, fall: nat)
    ensures GuardPeriods(NightRecords(ns), g, fall) == NightPeriods(ns, g)
  {
    if ns != [] {
      var rs := NightRecords(ns);
      NightRecordsPeriods(ns[1..], g, ns[0].from);
      assert rs[1..][1..] == NightRecords(ns[1..]);
      assert GuardPeriods(rs[1..], g, ns[0].from)
          == (if ns[0].guard == g then [(ns[0].from, ns[0].till)] else []) + GuardPeriods(rs[1..][1..], g, ns[0].from);
    }
  }

  function ExampleNights(): seq<Night>
  {
    [ Night(10, "1518-11-01", 5, 25), Night(10, "1518-11-01", 30, 55), Night(99, "1518-11-02", 40, 50),
      Night(10, "1518-11-03", 24, 29), Night(99, "1518-11-04", 36, 46), Night(99, "1518-11-05", 45, 55) ]
  }

  /** The records of the example in the puzzle text, in time order. */
  function ExampleRecords(): seq<Record>
  {
    NightRecords(ExampleNights())
  }

  lemma ExampleGuards(g: nat)
    ensures Lookup(SleepingPeriodsOf(ExampleRecords()), g) == NightPeriods(ExampleNights(), g)
    ensures g in SleepingPeriodsOf(ExampleRecords()) <==> g == 10 || g == 99
  {
    SleepingPeriodsSpec(ExampleRecords(), g);
    NightRecordsPeriods(ExampleNights(), g, 0);
    if g != 10 && g != 99 {
      NightPeriodsOfOthers(ExampleNights(), g);
    } else {
      assert NightPeriods(ExampleNights(), g) != [];
    }
  }

  lemma {:induction false} NightPeriodsOfOthers(ns: seq<Night>, g: nat)
    requires forall i | 0 <= i < |ns| :: ns[i].guard != g
    ensures NightPeriods(ns, g) == []
  {
    if ns != [] {
      NightPeriodsOfOthers(ns[1..], g);
    }
  }

  lemma ExamplePeriods()
    ensures SleepingPeriodsOf(ExampleRecords()).Keys == {10, 99}
    ensures SleepingPeriodsOf(ExampleRecords())[10] == [(5, 25), (30, 55), (24, 29)]
    ensures SleepingPeriodsOf(ExampleRecords())[99] == [(40, 50), (36, 46), (45, 55)]
  {
    ExampleGuards(10);
    ExampleGuards(99);
    forall g ensures g in SleepingPeriodsOf(ExampleRecords()) <==> g in {10, 99} {
      ExampleGuards(g);
    }
  }

  function Covers(p: Period, m: nat): nat { if p.0 <= m < p.1 then 1 else 0 }

  lemma MinuteCountOfThree(a: Period, b: Period, c: Period, m: nat)
    ensures MinuteCount([a, b, c], m) == Covers(a, m) + Covers(b, m) + Covers(c, m)
    ensures Total([a, b, c]) == (a.1 - a.0) + (b.1 - b.0) + (c.1 - c.0)
  {
    assert [a, b, c][1..] == [b, c];
    assert [b, c][1..] == [c];
    assert [c][1..] == [];
    assert MinuteCount([c], m) == Covers(c, m) + MinuteCount([], m);
    assert MinuteCount([b, c], m) == Covers(b, m) + MinuteCount([c], m);
    assert MinuteCount([a, b, c], m) == Covers(a, m) + MinuteCount([b, c], m);
    assert Total([c]) == (c.1 - c.0) + Total([]);
    assert Total([b, c]) == (b.1 - b.0) + Total([c]);
  }

  /** Guard 10 sleeps 50 minutes against 30 and is asleep most on minute 24 (twice). */
  lemma MostAsleepExample(r: Option<(nat, nat)>)
    requires MostAsleepSpec(ExampleRecords(), r)
    ensures r == Some((10, 24))
  {
    var periods := SleepingPeriodsOf(ExampleRecords());
    ExamplePeriods();
    var p10 := periods[10];
    MinuteCountOfThree((5, 25), (30, 55), (24, 29), 24);
    MinuteCountOfThree((40, 50), (36, 46), (45, 55), 0);
    assert Total(p10) == 50 && Total(periods[99]) == 30;
    assert MinuteCount(p10, 24) == 2;
    forall m | m != 24 ensures MinuteCount(p10, m) <= 1 {
      MinuteCountOfThree((5, 25), (30, 55), (24, 29), m);
    }
    assert !NeverAsleep(p10);
    assert forall g :: Sleepiest(periods, g) ==> g == 10;
    match r {
      case None =>
      case Some((g, m)) =>
    }
  }

  /** Guard 99 is asleep on minute 45 three times; nothing else reaches three. */
  lemma MostFrequentExample(r: Option<(nat, nat, nat)>)
    requires MostFrequentSpec(ExampleRecords(), r)
    ensures r == Some((99, 45, 3))
  {
    var periods := SleepingPeriodsOf(ExampleRecords());
    ExamplePeriods();
    var p10, p99 := periods[10], periods[99];
    MinuteCountOfThree((5, 25), (30, 55), (24, 29), 24);
    MinuteCountOfThree((40, 50), (36, 46), (45, 55), 45);
    assert MinuteCount(p99, 45) == 3;
    forall m ensures MinuteCount(p10, m) <= 2 {
      MinuteCountOfThree((5, 25), (30, 55), (24, 29), m);
    }
    forall m | m != 45 ensures MinuteCount(p99, m) <= 2 {
      MinuteCountOfThree((40, 50), (36, 46), (45, 55), m);
    }
    assert !NeverAsleep(p10) && !NeverAsleep(p99);
    match r {
      case None =>
      case Some((g, m, c)) =>
        assert MinuteCount(periods[99], 45) <= c;
    }
  }
}

/** Copyright years: the range-compressing printer and the parser of find_copyrights.py. */
module CopyrightDates {
  import opened Options
  import opened StableSort
  import opened Text

  /** A stretch of consecutive years. */
  datatype Run = Run(first: nat, last: nat) {
    function Years(): set<nat> {
      Between(first, last + 1)
    }
  }

  /** The years from lo up to, but not including, hi. */
  function Between(lo: nat, hi: nat): (r: set<nat>)
    ensures forall y :: y in r <==> lo <= y < hi
  {
    if lo >= hi then {} else Between(lo, hi - 1) + {hi - 1}
  }

  // ---- Printing ----

  function RunText(r: Run): string {
    if r.first == r.last then Decimal(r.first) else Decimal(r.first) + "-" + Decimal(r.last)
  }

  ghost predicate Increasing(s: seq<nat>) {
    forall i, j | 0 <= i < j < |s| :: s[i] < s[j]
  }

  /** Non-empty stretches in order, with a gap of at least one year between neighbours. */
  ghost predicate Maximal(runs: seq<Run>) {
    && (forall k | 0 <= k < |runs| :: runs[k].first <= runs[k].last)
    && (forall k, m | 0 <= k < m < |runs| :: runs[k].last + 1 < runs[m].first)
  }

  ghost function Covered(runs: seq<Run>): set<nat> {
    if runs == [] then {} else Covered(runs[..|runs| - 1]) + runs[|runs| - 1].Years()
  }

  function Texts(runs: seq<Run>): seq<string> {
    if runs == [] then [] else Texts(runs[..|runs| - 1]) + [RunText(runs[|runs| - 1])]
  }

  predicate AtMost(a: nat, b: nat) {
    a <= b
  }

  lemma SortedYears(listing: seq<nat>)
    requires forall i, j | 0 <= i < j < |listing| :: listing[i] != listing[j]
    ensures var s := Sort(listing, AtMost); Increasing(s) && forall y :: y in s <==> y in listing
  {
    var s := Sort(listing, AtMost);
    SortAscends(listing);
    SortMultiset(listing, AtMost);
    forall y ensures y in s <==> y in listing {
      assert y in multiset(s) <==> y in multiset(listing);
    }
    SortDistinct(listing, AtMost);
    forall i, j | 0 <= i < j < |s| ensures s[i] < s[j] {
      assert s[i] <= s[j] && s[i] != s[j];
    }
  }

  lemma SortAscends(listing: seq<nat>)
    ensures forall i, j | 0 <= i < j < |Sort(listing, AtMost)| :: Sort(listing, AtMost)[i] <= Sort(listing, AtMost)[j]
  {
    SortSorted(listing, AtMost);
    assert Sorted(Sort(listing, AtMost), AtMost);
  }

  lemma {:induction false} CoveredBelow(runs: seq<Run>, y: nat)
    requires Maximal(runs) && y in Covered(runs)
    ensures runs != [] && y <= runs[|runs| - 1].last
    ensures y >= runs[|runs| - 1].first || (|runs| > 1 && y <= runs[|runs| - 2].last)
  {
    var n := |runs| - 1;
    if y !in runs[n].Years() {
      CoveredBelow(runs[..n], y);
    }
  }

  /** The last run is the stretch of years below the greatest one. */
  lemma LastRunUnique(a: seq<Run>, b: seq<Run>)
    requires Maximal(a) && Maximal(b) && Covered(a) == Covered(b) && a != [] && b != []
    ensures a[|a| - 1].last <= b[|b| - 1].last
    ensures a[|a| - 1].last == b[|b| - 1].last ==> a[|a| - 1].first <= b[|b| - 1].first
  {
    var r, s := a[|a| - 1], b[|b| - 1];
    assert r.last in Covered(a);
    CoveredBelow(b, r.last);
    if r.last == s.last && s.first < r.first {
      assert r.first - 1 in s.Years();
      CoveredBelow(a, r.first - 1);
    }
  }

  lemma WithoutLast(runs: seq<Run>)
    requires Maximal(runs) && runs != []
    ensures var before := runs[..|runs| - 1];
            Maximal(before) && Covered(before) == Covered(runs) - runs[|runs| - 1].Years()
  {
    LastRunApart(runs[..|runs| - 1], runs[|runs| - 1]);
  }

  lemma NothingCovered(runs: seq<Run>)
    requires Maximal(runs)
    ensures Covered(runs) == {} <==> runs == []
  {
    if runs != [] {
      assert runs[|runs| - 1].last in Covered(runs);
    }
  }

  /** A set of years has one decomposition into maximal runs. */
  lemma {:induction false} MaximalUnique(a: seq<Run>, b: seq<Run>)
    requires Maximal(a) && Maximal(b) && Covered(a) == Covered(b)
    ensures a == b
  {
    NothingCovered(a);
    NothingCovered(b);
    if a != [] {
      LastRunUnique(a, b);
      LastRunUnique(b, a);
      var before, before', last := a[..|a| - 1], b[..|b| - 1], a[|a| - 1];
      WithoutLast(a);
      WithoutLast(b);
      MaximalUnique(before, before');
      assert a == before + [last] && b == before' + [last];
    }
  }

  lemma TextsUnique(runs: seq<Run>)
    requires Maximal(runs)
    ensures forall rs | Maximal(rs) && Covered(rs) == Covered(runs) :: Texts(rs) == Texts(runs)
  {
    forall rs | Maximal(rs) && Covered(rs) == Covered(runs) ensures Texts(rs) == Texts(runs) {
      MaximalUnique(rs, runs);
    }
  }

  /** datestr on any listing of the set of years; None stands for popping from an empty list. The runs it
      prints are the maximal stretches of the set, in order. */
  method Datestr(dates: set<nat>, listing: seq<nat>) returns (out: Option<string>, ghost runs: seq<Run>)
    requires forall i, j | 0 <= i < j < |listing| :: listing[i] != listing[j]
    requires dates == Elements(listing)
    ensures out.None? <==> dates == {}
    ensures out.Some? ==> runs != [] && Maximal(runs) && Covered(runs) == dates
    ensures out.Some? ==> forall rs | Maximal(rs) && Covered(rs) == dates :: out.value == Join(Texts(rs), ',')
  {
    var left := Sort(listing, AtMost);
    SortedYears(listing);
    runs := [];
    if left == [] {
      return None, runs;
    }
    assert left[0] in dates;
    var output;
    output, runs := CompressRuns(left);
    assert Elements(left) == dates;
    out := Some(Join(output, ','));
  }

  /** The loop that collects runs from the sorted years. */
  method CompressRuns(sorted: seq<nat>) returns (output: seq<string>, ghost runs: seq<Run>)
    requires sorted != [] && Increasing(sorted)
    ensures runs != [] && Maximal(runs) && Covered(runs) == Elements(sorted)
    ensures forall rs | Maximal(rs) && Covered(rs) == Elements(sorted) :: output == Texts(rs)
  {
    var first, second, left := sorted[0], sorted[0], sorted[1..];
    output, runs := [], [];
    ghost var n := 1;
    FirstYear(sorted);
    while left != []
      invariant 0 < n <= |sorted| && left == sorted[n..] && output == Texts(runs)
      invariant Progress(sorted, n, runs, first, second)
      decreases left
    {
      var next := left[0];
      left := left[1..];
      OneYear(sorted, n, runs, first, second);
      if next == second + 1 {
        second := next;
      } else {
        TextsAppend(runs, Run(first, second));
        output := output + [RunText(Run(first, second))];
        runs := runs + [Run(first, second)];
        first, second := next, next;
      }
      n := n + 1;
    }
    TextsAppend(runs, Run(first, second));
    LastRun(sorted, runs, first, second);
    output := output + [RunText(Run(first, second))];
    runs := runs + [Run(first, second)];
    TextsUnique(runs);
  }

  /** The finished runs and the current one cover exactly the first n years. */
  ghost predicate Progress(sorted: seq<nat>, n: nat, runs: seq<Run>, first: nat, second: nat) {
    && 0 < n <= |sorted| && second == sorted[n - 1] && first <= second
    && Maximal(runs + [Run(first, second)])
    && Covered(runs) + Run(first, second).Years() == Elements(sorted[..n])
  }

  lemma FirstYear(sorted: seq<nat>)
    requires sorted != []
    ensures Progress(sorted, 1, [], sorted[0], sorted[0])
  {
    assert sorted[..1] == [sorted[0]];
    assert Run(sorted[0], sorted[0]).Years() == {sorted[0]} == Elements(sorted[..1]);
  }

  lemma OneYear(sorted: seq<nat>, n: nat, runs: seq<Run>, first: nat, second: nat)
    requires Increasing(sorted) && n < |sorted| && Progress(sorted, n, runs, first, second)
    ensures second < sorted[n] && sorted[n..][1..] == sorted[n + 1..]
    ensures if sorted[n] == second + 1 then Progress(sorted, n + 1, runs, first, sorted[n])
            else Progress(sorted, n + 1, runs + [Run(first, second)], sorted[n], sorted[n])
  {
    YearAppended(sorted, n);
    if sorted[n] == second + 1 {
      RunGrows(runs, first, second);
    } else {
      RunStarts(runs, first, second, sorted[n]);
    }
  }

  lemma LastRun(sorted: seq<nat>, runs: seq<Run>, first: nat, second: nat)
    requires Progress(sorted, |sorted|, runs, first, second)
    ensures Maximal(runs + [Run(first, second)]) && Covered(runs + [Run(first, second)]) == Elements(sorted)
  {
    assert sorted[..|sorted|] == sorted;
    assert (runs + [Run(first, second)])[..|runs|] == runs;
  }

  lemma TextsAppend(runs: seq<Run>, r: Run)
    ensures Texts(runs + [r]) == Texts(runs) + [RunText(r)]
  {
    assert (runs + [r])[..|runs|] == runs;
  }

  ghost function Elements(s: seq<nat>): set<nat> {
    set y | y in s
  }

  lemma YearAppended(sorted: seq<nat>, n: nat)
    requires n < |sorted|
    ensures Elements(sorted[..n + 1]) == Elements(sorted[..n]) + {sorted[n]} && sorted[n..][1..] == sorted[n + 1..]
  {
    assert sorted[..n + 1] == sorted[..n] + [sorted[n]];
  }

  /** The next year extends the current run. */
  lemma RunGrows(runs: seq<Run>, first: nat, second: nat)
    requires first <= second && Maximal(runs + [Run(first, second)])
    ensures Maximal(runs + [Run(first, second + 1)])
    ensures Run(first, second + 1).Years() == Run(first, second).Years() + {second + 1}
  {
    var done, grown := runs + [Run(first, second)], runs + [Run(first, second + 1)];
    forall k | 0 <= k < |grown| ensures grown[k].first <= grown[k].last {
      assert done[k].first <= done[k].last;
    }
    forall k, m | 0 <= k < m < |grown| ensures grown[k].last + 1 < grown[m].first {
      assert done[k].last + 1 < done[m].first;
    }
  }

  /** The next year starts a new run. */
  lemma RunStarts(runs: seq<Run>, first: nat, second: nat, next: nat)
    requires first <= second && second + 1 < next && Maximal(runs + [Run(first, second)])
    ensures Maximal((runs + [Run(first, second)]) + [Run(next, next)])
    ensures Covered(runs + [Run(first, second)]) == Covered(runs) + Run(first, second).Years()
    ensures Run(next, next).Years() == {next}
  {
    var done := runs + [Run(first, second)];
    assert done[..|runs|] == runs;
    var more := done + [Run(next, next)];
    forall k, m | 0 <= k < m < |more| ensures more[k].last + 1 < more[m].first {
      if m == |done| {
        assert k < |runs| ==> done[k].last + 1 < done[|runs|].first;
      } else {
        assert done[k].last + 1 < done[m].first;
      }
    }
  }

  // ---- Parsing ----

  /** The regular expression [0-9]{4}\s*-\s*[0-9]{4} at the start of d. */
  function RangeMatch(d: string): Option<Run> {
    if |d| < 4 || !AllDigits(d[..4]) then None else
    var rest := StripLeft(d[4..]);
    if rest == "" || rest[0] != '-' then None else
    var far := StripLeft(rest[1..]);
    if |far| < 4 || !AllDigits(far[..4]) then None
    else Some(Run(Numeral(d[..4]), Numeral(far[..4])))
  }

  /** The years one comma-separated item stands for; an item that is no number adds nothing. */
  function ItemYears(item: string): set<nat> {
    var d := Strip(item);
    if RangeMatch(d).Some? then RangeMatch(d).value.Years()
    else if ParseNat(d).Some? then {ParseNat(d).value}
    else {}
  }

  function ItemsYears(items: seq<string>): set<nat> {
    if items == [] then {} else ItemsYears(items[..|items| - 1]) + ItemYears(items[|items| - 1])
  }

  /** Four digits, a dash with blanks around it, four digits; and whatever comes behind them. */
  ghost predicate IsRange(d: string, x: string, a: string, b: string, y: string, rest: string) {
    && |x| == 4 && AllDigits(x) && |y| == 4 && AllDigits(y) && Blank(a) && Blank(b)
    && d == x + a + "-" + b + y + rest
  }

  lemma {:induction false} StripLeftStops(a: string, s: string)
    requires Blank(a) && s != "" && !IsSpace(s[0])
    ensures StripLeft(a + s) == s
  {
    if a == "" {
      assert a + s == s;
    } else {
      assert (a + s)[1..] == a[1..] + s;
      StripLeftStops(a[1..], s);
    }
  }

  lemma {:induction false} RangeFound(d: string, x: string, a: string, b: string, y: string, rest: string)
    requires IsRange(d, x, a, b, y, rest)
    ensures RangeMatch(d) == Some(Run(Numeral(x), Numeral(y)))
  {
    var tail, far := "-" + b + y + rest, y + rest;
    assert d[..4] == x && d[4..] == a + tail;
    StripLeftStops(a, tail);
    assert tail[1..] == b + far;
    StripLeftStops(b, far);
    assert far[..4] == y;
  }

  lemma Regroup(x: string, a: string, b: string, y: string, rest: string)
    ensures x + (a + ("-" + (b + (y + rest)))) == x + a + "-" + b + y + rest
  {
    assert a + ("-" + (b + (y + rest))) == a + "-" + b + y + rest;
  }

  lemma DashSplit(tail: string, b: string, far: string)
    requires tail != "" && tail[0] == '-' && tail[1..] == b + far
    ensures tail == "-" + (b + far)
  {
  }

  lemma {:induction false} RangeParts(d: string) returns (x: string, a: string, b: string, y: string, rest: string)
    requires RangeMatch(d).Some?
    ensures IsRange(d, x, a, b, y, rest) && RangeMatch(d).value == Run(Numeral(x), Numeral(y))
  {
    x := d[..4];
    a := StripLeftShape(d[4..]);
    var tail := StripLeft(d[4..]);
    b := StripLeftShape(tail[1..]);
    var far := StripLeft(tail[1..]);
    y, rest := far[..4], far[4..];
    assert d == x + (a + tail) && far == y + rest;
    DashSplit(tail, b, far);
    Regroup(x, a, b, y, rest);
  }

  /** A year is read if some item is a range around it or the year itself. */
  lemma {:induction false} ItemsYearsHas(items: seq<string>, year: nat)
    ensures year in ItemsYears(items) <==> exists i :: 0 <= i < |items| && year in ItemYears(items[i])
  {
    if items != [] {
      ItemsYearsHas(items[..|items| - 1], year);
    }
  }

  /** The inner loop over a range of years, which may be empty. */
  method AddRange(output0: set<nat>, f: nat, l: nat) returns (output: set<nat>)
    ensures output == output0 + Run(f, l).Years()
  {
    output := output0;
    var i := f;
    while i <= l
      invariant f <= i && (if f <= l then i <= l + 1 else i == f)
      invariant output == output0 + Between(f, i)
    {
      output := output + {i};
      i := i + 1;
    }
    assert Between(f, i) == Run(f, l).Years();
  }

  /** process_dates */
  method ProcessDates(dates: string) returns (output: set<nat>)
    ensures output == ItemsYears(Split(dates, ','))
    ensures var items := Split(dates, ',');
            forall y :: y in output <==> exists i :: 0 <= i < |items| && y in ItemYears(items[i])
  {
    output := {};
    var items := Split(dates, ',');
    for k := 0 to |items|
      invariant output == ItemsYears(items[..k])
    {
      assert items[..k + 1][..k] == items[..k];
      var date := Strip(items[k]);
      var range := RangeMatch(date);
      if range.Some? {
        output := AddRange(output, range.value.first, range.value.last);
      } else {
        var year := ParseNat(date);
        if year.Some? {
          output := output + {year.value};
        }
      }
    }
    assert items[..|items|] == items;
    forall y ensures y in output <==> exists i :: 0 <= i < |items| && y in ItemYears(items[i]) {
      ItemsYearsHas(items, y);
    }
  }

  // ---- Round trip ----

  lemma DecimalLength(n: nat)
    ensures |Decimal(n)| < 4 <==> n < 1000
    ensures |Decimal(n)| <= 4 <==> n < 10000
  {
    assert n < 10 <==> |Decimal(n)| == 1;
    var a, b, c := n / 10, n / 100, n / 1000;
    assert a / 10 == b && b / 10 == c;
    if n >= 10 {
      assert |Decimal(n)| == |Decimal(a)| + 1;
      if a >= 10 {
        assert |Decimal(a)| == |Decimal(b)| + 1;
        if b >= 10 {
          assert |Decimal(b)| == |Decimal(c)| + 1;
        }
      }
    }
  }

  lemma FourDigits(s: string)
    requires |s| == 4 && AllDigits(s)
    ensures Numeral(s) < 10000
  {
    assert Numeral(s[..3]) == 10 * Numeral(s[..3][..2]) + DigitValue(s[2]);
    assert Numeral(s[..3][..2]) == 10 * Numeral(s[..3][..2][..1]) + DigitValue(s[1]);
    assert Numeral(s[..3][..2][..1]) == 10 * Numeral(s[..3][..2][..1][..0]) + DigitValue(s[0]);
  }

  /** The printer's form of a run survives the parser. */
  predicate Readable(r: Run) {
    r.first == r.last || (1000 <= r.first && r.last <= 9999)
  }

  ghost predicate AllReadable(runs: seq<Run>) {
    forall k | 0 <= k < |runs| :: Readable(runs[k])
  }

  lemma AllReadableLast(runs: seq<Run>)
    requires runs != []
    ensures AllReadable(runs) <==> AllReadable(runs[..|runs| - 1]) && Readable(runs[|runs| - 1])
  {
    var before := runs[..|runs| - 1];
    assert runs == before + [runs[|runs| - 1]];
  }

  lemma SingleYearBack(y: nat)
    ensures ItemYears(Decimal(y)) == {y}
  {
    var d := Decimal(y);
    StripLine(d);
    ParseDecimal(y);
    if |d| >= 4 {
      var rest := d[4..];
      assert rest == "" || (IsDigit(rest[0]) && !IsSpace(rest[0]));
      assert StripLeft(rest) == rest;
    }
  }

  lemma DashIsNoNumber(s: string, t: string)
    requires s != "" && t != "" && AllDigits(s) && AllDigits(t)
    ensures var d := s + "-" + t; Strip(d) == d && ParseNat(d).None?
  {
    var d := s + "-" + t;
    assert d[0] == s[0] && d[|d| - 1] == t[|t| - 1];
    StripLine(d);
    assert d[|s|] == '-';
  }

  lemma MatchAfterFour(s: string, t: string)
    requires |s| == 4 && t != "" && AllDigits(s) && AllDigits(t)
    ensures RangeMatch(s + "-" + t) == if |t| < 4 then None else Some(Run(Numeral(s), Numeral(t[..4])))
  {
    var d := s + "-" + t;
    assert d[..4] == s && d[4..] == "-" + t && d[4..][1..] == t;
    assert d[4..][0] == '-' && StripLeft(d[4..]) == d[4..];
    assert !IsSpace(t[0]) && StripLeft(t) == t;
  }

  lemma NoMatchUnlessFour(s: string, t: string)
    requires |s| != 4 && AllDigits(s)
    ensures RangeMatch(s + "-" + t).None?
  {
    var d := s + "-" + t;
    if |s| > 4 {
      assert d[4..][0] == s[4] && !IsSpace(s[4]);
      assert StripLeft(d[4..]) == d[4..];
    } else if |d| >= 4 {
      assert d[..4][|s|] == '-';
    }
  }

  lemma RangeText(a: nat, b: nat)
    requires a < b
    ensures var d := Decimal(a) + "-" + Decimal(b);
            && Strip(d) == d && ParseNat(d).None?
            && (RangeMatch(d).Some? <==> 1000 <= a <= 9999)
            && (RangeMatch(d).Some? ==> RangeMatch(d).value.first == a && RangeMatch(d).value.last <= 9999)
            && (1000 <= a && b <= 9999 ==> RangeMatch(d) == Some(Run(a, b)))
  {
    var s, t := Decimal(a), Decimal(b);
    DashIsNoNumber(s, t);
    DecimalLength(a);
    DecimalLength(b);
    if |s| == 4 {
      MatchAfterFour(s, t);
      ParseDecimal(a);
      ParseDecimal(b);
      FourDigits(t[..4]);
      assert |t| == 4 ==> t[..4] == t;
    } else {
      NoMatchUnlessFour(s, t);
    }
  }

  /** Parsing a printed run never adds a foreign year, and loses none exactly if the run is readable. */
  lemma RunBack(r: Run)
    requires r.first <= r.last
    ensures ItemYears(RunText(r)) <= r.Years()
    ensures ItemYears(RunText(r)) == r.Years() <==> Readable(r)
  {
    if r.first == r.last {
      SingleYearBack(r.first);
      assert r.Years() == {r.first};
    } else {
      RangeText(r.first, r.last);
      assert r.last in r.Years() && r.first in r.Years();
    }
  }

  lemma {:induction false} RunsBack(runs: seq<Run>)
    requires Maximal(runs)
    ensures ItemsYears(Texts(runs)) <= Covered(runs)
    ensures ItemsYears(Texts(runs)) == Covered(runs) <==> AllReadable(runs)
  {
    if runs != [] {
      var before, last := runs[..|runs| - 1], runs[|runs| - 1];
      RunsBack(before);
      RunBack(last);
      LastRunApart(before, last);
      TextsLast(runs);
      var a, b, c, d := ItemsYears(Texts(before)), Covered(before), ItemYears(RunText(last)), last.Years();
      SumsAgree(a, b, c, d);
      AllReadableLast(runs);
    }
  }

  lemma TextsLast(runs: seq<Run>)
    requires runs != []
    ensures ItemsYears(Texts(runs)) == ItemsYears(Texts(runs[..|runs| - 1])) + ItemYears(RunText(runs[|runs| - 1]))
  {
    var texts := Texts(runs);
    assert texts[..|texts| - 1] == Texts(runs[..|runs| - 1]);
  }

  lemma SumsAgree(a: set<nat>, b: set<nat>, c: set<nat>, d: set<nat>)
    requires a <= b && c <= d && b !! d
    ensures a + c <= b + d && (a + c == b + d <==> a == b && c == d)
  {
    if a + c == b + d {
      forall x | x in b ensures x in a { assert x in a + c; }
      forall x | x in d ensures x in c { assert x in a + c; }
    }
  }

  lemma {:induction false} LastRunApart(before: seq<Run>, last: Run)
    requires forall k | 0 <= k < |before| :: before[k].last + 1 < last.first
    ensures Covered(before) !! last.Years()
  {
    if before != [] {
      LastRunApart(before[..|before| - 1], last);
    }
  }

  lemma {:induction false} TextsPlain(runs: seq<Run>)
    ensures |Texts(runs)| == |runs| && forall k | 0 <= k < |runs| :: ',' !in Texts(runs)[k]
  {
    if runs != [] {
      TextsPlain(runs[..|runs| - 1]);
    }
  }

  /** Reading the printed years back gives the same set exactly when every run of two or more years lies
      within the four-digit years; in particular for every set of four-digit years. */
  lemma YearsRoundTrip(runs: seq<Run>)
    requires runs != [] && Maximal(runs)
    ensures ItemsYears(Split(Join(Texts(runs), ','), ',')) == Covered(runs) <==> AllReadable(runs)
  {
    TextsPlain(runs);
    SplitJoin(Texts(runs), ',');
    RunsBack(runs);
  }

  lemma {:induction false} FourDigitRuns(runs: seq<Run>)
    requires Maximal(runs) && forall y | y in Covered(runs) :: 1000 <= y <= 9999
    ensures AllReadable(runs)
  {
    if runs != [] {
      var before, last := runs[..|runs| - 1], runs[|runs| - 1];
      forall y | y in Covered(before) ensures 1000 <= y <= 9999 {
        assert y in Covered(runs);
      }
      FourDigitRuns(before);
      assert last.first in last.Years() && last.last in last.Years() && last.Years() <= Covered(runs);
      assert Readable(last);
    }
  }

  /** Printing a set of years and reading the text again, whatever order the set is listed in: it comes back
      exactly if its runs are readable, in particular if all its years have four digits. */
  method PrintAndRead(dates: set<nat>, listing: seq<nat>) returns (years: set<nat>)
    requires forall i, j | 0 <= i < j < |listing| :: listing[i] != listing[j]
    requires dates == Elements(listing) && dates != {}
    ensures forall runs | Maximal(runs) && Covered(runs) == dates :: years == dates <==> AllReadable(runs)
    ensures (forall y | y in dates :: 1000 <= y <= 9999) ==> years == dates
  {
    var out, runs := Datestr(dates, listing);
    years := ProcessDates(out.value);
    YearsRoundTrip(runs);
    forall rs | Maximal(rs) && Covered(rs) == dates ensures rs == runs {
      MaximalUnique(rs, runs);
    }
    if forall y | y in dates :: 1000 <= y <= 9999 {
      FourDigitRuns(runs);
    }
  }

  /** The years 998 and 999 are printed as a range that is not read back. */
  lemma ThreeDigitRunLost()
    ensures ItemsYears(Split(Join(Texts([Run(998, 999)]), ','), ',')) != Covered([Run(998, 999)])
  {
    YearsRoundTrip([Run(998, 999)]);
  }
}

/**
 * The analytics view's derivations over the fetched record list: the
 * financial summary, the per-country tally and its top five, the five
 * nearest upcoming deadlines with their day counts, and the width of each
 * status bar.
 */
module Analytics {
  import opened Records
  import opened StableSort

  /** Milliseconds in one day, `1000 * 60 * 60 * 24`. */
  const DayMs: int := 1000 * 60 * 60 * 24

  /** How many entries the top-countries and upcoming-deadlines panels show. */
  const PanelSize: nat := 5

  // ---------------------------------------------------------------------
  // financialStats

  /** `s.reduce((sum, u) => sum + f(u), 0)`: the left-to-right sum of `f`. */
  function SumOf(s: seq<University>, f: University -> real): real
  {
    if s == [] then 0.0 else SumOf(s[..|s| - 1], f) + f(s[|s| - 1])
  }

  function Fee(u: University): real { u.applicationFees }

  function Scholarship(u: University): real { u.scholarshipPercentage }

  /** The sum over a concatenation is the sum of the sums. */
  lemma {:induction false} SumOfAppend(a: seq<University>, b: seq<University>, f: University -> real)
    ensures SumOf(a + b, f) == SumOf(a, f) + SumOf(b, f)
  {
    if b != [] {
      var n := |b| - 1;
      assert (a + b)[..|a + b| - 1] == a + b[..n];
      SumOfAppend(a, b[..n], f);
    } else {
      assert a + b == a;
    }
  }

  /** When no term is negative, the sum is at least every term. */
  lemma {:induction false} SumOfDominatesTerms(s: seq<University>, f: University -> real)
    ensures (forall i :: 0 <= i < |s| ==> f(s[i]) >= 0.0) ==>
              SumOf(s, f) >= 0.0 && forall i :: 0 <= i < |s| ==> f(s[i]) <= SumOf(s, f)
  {
    if s != [] {
      SumOfDominatesTerms(s[..|s| - 1], f);
    }
  }

  /** When every term is at most `m`, the sum is at most `|s| * m`. */
  lemma {:induction false} SumOfBoundedAbove(s: seq<University>, f: University -> real, m: real)
    requires forall i :: 0 <= i < |s| ==> f(s[i]) <= m
    ensures SumOf(s, f) <= (|s| as real) * m
  {
    if s != [] {
      SumOfBoundedAbove(s[..|s| - 1], f, m);
    }
  }

  /** When every term is at least `m`, the sum is at least `|s| * m`. */
  lemma {:induction false} SumOfBoundedBelow(s: seq<University>, f: University -> real, m: real)
    requires forall i :: 0 <= i < |s| ==> m <= f(s[i])
    ensures (|s| as real) * m <= SumOf(s, f)
  {
    if s != [] {
      SumOfBoundedBelow(s[..|s| - 1], f, m);
    }
  }

  /** `totalFees`: 0 for an empty list; with no negative fee, at least every single fee. */
  function TotalFees(s: seq<University>): (r: real)
    ensures s == [] ==> r == 0.0
    ensures (forall i :: 0 <= i < |s| ==> s[i].applicationFees >= 0.0) ==>
              0.0 <= r && forall i :: 0 <= i < |s| ==> s[i].applicationFees <= r
  {
    SumOfDominatesTerms(s, Fee);
    SumOf(s, Fee)
  }

  /** Splitting the list splits the total fees. */
  lemma TotalFeesAppend(a: seq<University>, b: seq<University>)
    ensures TotalFees(a + b) == TotalFees(a) + TotalFees(b)
  {
    SumOfAppend(a, b, Fee);
  }

  /** `avgScholarship`: 0 for an empty list, otherwise the mean scholarship percentage. */
  function AvgScholarship(s: seq<University>): (r: real)
    ensures |s| == 0 ==> r == 0.0
  {
    if |s| > 0 then SumOf(s, Scholarship) / (|s| as real) else 0.0
  }

  /** `maxScholarship = Math.max(...percentages, 0)`. */
  function MaxScholarship(s: seq<University>): (r: real)
    ensures r >= 0.0
    ensures forall i :: 0 <= i < |s| ==> s[i].scholarshipPercentage <= r
    ensures r == 0.0 || exists i :: 0 <= i < |s| && s[i].scholarshipPercentage == r
  {
    if s == [] then 0.0
    else
      var m := MaxScholarship(s[..|s| - 1]);
      var x := s[|s| - 1].scholarshipPercentage;
      if x > m then x else m
  }

  /** Once some percentage is not negative, the maximum is one of the records' own values. */
  lemma MaxScholarshipIsAttained(s: seq<University>, k: int)
    requires 0 <= k < |s| && s[k].scholarshipPercentage >= 0.0
    ensures exists i :: 0 <= i < |s| && s[i].scholarshipPercentage == MaxScholarship(s)
  {
    if MaxScholarship(s) == 0.0 {
      assert s[k].scholarshipPercentage == MaxScholarship(s);
    }
  }

  /** For a non-empty list the average times the length is the sum of the percentages. */
  lemma AvgScholarshipIsMean(s: seq<University>)
    requires |s| > 0
    ensures AvgScholarship(s) * (|s| as real) == SumOf(s, Scholarship)
  {
  }

  /** The average never exceeds the maximum; for an empty list both are 0. */
  lemma AvgScholarshipAtMostMax(s: seq<University>)
    ensures AvgScholarship(s) <= MaxScholarship(s)
  {
    if |s| > 0 {
      var m := MaxScholarship(s);
      SumOfBoundedAbove(s, Scholarship, m);
      AvgScholarshipAtMost(s, m);
    }
  }

  lemma AvgScholarshipAtMost(s: seq<University>, m: real)
    requires |s| > 0 && SumOf(s, Scholarship) <= (|s| as real) * m
    ensures AvgScholarship(s) <= m
  {
    QuotientAtMost(SumOf(s, Scholarship), |s|, m);
  }

  /** The average is not negative when no percentage is. */
  lemma AvgScholarshipNonNegative(s: seq<University>)
    requires forall i :: 0 <= i < |s| ==> s[i].scholarshipPercentage >= 0.0
    ensures AvgScholarship(s) >= 0.0
  {
    SumOfDominatesTerms(s, Scholarship);
  }

  lemma QuotientAtMost(sum: real, n: nat, m: real)
    requires n > 0 && sum <= (n as real) * m
    ensures sum / (n as real) <= m
  {
  }

  // ---------------------------------------------------------------------
  // countryStats and topCountries

  /** Number of records whose country is `c`. */
  function CountCountry(s: seq<University>, c: string): (n: nat)
    ensures n <= |s|
    ensures n == 0 <==> forall i :: 0 <= i < |s| ==> s[i].country != c
  {
    if s == [] then 0
    else
      assert forall i :: 0 <= i < |s| - 1 ==> s[..|s| - 1][i] == s[i];
      CountCountry(s[..|s| - 1], c) + (if s[|s| - 1].country == c then 1 else 0)
  }

  /** The distinct countries of `s`, in the order in which they first appear. */
  function Countries(s: seq<University>): (r: seq<string>)
    ensures forall i, j :: 0 <= i < j < |r| ==> r[i] != r[j]
    ensures forall c :: c in r <==> exists i :: 0 <= i < |s| && s[i].country == c
  {
    if s == [] then []
    else
      var init := Countries(s[..|s| - 1]);
      var c := s[|s| - 1].country;
      assert forall i :: 0 <= i < |s| - 1 ==> s[..|s| - 1][i] == s[i];
      if c in init then init else init + [c]
  }

  /**
   * A plain object used as a dictionary: its keys in insertion order (the
   * order `Object.keys` and `Object.entries` report) and the value of each.
   */
  datatype CountryTally = CountryTally(keys: seq<string>, counts: map<string, nat>)
  {
    ghost predicate Valid()
    {
      && (forall i, j :: 0 <= i < j < |keys| ==> keys[i] != keys[j])
      && (forall c :: c in counts <==> c in keys)
    }
  }

  /** Sum of the tally's values, taken over its keys. */
  function TallyTotal(keys: seq<string>, counts: map<string, nat>): nat
    requires forall c :: c in keys ==> c in counts
  {
    if keys == [] then 0 else TallyTotal(keys[..|keys| - 1], counts) + counts[keys[|keys| - 1]]
  }

  /** Sum of the per-country counts of `s`, taken over `keys`. */
  function CountsOver(keys: seq<string>, s: seq<University>): nat
  {
    if keys == [] then 0 else CountsOver(keys[..|keys| - 1], s) + CountCountry(s, keys[|keys| - 1])
  }

  lemma {:induction false} TallyTotalIsCountsOver(keys: seq<string>, counts: map<string, nat>, s: seq<University>)
    requires forall c :: c in keys ==> c in counts && counts[c] == CountCountry(s, c)
    ensures TallyTotal(keys, counts) == CountsOver(keys, s)
  {
    if keys != [] {
      TallyTotalIsCountsOver(keys[..|keys| - 1], counts, s);
    }
  }

  /** Adding one record adds one to the sum over any key list that names its country once. */
  lemma {:induction false} CountsOverSnoc(keys: seq<string>, s: seq<University>, u: University)
    requires forall i, j :: 0 <= i < j < |keys| ==> keys[i] != keys[j]
    ensures CountsOver(keys, s + [u]) == CountsOver(keys, s) + (if u.country in keys then 1 else 0)
  {
    if keys != [] {
      var init := keys[..|keys| - 1];
      CountsOverSnoc(init, s, u);
      assert (s + [u])[..|s + [u]| - 1] == s;
      assert u.country in keys <==> u.country in init || u.country == keys[|keys| - 1];
    }
  }

  /** Every record is counted under exactly one country: the counts add up to the length. */
  lemma {:induction false} CountryCountsSumToLength(s: seq<University>)
    ensures CountsOver(Countries(s), s) == |s|
  {
    if s != [] {
      var init := s[..|s| - 1];
      var u := s[|s| - 1];
      assert s == init + [u];
      CountryCountsSumToLength(init);
      CountsOverSnoc(Countries(init), init, u);
      if u.country !in Countries(init) {
        assert Countries(s) == Countries(init) + [u.country];
        assert Countries(s)[..|Countries(s)| - 1] == Countries(init);
        assert CountCountry(init, u.country) == 0;
      }
    }
  }

  /** Counting one more record: its country joins the keys if new, and its count grows by one. */
  lemma TallyStep(prefix: seq<University>, u: University)
    ensures Countries(prefix + [u]) == if u.country in Countries(prefix) then Countries(prefix) else Countries(prefix) + [u.country]
    ensures forall c :: CountCountry(prefix + [u], c) == CountCountry(prefix, c) + (if c == u.country then 1 else 0)
  {
    assert (prefix + [u])[..|prefix|] == prefix;
  }

  /** One `acc[c] = (acc[c] || 0) + 1` step: the key list gains the record's country exactly when it is new. */
  lemma KeysStep(s: seq<University>, i: int, keys: seq<string>, counts: map<string, nat>)
    requires 0 <= i < |s| && keys == Countries(s[..i])
    requires forall c :: c in counts <==> c in keys
    ensures (if s[i].country in counts then keys else keys + [s[i].country]) == Countries(s[..i + 1])
  {
    assert s[..i + 1] == s[..i] + [s[i]];
    TallyStep(s[..i], s[i]);
  }

  /** One `acc[c] = (acc[c] || 0) + 1` step: the record's country gains one, every other count stays. */
  lemma CountsStep(s: seq<University>, i: int, counts: map<string, nat>)
    requires 0 <= i < |s|
    requires forall c :: c in counts ==> counts[c] == CountCountry(s[..i], c)
    requires forall c :: c !in counts ==> CountCountry(s[..i], c) == 0
    ensures var c := s[i].country;
            var counts' := counts[c := (if c in counts then counts[c] else 0) + 1];
            forall x :: x in counts' ==> counts'[x] == CountCountry(s[..i + 1], x)
  {
    assert s[..i + 1] == s[..i] + [s[i]];
    TallyStep(s[..i], s[i]);
  }

  /**
   * `countryStats`: the reduce whose accumulator object is updated in place,
   * one record at a time (`acc[c] = (acc[c] || 0) + 1`).
   */
  method CountryStats(s: seq<University>) returns (tally: CountryTally)
    ensures tally.Valid()
    ensures tally.keys == Countries(s)
    ensures forall c :: c in tally.counts ==> tally.counts[c] == CountCountry(s, c)
    ensures TallyTotal(tally.keys, tally.counts) == |s|
  {
    var keys: seq<string> := [];
    var counts: map<string, nat> := map[];
    for i := 0 to |s|
      invariant keys == Countries(s[..i])
      invariant forall c :: c in counts <==> c in keys
      invariant forall c :: c in counts ==> counts[c] == CountCountry(s[..i], c)
    {
      var c := s[i].country;
      KeysStep(s, i, keys, counts);
      CountsStep(s, i, counts);
      var previous := if c in counts then counts[c] else 0;
      if c !in counts {
        keys := keys + [c];
      }
      counts := counts[c := previous + 1];
    }
    tally := CountryTally(keys, counts);
    TallyOfWholeList(s, tally);
  }

  /** Once every record is counted, the tally is valid and its values add up to the list length. */
  lemma TallyOfWholeList(s: seq<University>, tally: CountryTally)
    requires tally.keys == Countries(s[..|s|])
    requires forall c :: c in tally.counts <==> c in tally.keys
    requires forall c :: c in tally.counts ==> tally.counts[c] == CountCountry(s[..|s|], c)
    ensures tally.Valid()
    ensures tally.keys == Countries(s)
    ensures forall c :: c in tally.counts ==> tally.counts[c] == CountCountry(s, c)
    ensures TallyTotal(tally.keys, tally.counts) == |s|
  {
    assert s[..|s|] == s;
    TallyTotalIsCountsOver(tally.keys, tally.counts, s);
    CountryCountsSumToLength(s);
  }

  /** `Object.entries(countryStats)`: (country, count) pairs in key order. */
  function Entries(t: CountryTally): (r: seq<(string, nat)>)
    requires t.Valid()
    ensures |r| == |t.keys|
    ensures forall i :: 0 <= i < |r| ==> r[i] == (t.keys[i], t.counts[t.keys[i]])
  {
    seq(|t.keys|, i requires 0 <= i < |t.keys| => (t.keys[i], t.counts[t.keys[i]]))
  }

  /** Sort key of the comparator `([, a], [, b]) => b - a`: larger counts first. */
  function ByCountDescending(e: (string, nat)): int { 0 - (e.1 as int) }

  /** `topCountries`: the tally's entries sorted by descending count, first five kept. */
  function TopCountries(t: CountryTally): (r: seq<(string, nat)>)
    requires t.Valid()
    ensures |r| == if |t.keys| < PanelSize then |t.keys| else PanelSize
  {
    Take(SortBy(Entries(t), ByCountDescending), PanelSize)
  }

  /** Every shown entry is one of the tally's (country, count) pairs. */
  lemma TopCountriesAreTallyEntries(t: CountryTally)
    requires t.Valid()
    ensures forall i :: 0 <= i < |TopCountries(t)| ==>
              TopCountries(t)[i].0 in t.counts && TopCountries(t)[i].1 == t.counts[TopCountries(t)[i].0]
  {
    var sorted := SortBy(Entries(t), ByCountDescending);
    forall i | 0 <= i < |TopCountries(t)|
      ensures TopCountries(t)[i].0 in t.counts && TopCountries(t)[i].1 == t.counts[TopCountries(t)[i].0]
    {
      assert TopCountries(t)[i] == sorted[i];
      assert sorted[i] in multiset(Entries(t));
    }
  }

  /** The shown entries are in non-increasing order of count. */
  lemma TopCountriesNonIncreasing(t: CountryTally)
    requires t.Valid()
    ensures forall i, j :: 0 <= i < j < |TopCountries(t)| ==> TopCountries(t)[i].1 >= TopCountries(t)[j].1
  {
    var sorted := SortBy(Entries(t), ByCountDescending);
    SortByIsSorted(Entries(t), ByCountDescending);
    assert forall i :: 0 <= i < |TopCountries(t)| ==> TopCountries(t)[i] == sorted[i];
  }

  /** A country left out of the top five has no larger count than any country shown. */
  lemma TopCountriesKeepLargest(t: CountryTally, c: string)
    requires t.Valid() && c in t.counts
    requires forall i :: 0 <= i < |TopCountries(t)| ==> TopCountries(t)[i].0 != c
    ensures forall i :: 0 <= i < |TopCountries(t)| ==> TopCountries(t)[i].1 >= t.counts[c]
  {
    var entries := Entries(t);
    var sorted := SortBy(entries, ByCountDescending);
    var e := (c, t.counts[c]);
    var k :| 0 <= k < |t.keys| && t.keys[k] == c;
    assert entries[k] == e;
    assert e in multiset(sorted);
    SortByIsSorted(entries, ByCountDescending);
    assert TopCountries(t) == Take(sorted, PanelSize);
    assert e !in TopCountries(t);
    TakeOfSortedIsSmallest(sorted, PanelSize, ByCountDescending, e);
  }

  /**
   * Ties keep first-seen order: among countries with the same count, the
   * ones shown are the first ones the tally met, in the order it met them.
   */
  lemma TopCountriesTiesInFirstSeenOrder(t: CountryTally, k: int)
    requires t.Valid()
    ensures WithKey(TopCountries(t), ByCountDescending, k) <= WithKey(Entries(t), ByCountDescending, k)
  {
    var sorted := SortBy(Entries(t), ByCountDescending);
    SortByIsStable(Entries(t), ByCountDescending, k);
    var n := |TopCountries(t)|;
    assert TopCountries(t) == sorted[..n];
    WithKeyOfPrefix(sorted, n, ByCountDescending, k);
  }

  // ---------------------------------------------------------------------
  // upcomingDeadlines and daysUntil

  /** `s.filter(u => deadline(u) > now)`. */
  function Future(s: seq<University>, now: int): (r: seq<University>)
    ensures |r| <= |s|
    ensures forall u :: u in r <==> u in s && u.deadline > now
  {
    if s == [] then []
    else
      assert forall u :: u in s <==> u == s[0] || u in s[1..];
      (if s[0].deadline > now then [s[0]] else []) + Future(s[1..], now)
  }

  /** Every future record stays as many times as in the list; every other record is dropped. */
  lemma {:induction false} FutureMultiplicity(s: seq<University>, now: int, u: University)
    ensures multiset(Future(s, now))[u] == if u.deadline > now then multiset(s)[u] else 0
  {
    if s != [] {
      var rest := Future(s[1..], now);
      FutureMultiplicity(s[1..], now, u);
      assert s == [s[0]] + s[1..];
      assert multiset(s) == multiset{s[0]} + multiset(s[1..]);
      if s[0].deadline > now {
        assert Future(s, now) == [s[0]] + rest;
      } else {
        assert Future(s, now) == rest;
      }
    }
  }

  /**
   * For each deadline, the filter keeps the list's records with that deadline
   * in list order when it is in the future, and none of them otherwise.
   */
  lemma {:induction false} FutureKeepsKeyOrder(s: seq<University>, now: int, k: int)
    ensures WithKey(Future(s, now), ByDeadline, k) == if k > now then WithKey(s, ByDeadline, k) else []
  {
    if s != [] {
      var rest := Future(s[1..], now);
      FutureKeepsKeyOrder(s[1..], now, k);
      if s[0].deadline > now {
        assert Future(s, now) == [s[0]] + rest;
        assert ([s[0]] + rest)[1..] == rest;
      } else {
        assert Future(s, now) == rest;
      }
    }
  }

  /** Sort key of the comparator `(a, b) => time(a) - time(b)`. */
  function ByDeadline(u: University): int { u.deadline }

  /** `upcomingDeadlines`: the future records by ascending deadline, first five kept. */
  function UpcomingDeadlines(s: seq<University>, now: int): (r: seq<University>)
    ensures |r| == if |Future(s, now)| < PanelSize then |Future(s, now)| else PanelSize
  {
    Take(SortBy(Future(s, now), ByDeadline), PanelSize)
  }

  /** Every upcoming entry is a record of the list whose deadline is strictly after now. */
  lemma UpcomingAreFutureRecords(s: seq<University>, now: int)
    ensures forall i :: 0 <= i < |UpcomingDeadlines(s, now)| ==>
              UpcomingDeadlines(s, now)[i] in s && UpcomingDeadlines(s, now)[i].deadline > now
  {
    var sorted := SortBy(Future(s, now), ByDeadline);
    forall i | 0 <= i < |UpcomingDeadlines(s, now)|
      ensures UpcomingDeadlines(s, now)[i] in s && UpcomingDeadlines(s, now)[i].deadline > now
    {
      assert UpcomingDeadlines(s, now)[i] == sorted[i];
      assert sorted[i] in multiset(Future(s, now));
    }
  }

  /** The upcoming entries are in ascending deadline order. */
  lemma UpcomingAscending(s: seq<University>, now: int)
    ensures forall i, j :: 0 <= i < j < |UpcomingDeadlines(s, now)| ==>
              UpcomingDeadlines(s, now)[i].deadline <= UpcomingDeadlines(s, now)[j].deadline
  {
    var sorted := SortBy(Future(s, now), ByDeadline);
    SortByIsSorted(Future(s, now), ByDeadline);
    assert forall i :: 0 <= i < |UpcomingDeadlines(s, now)| ==> UpcomingDeadlines(s, now)[i] == sorted[i];
  }

  /** A future record left out has a deadline no earlier than any shown one. */
  lemma UpcomingAreNearest(s: seq<University>, now: int, u: University)
    requires u in s && u.deadline > now && u !in UpcomingDeadlines(s, now)
    ensures forall i :: 0 <= i < |UpcomingDeadlines(s, now)| ==> UpcomingDeadlines(s, now)[i].deadline <= u.deadline
  {
    var sorted := SortBy(Future(s, now), ByDeadline);
    assert u in multiset(sorted);
    SortByIsSorted(Future(s, now), ByDeadline);
    TakeOfSortedIsSmallest(sorted, PanelSize, ByDeadline, u);
  }

  /**
   * Records sharing a deadline keep their list order, and the ones shown are
   * the first of them in the list; a deadline not after now shows none.
   */
  lemma UpcomingTiesInListOrder(s: seq<University>, now: int, k: int)
    ensures WithKey(UpcomingDeadlines(s, now), ByDeadline, k) <= if k > now then WithKey(s, ByDeadline, k) else []
  {
    UpcomingTiesInFilterOrder(s, now, k);
    FutureKeepsKeyOrder(s, now, k);
  }

  /** The shown records of one deadline are a prefix of the filtered records of that deadline. */
  lemma UpcomingTiesInFilterOrder(s: seq<University>, now: int, k: int)
    ensures WithKey(UpcomingDeadlines(s, now), ByDeadline, k) <= WithKey(Future(s, now), ByDeadline, k)
  {
    var sorted := SortBy(Future(s, now), ByDeadline);
    SortByIsStable(Future(s, now), ByDeadline, k);
    var n := |UpcomingDeadlines(s, now)|;
    assert UpcomingDeadlines(s, now) == sorted[..n];
    WithKeyOfPrefix(sorted, n, ByDeadline, k);
  }

  /** `Math.ceil((deadline - now) / DayMs)`: the whole days left, a partial day counting as one. */
  function DaysUntil(deadline: int, now: int): (d: int)
    ensures (d - 1) * DayMs < deadline - now <= d * DayMs
  {
    -((now - deadline) / DayMs)
  }

  /** The day count turns red when at most a week is left. */
  predicate IsUrgent(daysLeft: int)
  {
    daysLeft <= 7
  }

  /** A deadline after now is at least one day away, and it is urgent exactly when it is within seven days. */
  lemma DaysUntilFutureDeadline(deadline: int, now: int)
    requires deadline > now
    ensures DaysUntil(deadline, now) >= 1
    ensures IsUrgent(DaysUntil(deadline, now)) <==> deadline - now <= 7 * DayMs
  {
  }

  /** `k` whole days ahead is `k` days left; `k` days and any part of a day is `k + 1`. */
  lemma DaysUntilWholeAndPartialDays(now: int, k: int, part: int)
    requires 0 < part < DayMs
    ensures DaysUntil(now + k * DayMs, now) == k
    ensures DaysUntil(now + k * DayMs + part, now) == k + 1
  {
  }

  /** Every upcoming entry shows at least one day left, when the filter and the day count read the same clock. */
  lemma UpcomingDaysAtLeastOne(s: seq<University>, now: int)
    ensures forall i :: 0 <= i < |UpcomingDeadlines(s, now)| ==> DaysUntil(UpcomingDeadlines(s, now)[i].deadline, now) >= 1
  {
    UpcomingAreFutureRecords(s, now);
  }

  /**
   * With two clock reads, a deadline that passes between the filter's read
   * and the day count's read is listed, yet shows no day left and is urgent.
   */
  lemma DaysUntilAtLaterClockRead(u: University, filterNow: int, displayNow: int)
    requires filterNow < u.deadline <= displayNow
    ensures UpcomingDeadlines([u], filterNow) == [u]
    ensures DaysUntil(u.deadline, displayNow) <= 0 && IsUrgent(DaysUntil(u.deadline, displayNow))
  {
    assert Future([u], filterNow) == [u];
    assert [u][1..] == [];
  }

  // ---------------------------------------------------------------------
  // status bars

  /** `total > 0 ? (count / total) * 100 : 0`, the width of one bar. */
  function Percentage(count: nat, total: nat): (p: real)
    ensures total == 0 ==> p == 0.0
    ensures 0.0 <= p
    ensures count <= total ==> p <= 100.0
  {
    if total > 0 then
      ShareBounds(count as real, total as real);
      (count as real / total as real) * 100.0
    else 0.0
  }

  lemma ShareBounds(c: real, t: real)
    requires 0.0 <= c && 0.0 < t
    ensures 0.0 <= (c / t) * 100.0
    ensures c <= t ==> (c / t) * 100.0 <= 100.0
  {
  }

  /** A bar's width scaled back by the total gives the count in percent. */
  lemma PercentageScales(count: nat, total: nat)
    requires total > 0
    ensures Percentage(count, total) * (total as real) == (count as real) * 100.0
  {
  }

  /** One bar per entry of `stats` other than `total`, in the object's key order. */
  function StatusBars(st: Stats): (bars: seq<(Status, real)>)
    ensures |bars| == 5
    ensures forall i :: 0 <= i < |bars| ==> bars[i].1 == Percentage(st.Count(bars[i].0), st.total)
    ensures forall x: Status :: StatusBarIndex(x) < |bars| && bars[StatusBarIndex(x)].0 == x
  {
    var bars := [
      (Applying, Percentage(st.applying, st.total)),
      (Waiting, Percentage(st.waiting, st.total)),
      (Accepted, Percentage(st.accepted, st.total)),
      (Rejected, Percentage(st.rejected, st.total)),
      (Waitlisted, Percentage(st.waitlisted, st.total))];
    assert forall x: Status :: bars[StatusBarIndex(x)].0 == x;
    bars
  }

  /** Where a status's bar sits in the panel. */
  function StatusBarIndex(x: Status): nat
  {
    match x
    case Applying => 0
    case Waiting => 1
    case Accepted => 2
    case Rejected => 3
    case Waitlisted => 4
  }

  /** Every bar lies in [0, 100]: a status count never exceeds the total. */
  lemma StatusBarsWithinRange(s: seq<University>)
    ensures forall i :: 0 <= i < 5 ==> 0.0 <= StatusBars(StatusStats(s))[i].1 <= 100.0
  {
    var st := StatusStats(s);
    forall x: Status
      ensures st.Count(x) <= st.total
    {
      CountStatusIsNumberOfRecords(s, x);
    }
  }

  /** For a non-empty list the five bars together fill exactly 100 percent. */
  lemma StatusBarsFillWhole(s: seq<University>)
    requires |s| > 0
    ensures StatusBars(StatusStats(s))[0].1 + StatusBars(StatusStats(s))[1].1 + StatusBars(StatusStats(s))[2].1
          + StatusBars(StatusStats(s))[3].1 + StatusBars(StatusStats(s))[4].1 == 100.0
  {
    var st := StatusStats(s);
    var t := st.total;
    var bars := StatusBars(st);
    assert bars == [
      (Applying, Percentage(st.applying, t)),
      (Waiting, Percentage(st.waiting, t)),
      (Accepted, Percentage(st.accepted, t)),
      (Rejected, Percentage(st.rejected, t)),
      (Waitlisted, Percentage(st.waitlisted, t))];
    PercentagesOfPartition(st.applying, st.waiting, st.accepted, st.rejected, st.waitlisted, t);
  }

  /** Percentages of five counts that make up a positive total add up to 100. */
  lemma PercentagesOfPartition(c0: nat, c1: nat, c2: nat, c3: nat, c4: nat, t: nat)
    requires t > 0 && c0 + c1 + c2 + c3 + c4 == t
    ensures Percentage(c0, t) + Percentage(c1, t) + Percentage(c2, t) + Percentage(c3, t) + Percentage(c4, t) == 100.0
  {
    PercentageAdds(c0, c1, t);
    PercentageAdds(c0 + c1, c2, t);
    PercentageAdds(c0 + c1 + c2, c3, t);
    PercentageAdds(c0 + c1 + c2 + c3, c4, t);
    PercentageOfWhole(t);
  }

  /** Percentages of the same total add: the bar of `a + b` is the bars of `a` and `b` together. */
  lemma PercentageAdds(a: nat, b: nat, t: nat)
    requires t > 0
    ensures Percentage(a, t) + Percentage(b, t) == Percentage(a + b, t)
  {
    SharesAdd(a as real, b as real, t as real);
  }

  lemma SharesAdd(a: real, b: real, t: real)
    requires t > 0.0
    ensures (a / t) * 100.0 + (b / t) * 100.0 == ((a + b) / t) * 100.0
  {
  }

  /** The whole is 100 percent. */
  lemma PercentageOfWhole(t: nat)
    requires t > 0
    ensures Percentage(t, t) == 100.0
  {
  }
}

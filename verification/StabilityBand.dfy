/** The robust band that describes a miner's normal range of one metric (app/stability_profile.py). */
module StabilityBand {
  import opened Common

  datatype MetricRule = MetricRule(relativeFloor: real, absoluteFloor: real)

  datatype Metric = RateThs | MaxTemp | ChainVoltage | ChainPower | Frequency

  function RuleOf(metric: Metric): MetricRule {
    match metric
    case RateThs => MetricRule(0.08, 2.0)
    case MaxTemp => MetricRule(0.05, 4.0)
    case ChainVoltage => MetricRule(0.03, 100.0)
    case ChainPower => MetricRule(0.10, 150.0)
    case Frequency => MetricRule(0.05, 20.0)
  }

  datatype Band = Band(count: nat, median: real, mad: real, lower: real, upper: real)

  function Abs(x: real): real {
    if x < 0.0 then -x else x
  }

  // ---------- median ----------

  function Insert(x: real, s: seq<real>): seq<real> {
    if s == [] || x <= s[0] then [x] + s else [s[0]] + Insert(x, s[1..])
  }

  function Sort(s: seq<real>): seq<real> {
    if s == [] then [] else Insert(s[0], Sort(s[1..]))
  }

  /** The middle value, or the mean of the two middle values. */
  function Median(s: seq<real>): real
    requires s != []
  {
    SortLength(s);
    var t := Sort(s);
    var h := |t| / 2;
    if |t| % 2 == 1 then t[h] else (t[h - 1] + t[h]) / 2.0
  }

  predicate Sorted(s: seq<real>) {
    forall i, j :: 0 <= i < j < |s| ==> s[i] <= s[j]
  }

  lemma {:induction false} SortLength(s: seq<real>)
    ensures |Sort(s)| == |s|
  {
    if s != [] {
      SortLength(s[1..]);
      InsertLength(s[0], Sort(s[1..]));
    }
  }

  lemma {:induction false} InsertLength(x: real, s: seq<real>)
    ensures |Insert(x, s)| == |s| + 1
  {
    if s != [] && x > s[0] {
      InsertLength(x, s[1..]);
    }
  }

  /** How many values lie in the closed interval; the order of the list does not matter. */
  function CountWithin(s: seq<real>, lo: real, hi: real): nat {
    if s == [] then 0 else (if lo <= s[0] <= hi then 1 else 0) + CountWithin(s[1..], lo, hi)
  }

  function CountBelow(s: seq<real>, x: real): nat {
    if s == [] then 0 else (if s[0] < x then 1 else 0) + CountBelow(s[1..], x)
  }

  function CountAbove(s: seq<real>, x: real): nat {
    if s == [] then 0 else (if s[0] > x then 1 else 0) + CountAbove(s[1..], x)
  }

  lemma {:induction false} InsertFacts(x: real, s: seq<real>, y: real)
    requires Sorted(s)
    ensures Sorted(Insert(x, s))
    ensures forall v :: v in Insert(x, s) ==> v == x || v in s
    ensures CountBelow(Insert(x, s), y) == CountBelow(s, y) + if x < y then 1 else 0
    ensures CountAbove(Insert(x, s), y) == CountAbove(s, y) + if x > y then 1 else 0
  {
    var t := Insert(x, s);
    if s == [] || x <= s[0] {
      assert t[1..] == s;
    } else {
      InsertFacts(x, s[1..], y);
      assert t[1..] == Insert(x, s[1..]);
      forall i, j | 0 <= i < j < |t| ensures t[i] <= t[j] {
        if i == 0 {
          assert t[j] in Insert(x, s[1..]);
        } else {
          assert t[i] == t[1..][i - 1] && t[j] == t[1..][j - 1];
        }
      }
    }
  }

  lemma {:induction false} SortFacts(s: seq<real>, y: real)
    ensures Sorted(Sort(s)) && |Sort(s)| == |s|
    ensures CountBelow(Sort(s), y) == CountBelow(s, y) && CountAbove(Sort(s), y) == CountAbove(s, y)
  {
    if s != [] {
      SortFacts(s[1..], y);
      InsertFacts(s[0], Sort(s[1..]), y);
      InsertLength(s[0], Sort(s[1..]));
    }
  }

  /** In a sorted list everything from position i on that is not below y keeps the count below y small. */
  lemma {:induction false} SortedCountBelow(t: seq<real>, y: real, i: nat)
    requires Sorted(t) && i <= |t| && (i < |t| ==> t[i] >= y)
    ensures CountBelow(t, y) <= i
  {
    if i == 0 {
      if t != [] {
        SortedCountBelow(t[1..], y, 0);
      }
    } else {
      SortedCountBelow(t[1..], y, i - 1);
    }
  }

  lemma {:induction false} SortedCountAbove(t: seq<real>, y: real, i: nat)
    requires Sorted(t) && i <= |t| && (0 < i ==> t[i - 1] <= y)
    ensures CountAbove(t, y) <= |t| - i
  {
    if t != [] {
      SortedCountAbove(t[1..], y, if i == 0 then 0 else i - 1);
    }
  }

  /** No more than half of the values lie strictly on either side of the median. */
  lemma {:induction false} MedianHalves(s: seq<real>)
    requires s != []
    ensures 2 * CountBelow(s, Median(s)) <= |s| && 2 * CountAbove(s, Median(s)) <= |s|
  {
    var m := Median(s);
    var t := Sort(s);
    SortFacts(s, m);
    var h := |t| / 2;
    SortedCountBelow(t, m, h);
    if |t| % 2 == 1 {
      SortedCountAbove(t, m, h + 1);
    } else {
      assert t[h - 1] <= t[h];
      SortedCountAbove(t, m, h);
    }
  }

  lemma {:induction false} InsertPermutes(x: real, s: seq<real>)
    ensures multiset(Insert(x, s)) == multiset(s) + multiset{x}
  {
    if s != [] && x > s[0] {
      InsertPermutes(x, s[1..]);
      assert s == [s[0]] + s[1..];
    }
  }

  lemma {:induction false} SortPermutes(s: seq<real>)
    ensures multiset(Sort(s)) == multiset(s)
  {
    if s != [] {
      SortPermutes(s[1..]);
      InsertPermutes(s[0], Sort(s[1..]));
      assert s == [s[0]] + s[1..];
    }
  }

  lemma FirstIsLeast(a: seq<real>, x: real)
    requires Sorted(a) && x in multiset(a)
    ensures a != [] && a[0] <= x && a[0] in multiset(a)
  {
    var i :| 0 <= i < |a| && a[i] == x;
  }

  lemma WithoutFirst(a: seq<real>)
    requires a != [] && Sorted(a)
    ensures multiset(a[1..]) == multiset(a) - multiset{a[0]} && Sorted(a[1..])
  {
    assert a == [a[0]] + a[1..];
  }

  lemma SameFirst(a: seq<real>, b: seq<real>)
    requires Sorted(a) && Sorted(b) && multiset(a) == multiset(b) && a != []
    ensures b != [] && a[0] == b[0] && multiset(a[1..]) == multiset(b[1..]) && Sorted(a[1..]) && Sorted(b[1..])
  {
    hide Sorted;
    assert a[0] in multiset(b);
    FirstIsLeast(b, a[0]);
    FirstIsLeast(a, b[0]);
    WithoutFirst(a);
    WithoutFirst(b);
  }

  lemma SameParts(a: seq<real>, b: seq<real>)
    requires a != [] && b != [] && a[0] == b[0] && a[1..] == b[1..]
    ensures a == b
  {
    assert a == [a[0]] + a[1..] && b == [b[0]] + b[1..];
  }

  lemma {:induction false} OneSorting(a: seq<real>, b: seq<real>)
    requires Sorted(a) && Sorted(b) && multiset(a) == multiset(b)
    ensures a == b
  {
    hide Sorted;
    if a == [] {
      assert |multiset(b)| == 0;
    } else {
      SameFirst(a, b);
      OneSorting(a[1..], b[1..]);
      SameParts(a, b);
    }
  }

  /** The median is the middle value of any sorting of the list, or the mean of its two middle values. */
  lemma {:induction false} MedianExactly(s: seq<real>, t: seq<real>)
    requires s != [] && Sorted(t) && multiset(t) == multiset(s)
    ensures |t| == |s| && Median(s) == if |s| % 2 == 1 then t[|s| / 2] else (t[|s| / 2 - 1] + t[|s| / 2]) / 2.0
  {
    SortFacts(s, 0.0);
    SortPermutes(s);
    OneSorting(Sort(s), t);
  }

  // ---------- breakdown ----------

  /** The number of positions at which two lists differ. */
  function Changed(s: seq<real>, t: seq<real>): nat
    requires |s| == |t|
  {
    if s == [] then 0 else (if s[0] != t[0] then 1 else 0) + Changed(s[1..], t[1..])
  }

  lemma {:induction false} UntouchedOnOneSide(s: seq<real>, t: seq<real>, m: real)
    requires |s| == |t|
    ensures (forall i :: 0 <= i < |s| && s[i] == t[i] ==> t[i] < m) ==> |t| <= CountBelow(t, m) + Changed(s, t)
    ensures (forall i :: 0 <= i < |s| && s[i] == t[i] ==> t[i] > m) ==> |t| <= CountAbove(t, m) + Changed(s, t)
  {
    if s != [] {
      UntouchedOnOneSide(s[1..], t[1..], m);
      assert forall i :: 0 <= i < |s| - 1 ==> s[1..][i] == s[i + 1] && t[1..][i] == t[i + 1];
    }
  }

  /** Changing fewer than half of the values, in any way, leaves the median between two values that were
      not changed. */
  lemma {:induction false} MedianBreakdown(s: seq<real>, t: seq<real>)
    requires |s| == |t| && s != [] && 2 * Changed(s, t) < |s|
    ensures exists i, j ::
      0 <= i < |s| && 0 <= j < |s| && s[i] == t[i] && s[j] == t[j] && t[i] <= Median(t) <= t[j]
  {
    var m := Median(t);
    MedianHalves(t);
    UntouchedOnOneSide(s, t, m);
    var i :| 0 <= i < |s| && s[i] == t[i] && t[i] <= m;
    var j :| 0 <= j < |s| && s[j] == t[j] && t[j] >= m;
  }

  // ---------- the band ----------

  function Deviations(s: seq<real>, center: real): (r: seq<real>)
    ensures |r| == |s| && forall i :: 0 <= i < |s| ==> r[i] == if s[i] >= center then s[i] - center else center - s[i]
  {
    if s == [] then [] else [Abs(s[0] - center)] + Deviations(s[1..], center)
  }

  /** Python's round to four digits: the nearest multiple of 0.0001, ties to the even one. */
  function Round4(x: real): real {
    var scaled := x * 10000.0;
    var down := scaled.Floor;
    var rest := scaled - down as real;
    var n := if rest < 0.5 || (rest == 0.5 && down % 2 == 0) then down else down + 1;
    n as real / 10000.0
  }

  function Radius(rule: MetricRule, center: real, mad: real): real {
    MaxReal(Abs(center) * rule.relativeFloor, MaxReal(mad * 1.4826 * 3.0, rule.absoluteFloor))
  }

  /** The finite values of a metric, in row order. */
  function FiniteValues(rows: seq<Number>): seq<real> {
    if rows == [] then []
    else (if rows[0].Finite? then [rows[0].value] else []) + FiniteValues(rows[1..])
  }

  function MetricBand(metric: Metric, rows: seq<Number>): Option<Band> {
    var values := FiniteValues(rows);
    if values == [] then None
    else
      var center := Median(values);
      var mad := Median(Deviations(values, center));
      var radius := Radius(RuleOf(metric), center, mad);
      Some(Band(|values|, Round4(center), Round4(mad), Round4(center - radius), Round4(center + radius)))
  }

  /** Rounding gives the nearest multiple of 0.0001, and of two equally near ones the even one. */
  lemma RoundIsNearest(x: real) returns (n: int)
    ensures Round4(x) == n as real / 10000.0
    ensures n as real - 0.5 <= x * 10000.0 <= n as real + 0.5
    ensures x * 10000.0 == n as real - 0.5 || x * 10000.0 == n as real + 0.5 ==> n % 2 == 0
  {
    var scaled := x * 10000.0;
    var down := scaled.Floor;
    var rest := scaled - down as real;
    n := if rest < 0.5 || (rest == 0.5 && down % 2 == 0) then down else down + 1;
  }

  /** The values of a metric are its finite readings, each as often as it was read. */
  lemma {:induction false} FiniteValuesExactly(rows: seq<Number>, v: real)
    ensures multiset(FiniteValues(rows))[v] == multiset(rows)[Finite(v)]
  {
    if rows != [] {
      FiniteValuesExactly(rows[1..], v);
      assert rows == [rows[0]] + rows[1..];
    }
  }

  /** The band is centred on the median; it reaches as far on either side as the widest of a share of the
      median, 4.4478 times the median deviation, and a fixed distance, all rounded. */
  lemma BandExactly(metric: Metric, rows: seq<Number>, radius: real)
    ensures MetricBand(metric, rows).Some? <==> FiniteValues(rows) != []
    ensures MetricBand(metric, rows).Some? ==>
      var values, band := FiniteValues(rows), MetricBand(metric, rows).value;
      var center := Median(values);
      var mad := Median(Deviations(values, center));
      var (share, least) := match metric
        case RateThs => (0.08, 2.0)
        case MaxTemp => (0.05, 4.0)
        case ChainVoltage => (0.03, 100.0)
        case ChainPower => (0.10, 150.0)
        case Frequency => (0.05, 20.0);
      var part := share * if center < 0.0 then -center else center;
      band.count == |values| && band.median == Round4(center) && band.mad == Round4(mad) &&
      (radius >= part && radius >= 4.4478 * mad && radius >= least &&
       (radius == part || radius == 4.4478 * mad || radius == least) ==>
         band.lower == Round4(center - radius) && band.upper == Round4(center + radius))
  {
    hide Median, Round4, Deviations;
  }

  lemma RoundIsClose(x: real)
    ensures x - 0.00005 <= Round4(x) <= x + 0.00005
  {
  }

  lemma {:induction false} CloseValuesAreInside(s: seq<real>, center: real, mad: real, lo: real, hi: real)
    requires lo <= center - mad && center + mad <= hi
    ensures |s| <= CountWithin(s, lo, hi) + CountAbove(Deviations(s, center), mad)
  {
    if s != [] {
      CloseValuesAreInside(s[1..], center, mad, lo, hi);
      assert Deviations(s, center)[1..] == Deviations(s[1..], center);
    }
  }

  /** The published band, rounding included, always holds at least half of the values it came from. */
  lemma HalfTheBaselineIsInside(metric: Metric, rows: seq<Number>)
    requires MetricBand(metric, rows).Some?
    ensures
      var band := MetricBand(metric, rows).value;
      var values := FiniteValues(rows);
      band.count == |values| && 2 * CountWithin(values, band.lower, band.upper) >= |values|
  {
    var values := FiniteValues(rows);
    var band := MetricBand(metric, rows).value;
    var center := Median(values);
    var deviations := Deviations(values, center);
    var mad := Median(deviations);
    var radius := Radius(RuleOf(metric), center, mad);
    MedianHalves(deviations);
    assert radius >= mad + 0.0001 by {
      assert radius >= 2.0 && radius >= mad * 4.4478;
    }
    RoundIsClose(center - radius);
    RoundIsClose(center + radius);
    CloseValuesAreInside(values, center, mad, band.lower, band.upper);
  }
}

/** The two tables the app reads, and the relational operations its queries
    are made of, each by its standard meaning over a sequence of rows in
    table order. */
module Tables {
  import opened Outcomes
  import opened Text

  /** A row of `measurement`: precipitation may be NULL. */
  datatype Measurement = Measurement(station: string, date: string, prcp: Option<real>, tobs: real)

  /** A row of `station`; its descriptive columns are never read. */
  datatype Station = Station(station: string)

  /** A one-column result row, the one-element tuple a query yields. */
  datatype Single<T> = Single(first: T)

  /** The rows of one GROUP BY date bucket. */
  datatype Group = Group(key: string, rows: seq<Measurement>)

  /** MIN, AVG and MAX of `tobs` over a bucket. */
  datatype Summary = Summary(low: real, mean: real, high: real)

  /* ---------------------------------------------------------------------
     Projections and WHERE.
     --------------------------------------------------------------------- */

  function Dates(rows: seq<Measurement>): (ds: seq<string>)
    ensures |ds| == |rows| && forall i :: 0 <= i < |rows| ==> ds[i] == rows[i].date
    decreases |rows|
  {
    if rows == [] then [] else [rows[0].date] + Dates(rows[1..])
  }

  function StationsOf(rows: seq<Measurement>): (ids: seq<string>)
    ensures |ids| == |rows| && forall i :: 0 <= i < |rows| ==> ids[i] == rows[i].station
    decreases |rows|
  {
    if rows == [] then [] else [rows[0].station] + StationsOf(rows[1..])
  }

  function StationIds(stations: seq<Station>): (ids: seq<string>)
    ensures |ids| == |stations| && forall i :: 0 <= i < |stations| ==> ids[i] == stations[i].station
    decreases |stations|
  {
    if stations == [] then [] else [stations[0].station] + StationIds(stations[1..])
  }

  /** `filter(...)`: the rows that satisfy `keep`, in table order. */
  function Where(rows: seq<Measurement>, keep: Measurement -> bool): (r: seq<Measurement>)
    ensures |r| <= |rows|
    ensures forall x :: x in r <==> x in rows && keep(x)
    decreases |rows|
  {
    if rows == [] then []
    else (if keep(rows[0]) then [rows[0]] else []) + Where(rows[1..], keep)
  }

  /** The filter keeps multiplicity: a kept row occurs as often as in the
      table, a dropped row not at all. */
  lemma {:induction false} WhereMultiplicity(rows: seq<Measurement>, keep: Measurement -> bool)
    ensures forall x :: multiset(Where(rows, keep))[x] == if keep(x) then multiset(rows)[x] else 0
    decreases |rows|
  {
    if rows != [] {
      WhereMultiplicity(rows[1..], keep);
      assert rows == [rows[0]] + rows[1..];
    }
  }

  /** The bucket of one date. */
  function OnDate(rows: seq<Measurement>, date: string): (r: seq<Measurement>)
    ensures forall x :: x in r <==> x in rows && x.date == date
  {
    Where(rows, (m: Measurement) => m.date == date)
  }

  lemma OnDateNonEmpty(rows: seq<Measurement>, date: string)
    requires date in Dates(rows)
    ensures OnDate(rows, date) != []
  {
    var i :| 0 <= i < |rows| && Dates(rows)[i] == date;
    assert rows[i] in OnDate(rows, date);
  }

  /** COUNT over the rows of one station: positive exactly for the stations
      that occur. */
  function Count(rows: seq<Measurement>, station: string): (n: nat)
    ensures n <= |rows|
    ensures n > 0 <==> station in StationsOf(rows)
    decreases |rows|
  {
    if rows == [] then 0
    else
      assert StationsOf(rows) == [rows[0].station] + StationsOf(rows[1..]);
      (if rows[0].station == station then 1 else 0) + Count(rows[1..], station)
  }

  /** The count is the number of the station's rows. */
  lemma {:induction false} CountIsWhere(rows: seq<Measurement>, station: string)
    ensures Count(rows, station) == |Where(rows, (m: Measurement) => m.station == station)|
    decreases |rows|
  {
    if rows != [] {
      CountIsWhere(rows[1..], station);
    }
  }

  /* ---------------------------------------------------------------------
     DISTINCT ... ORDER BY on string keys.
     --------------------------------------------------------------------- */

  predicate StrictlyAscending(s: seq<string>)
  {
    forall i, j :: 0 <= i < j < |s| ==> LexLt(s[i], s[j])
  }

  lemma AscendingIsDistinct(s: seq<string>)
    requires StrictlyAscending(s)
    ensures forall i, j :: 0 <= i < j < |s| ==> s[i] != s[j]
  {
  }

  lemma BelowAll(x: string, s: seq<string>)
    requires StrictlyAscending(s) && s != [] && LexLt(x, s[0])
    ensures forall j :: 0 <= j < |s| ==> LexLt(x, s[j])
  {
    forall j | 0 < j < |s| ensures LexLt(x, s[j]) {
      LexLtTransitive(x, s[0], s[j]);
    }
  }

  function InsertSorted(s: seq<string>, x: string): (r: seq<string>)
    requires StrictlyAscending(s)
    ensures StrictlyAscending(r)
    ensures forall y :: y in r <==> y in s || y == x
    decreases |s|
  {
    if s == [] then [x]
    else if x == s[0] then s
    else if LexLe(x, s[0]) then
      BelowAll(x, s);
      [x] + s
    else
      LexLeTotal(x, s[0]);
      var rest := InsertSorted(s[1..], x);
      assert forall y :: y in rest ==> LexLt(s[0], y) by {
        forall y | y in rest ensures LexLt(s[0], y) {
          if y != x {
            var k :| 0 <= k < |s[1..]| && s[1..][k] == y;
            assert s[k + 1] == y;
          }
        }
      }
      [s[0]] + rest
  }

  /** The distinct values of `xs`, ascending: what `group_by(c)` with
      `order_by(c)` yields for a column c. */
  function SortedDistinct(xs: seq<string>): (r: seq<string>)
    ensures StrictlyAscending(r)
    ensures forall y :: y in r <==> y in xs
    decreases |xs|
  {
    if xs == [] then []
    else
      var n := |xs| - 1;
      assert xs == xs[..n] + [xs[n]];
      InsertSorted(SortedDistinct(xs[..n]), xs[n])
  }

  /* ---------------------------------------------------------------------
     ORDER BY date DESC ... first().
     --------------------------------------------------------------------- */

  lemma RaiseBound(rows: seq<Measurement>, a: string, b: string)
    requires forall i :: 0 <= i < |rows| ==> LexLe(rows[i].date, a)
    requires LexLe(a, b)
    ensures forall i :: 0 <= i < |rows| ==> LexLe(rows[i].date, b)
  {
    forall i | 0 <= i < |rows| ensures LexLe(rows[i].date, b) {
      LexLeTransitive(rows[i].date, a, b);
    }
  }

  /** The largest date in string order. */
  function LatestDate(rows: seq<Measurement>): (latest: string)
    requires rows != []
    ensures latest in Dates(rows)
    ensures forall i :: 0 <= i < |rows| ==> LexLe(rows[i].date, latest)
    decreases |rows|
  {
    assert Dates(rows) == [rows[0].date] + Dates(rows[1..]);
    if |rows| == 1 then
      LexLeReflexive(rows[0].date);
      rows[0].date
    else
      var rest := LatestDate(rows[1..]);
      LexLeTotal(rest, rows[0].date);
      if LexLe(rest, rows[0].date) then
        RaiseBound(rows[1..], rest, rows[0].date);
        LexLeReflexive(rows[0].date);
        rows[0].date
      else
        rest
  }

  /* ---------------------------------------------------------------------
     ORDER BY count DESC, a stable insertion sort.
     --------------------------------------------------------------------- */

  predicate DescendingByCount(s: seq<(string, nat)>)
  {
    forall i, j :: 0 <= i < j < |s| ==> s[i].1 >= s[j].1
  }

  function InsertByCount(s: seq<(string, nat)>, p: (string, nat)): (r: seq<(string, nat)>)
    requires DescendingByCount(s)
    ensures DescendingByCount(r)
    ensures multiset(r) == multiset(s) + multiset{p}
    decreases |s|
  {
    if s == [] || s[0].1 < p.1 then
      [p] + s
    else
      var rest := InsertByCount(s[1..], p);
      assert s == [s[0]] + s[1..];
      HeadBoundsInsertion(s, p, rest);
      ConsDescending(s[0], rest);
      [s[0]] + rest
  }

  /** The head of a descending sequence bounds any rearrangement of its
      tail with one smaller pair added. */
  lemma HeadBoundsInsertion(s: seq<(string, nat)>, p: (string, nat), rest: seq<(string, nat)>)
    requires DescendingByCount(s) && s != [] && s[0].1 >= p.1
    requires multiset(rest) == multiset(s[1..]) + multiset{p}
    ensures forall y :: y in rest ==> s[0].1 >= y.1
  {
    forall y | y in rest ensures s[0].1 >= y.1 {
      assert y in multiset(rest);
      if y != p {
        assert y in multiset(s[1..]);
        var k :| 0 <= k < |s[1..]| && s[1..][k] == y;
        assert s[k + 1] == y;
      }
    }
  }

  lemma ConsDescending(x: (string, nat), rest: seq<(string, nat)>)
    requires DescendingByCount(rest) && forall y :: y in rest ==> x.1 >= y.1
    ensures DescendingByCount([x] + rest)
  {
    var r := [x] + rest;
    forall i, j | 0 <= i < j < |r| ensures r[i].1 >= r[j].1 {
      if i == 0 {
        assert r[j] == rest[j - 1];
      } else {
        assert r[i] == rest[i - 1] && r[j] == rest[j - 1];
      }
    }
  }

  /** The pairs reordered by count, largest first; pairs of equal count
      keep their relative order. */
  function SortByCountDesc(ps: seq<(string, nat)>): (r: seq<(string, nat)>)
    ensures DescendingByCount(r)
    ensures multiset(r) == multiset(ps)
    decreases |ps|
  {
    if ps == [] then []
    else
      var n := |ps| - 1;
      assert ps == ps[..n] + [ps[n]];
      InsertByCount(SortByCountDesc(ps[..n]), ps[n])
  }

  /* ---------------------------------------------------------------------
     GROUP BY date ... ORDER BY date.
     --------------------------------------------------------------------- */

  function GroupKeys(groups: seq<Group>): seq<string>
  {
    seq(|groups|, i requires 0 <= i < |groups| => groups[i].key)
  }

  function GroupsFor(rows: seq<Measurement>, keys: seq<string>): (groups: seq<Group>)
    requires forall i :: 0 <= i < |keys| ==> keys[i] in Dates(rows)
    ensures |groups| == |keys|
    ensures forall i :: 0 <= i < |keys| ==> groups[i] == Group(keys[i], OnDate(rows, keys[i])) && groups[i].rows != []
    decreases |keys|
  {
    if keys == [] then []
    else
      var head := Group(keys[0], OnDate(rows, keys[0]));
      OnDateNonEmpty(rows, keys[0]);
      assert forall i :: 0 <= i < |keys[1..]| ==> keys[1..][i] == keys[i + 1];
      var tail := GroupsFor(rows, keys[1..]);
      ConsGroups(rows, keys, head, tail);
      [head] + tail
  }

  lemma ConsGroups(rows: seq<Measurement>, keys: seq<string>, head: Group, tail: seq<Group>)
    requires keys != [] && head == Group(keys[0], OnDate(rows, keys[0])) && head.rows != []
    requires |tail| == |keys| - 1
    requires forall i :: 0 <= i < |tail| ==>
               tail[i] == Group(keys[i + 1], OnDate(rows, keys[i + 1])) && tail[i].rows != []
    ensures |[head] + tail| == |keys|
    ensures forall i :: 0 <= i < |keys| ==>
              ([head] + tail)[i] == Group(keys[i], OnDate(rows, keys[i])) && ([head] + tail)[i].rows != []
  {
    var all := [head] + tail;
    forall i | 0 <= i < |keys|
      ensures all[i] == Group(keys[i], OnDate(rows, keys[i])) && all[i].rows != []
    {
      if i > 0 {
        assert all[i] == tail[i - 1];
      }
    }
  }

  /** One non-empty bucket per distinct date, ascending by date. */
  function GroupByDate(rows: seq<Measurement>): (groups: seq<Group>)
    ensures StrictlyAscending(GroupKeys(groups))
    ensures forall d :: d in GroupKeys(groups) <==> d in Dates(rows)
    ensures forall i :: 0 <= i < |groups| ==>
              groups[i].rows == OnDate(rows, groups[i].key) && groups[i].rows != []
  {
    var keys := SortedDistinct(Dates(rows));
    var groups := GroupsFor(rows, keys);
    assert GroupKeys(groups) == keys;
    groups
  }

  /** The row a bare column in a GROUP BY takes its value from; this model
      fixes it as the bucket's last row. */
  function Last(rows: seq<Measurement>): (r: Measurement)
    requires rows != []
    ensures r in rows
  {
    rows[|rows| - 1]
  }

  /* ---------------------------------------------------------------------
     MIN, AVG and MAX of tobs.
     --------------------------------------------------------------------- */

  function MinTobs(g: seq<Measurement>): (lo: real)
    requires g != []
    ensures forall x :: x in g ==> lo <= x.tobs
    ensures exists x :: x in g && x.tobs == lo
    decreases |g|
  {
    if |g| == 1 then g[0].tobs
    else
      var rest := MinTobs(g[1..]);
      assert g == [g[0]] + g[1..];
      if g[0].tobs <= rest then g[0].tobs else rest
  }

  function MaxTobs(g: seq<Measurement>): (hi: real)
    requires g != []
    ensures forall x :: x in g ==> x.tobs <= hi
    ensures exists x :: x in g && x.tobs == hi
    decreases |g|
  {
    if |g| == 1 then g[0].tobs
    else
      var rest := MaxTobs(g[1..]);
      assert g == [g[0]] + g[1..];
      if g[0].tobs >= rest then g[0].tobs else rest
  }

  function SumTobs(g: seq<Measurement>): real
    decreases |g|
  {
    if g == [] then 0.0 else g[0].tobs + SumTobs(g[1..])
  }

  /** `k` copies of `x` added up: a product kept linear for the solver. */
  function Times(k: nat, x: real): real
  {
    if k == 0 then 0.0 else x + Times(k - 1, x)
  }

  lemma {:induction false} TimesIsProduct(k: nat, x: real)
    ensures Times(k, x) == (k as real) * x
  {
    if k > 0 {
      TimesIsProduct(k - 1, x);
    }
  }

  /** A sum lies between its count times any lower and any upper bound. */
  lemma {:induction false} SumBounds(g: seq<Measurement>, lo: real, hi: real)
    requires forall x :: x in g ==> lo <= x.tobs <= hi
    ensures Times(|g|, lo) <= SumTobs(g) <= Times(|g|, hi)
    decreases |g|
  {
    if g != [] {
      var rest := g[1..];
      assert g[0] in g;
      forall x | x in rest ensures lo <= x.tobs <= hi {
        assert x in g;
      }
      SumBounds(rest, lo, hi);
    }
  }

  lemma MeanBounds(lo: real, sum: real, hi: real, n: real)
    requires n > 0.0 && n * lo <= sum <= n * hi
    ensures lo <= sum / n <= hi
  {
  }

  /** An average of `k` values lies within any bounds of those values. */
  lemma MeanWithin(lo: real, sum: real, hi: real, k: nat)
    requires k > 0 && Times(k, lo) <= sum <= Times(k, hi)
    ensures lo <= sum / (k as real) <= hi
  {
    TimesIsProduct(k, lo);
    TimesIsProduct(k, hi);
    MeanBounds(lo, sum, hi, k as real);
  }

  /** `func.min`, `func.avg` and `func.max` of `tobs` over one bucket. */
  function Summarize(g: seq<Measurement>): (s: Summary)
    requires g != []
    ensures s.low <= s.mean <= s.high
    ensures forall x :: x in g ==> s.low <= x.tobs <= s.high
    ensures exists x :: x in g && x.tobs == s.low
    ensures exists x :: x in g && x.tobs == s.high
  {
    var lo, hi := MinTobs(g), MaxTobs(g);
    SumBounds(g, lo, hi);
    MeanWithin(lo, SumTobs(g), hi, |g|);
    Summary(lo, SumTobs(g) / (|g| as real), hi)
  }
}

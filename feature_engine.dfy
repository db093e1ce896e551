/** The offline feature and label pipeline: sort the telemetry by time, add a
    rolling mean and a rolling maximum of the core metric over the previous
    four hours, derive the `will_fail` label from the next row's failure
    indicator, and drop the raw indicator from the written table.

    Timestamps are integers in nanoseconds (the resolution of the parsed
    datetime index); metric values are reals. */
module FeatureEngine {
  import opened Wrappers
  import opened SeqStats

  const FAILURE_INDICATOR_COLUMN: string := "is_failed"
  const CORE_METRIC_COLUMN: string := "sensor_A"
  const MEAN_COLUMN: string := "sensor_A_mean_4h"
  const MAX_COLUMN: string := "sensor_A_max_4h"
  const LABEL_COLUMN: string := "will_fail"

  const HOUR: int := 3_600_000_000_000
  const FAILURE_WINDOW_HOURS: int := 24
  const ROLLING_WINDOW_HOURS: int := 4
  const FAILURE_WINDOW: int := FAILURE_WINDOW_HOURS * HOUR
  const ROLLING_WINDOW: int := ROLLING_WINDOW_HOURS * HOUR

  // ---------------------------------------------------------------------
  // Tables
  // ---------------------------------------------------------------------

  /** One row of the table: its parsed timestamp (the index) and one value
      per named column. */
  datatype RawRow = RawRow(t: int, cells: map<string, real>)

  datatype Table = Table(columns: seq<string>, rows: seq<RawRow>)

  /** Every row has a value for exactly the table's columns, as a parsed
      CSV file does. */
  predicate WellFormed(tb: Table)
  {
    forall r :: r in tb.rows ==> r.cells.Keys == set c | c in tb.columns
  }

  datatype PipelineError = MissingColumns(required: seq<string>, found: seq<string>)

  // ---------------------------------------------------------------------
  // Sorting by time
  // ---------------------------------------------------------------------

  predicate SortedByTime(rows: seq<RawRow>)
  {
    forall i, j :: 0 <= i < j < |rows| ==> rows[i].t <= rows[j].t
  }

  /** Inserts `r` after every row that is not later than it. */
  function InsertByTime(sorted: seq<RawRow>, r: RawRow): (res: seq<RawRow>)
    requires SortedByTime(sorted)
    ensures SortedByTime(res)
    ensures multiset(res) == multiset(sorted) + multiset{r}
  {
    if sorted == [] then [r]
    else
      var last := sorted[|sorted| - 1];
      var init := sorted[..|sorted| - 1];
      assert sorted == init + [last];
      if last.t <= r.t then sorted + [r]
      else
        var front := InsertByTime(init, r);
        AllNotLater(sorted, r, front);
        var res := front + [last];
        assert SortedByTime(res) by {
          forall i, j | 0 <= i < j < |res| ensures res[i].t <= res[j].t {
            if j == |front| { assert res[i] == front[i]; }
          }
        }
        assert multiset(res) == multiset(front) + multiset{last};
        res
  }

  /** What is inserted before the last row of a sorted sequence is not later
      than that row. */
  lemma AllNotLater(sorted: seq<RawRow>, r: RawRow, front: seq<RawRow>)
    requires SortedByTime(sorted) && |sorted| > 0 && r.t < sorted[|sorted| - 1].t
    requires multiset(front) == multiset(sorted[..|sorted| - 1]) + multiset{r}
    ensures forall k :: 0 <= k < |front| ==> front[k].t <= sorted[|sorted| - 1].t
  {
    var init := sorted[..|sorted| - 1];
    forall k | 0 <= k < |front| ensures front[k].t <= sorted[|sorted| - 1].t {
      assert front[k] in multiset(front);
      if front[k] != r {
        assert front[k] in multiset(init);
        assert front[k] in init;
      }
    }
  }

  /** The rows in ascending time order: a sorted permutation of the input. */
  function SortByTime(rows: seq<RawRow>): (res: seq<RawRow>)
    ensures SortedByTime(res)
    ensures multiset(res) == multiset(rows)
    ensures |res| == |rows|
  {
    if rows == [] then []
    else
      var init := rows[..|rows| - 1];
      assert rows == init + [rows[|rows| - 1]];
      var res := InsertByTime(SortByTime(init), rows[|rows| - 1]);
      assert |res| == |multiset(res)|;
      res
  }

  /** `set_index(timestamp).sort_index()`: the table's rows in time order;
      each keeps its cells, so each still has every column. */
  function SortTable(tb: Table): (rows: seq<RawRow>)
    requires WellFormed(tb)
    ensures SortedByTime(rows) && multiset(rows) == multiset(tb.rows) && |rows| == |tb.rows|
    ensures forall r :: r in rows ==> r.cells.Keys == set c | c in tb.columns
  {
    var rows := SortByTime(tb.rows);
    assert forall r :: r in rows ==> r in multiset(tb.rows);
    rows
  }

  // ---------------------------------------------------------------------
  // Observations: the two columns the windows read
  // ---------------------------------------------------------------------

  datatype Obs = Obs(t: int, sensor: real, failed: real)

  predicate SortedObs(s: seq<Obs>)
  {
    forall i, j :: 0 <= i < j < |s| ==> s[i].t <= s[j].t
  }

  /** The timestamp, metric and indicator of each row, in row order. */
  function Observe(rows: seq<RawRow>): (s: seq<Obs>)
    requires forall r :: r in rows ==> CORE_METRIC_COLUMN in r.cells && FAILURE_INDICATOR_COLUMN in r.cells
    ensures |s| == |rows|
    ensures forall i :: 0 <= i < |rows| ==>
      s[i] == Obs(rows[i].t, rows[i].cells[CORE_METRIC_COLUMN], rows[i].cells[FAILURE_INDICATOR_COLUMN])
    ensures SortedByTime(rows) ==> SortedObs(s)
  {
    seq(|rows|, i requires 0 <= i < |rows| =>
      Obs(rows[i].t, rows[i].cells[CORE_METRIC_COLUMN], rows[i].cells[FAILURE_INDICATOR_COLUMN]))
  }

  // ---------------------------------------------------------------------
  // Rolling features, as the code computes them
  // ---------------------------------------------------------------------

  /** Sensor readings of the rows of `p` timed at or after `lo`, in row order. */
  function ReadingsFrom(p: seq<Obs>, lo: int): seq<real>
  {
    if p == [] then []
    else (if lo <= p[0].t then [p[0].sensor] else []) + ReadingsFrom(p[1..], lo)
  }

  lemma {:induction false} ReadingsFromMembers(p: seq<Obs>, lo: int, x: real)
    ensures x in ReadingsFrom(p, lo) <==> exists j :: 0 <= j < |p| && lo <= p[j].t && p[j].sensor == x
  {
    if p != [] {
      var rest := p[1..];
      ReadingsFromMembers(rest, lo, x);
      if x in ReadingsFrom(rest, lo) {
        var j :| 0 <= j < |rest| && lo <= rest[j].t && rest[j].sensor == x;
        assert p[j + 1] == rest[j];
      }
      if exists j :: 0 <= j < |p| && lo <= p[j].t && p[j].sensor == x {
        var j :| 0 <= j < |p| && lo <= p[j].t && p[j].sensor == x;
        if j > 0 {
          assert rest[j - 1] == p[j];
        }
      }
    }
  }

  /** Row `j` lies in the four-hour window of row `i`. A time-based window
      is bounded by row positions: with `closed='left'` the window of row
      `i` ends just before row `i` and starts at the first row timed at or
      after `t_i - 4h`. On a time-sorted table it holds the earlier rows of
      `[t_i - 4h, t_i]`, so an earlier row sharing `t_i` is inside it. */
  predicate InRollingWindow(s: seq<Obs>, i: int, j: int)
  {
    0 <= j < i < |s| && s[i].t - ROLLING_WINDOW <= s[j].t
  }

  /** The window's readings are exactly those of the rows in the window. */
  lemma RollingWindowMembers(s: seq<Obs>, i: nat)
    requires i < |s|
    ensures var w := ReadingsFrom(s[..i], s[i].t - ROLLING_WINDOW);
      && (w == [] <==> forall j :: !InRollingWindow(s, i, j))
      && (forall j :: InRollingWindow(s, i, j) ==> s[j].sensor in w)
      && (forall x :: x in w ==> exists j :: InRollingWindow(s, i, j) && s[j].sensor == x)
  {
    var p, lo := s[..i], s[i].t - ROLLING_WINDOW;
    var w := ReadingsFrom(p, lo);
    forall j | InRollingWindow(s, i, j) ensures s[j].sensor in w {
      ReadingsFromMembers(p, lo, s[j].sensor);
      assert p[j] == s[j];
    }
    forall x | x in w ensures exists j :: InRollingWindow(s, i, j) && s[j].sensor == x {
      ReadingsFromMembers(p, lo, x);
      var j :| 0 <= j < |p| && lo <= p[j].t && p[j].sensor == x;
      assert InRollingWindow(s, i, j);
    }
    if w != [] {
      assert w[0] in w;
    }
  }

  /** `sensor_A_max_4h`: the largest reading in the window, 0 (`fillna(0)`)
      when the window is empty. */
  function RollingMax(s: seq<Obs>, i: nat): (m: real)
    requires i < |s|
    ensures (forall j :: !InRollingWindow(s, i, j)) ==> m == 0.0
    ensures forall j :: InRollingWindow(s, i, j) ==> s[j].sensor <= m
    ensures (exists j :: InRollingWindow(s, i, j)) ==>
              exists j :: InRollingWindow(s, i, j) && s[j].sensor == m
  {
    var w := ReadingsFrom(s[..i], s[i].t - ROLLING_WINDOW);
    RollingWindowMembers(s, i);
    if w == [] then 0.0 else Max(w)
  }

  /** `sensor_A_mean_4h`: the mean reading in the window, 0 when the window
      is empty; it lies between two readings of the window. */
  function RollingMean(s: seq<Obs>, i: nat): (m: real)
    requires i < |s|
    ensures (forall j :: !InRollingWindow(s, i, j)) ==> m == 0.0
    ensures (exists j :: InRollingWindow(s, i, j)) ==>
              && (exists j :: InRollingWindow(s, i, j) && s[j].sensor <= m)
              && (exists j :: InRollingWindow(s, i, j) && m <= s[j].sensor)
  {
    var w := ReadingsFrom(s[..i], s[i].t - ROLLING_WINDOW);
    RollingWindowMembers(s, i);
    if w == [] then 0.0
    else
      MeanBetweenMinAndMax(w);
      Mean(w)
  }

  /** The first row's window is empty: both its features are 0. */
  lemma FirstRowFeaturesAreZero(s: seq<Obs>)
    requires |s| > 0
    ensures RollingMean(s, 0) == 0.0 && RollingMax(s, 0) == 0.0
  {
  }

  /** Two tables with the same rows before position `i`, and the same
      timestamp at `i`, give row `i` the same features: neither the row
      itself nor any later row is read. */
  lemma FeaturesReadOnlyEarlierRows(s: seq<Obs>, s': seq<Obs>, i: nat)
    requires i < |s| && i < |s'|
    requires s[..i] == s'[..i] && s[i].t == s'[i].t
    ensures RollingMean(s, i) == RollingMean(s', i)
    ensures RollingMax(s, i) == RollingMax(s', i)
  {
  }

  /** Two readings at the same instant: the second row's features see the
      first row's reading, where only strictly earlier readings were meant
      to count. */
  lemma EarlierPeerLeaksIntoFeatures()
    ensures RollingMax([Obs(0, 5.0, 0.0), Obs(0, 7.0, 0.0)], 1) == 5.0
    ensures RollingMean([Obs(0, 5.0, 0.0), Obs(0, 7.0, 0.0)], 1) == 5.0
    ensures LeakFreeMax([Obs(0, 5.0, 0.0), Obs(0, 7.0, 0.0)], 1) == 0.0
    ensures LeakFreeMean([Obs(0, 5.0, 0.0), Obs(0, 7.0, 0.0)], 1) == 0.0
  {
    var s := [Obs(0, 5.0, 0.0), Obs(0, 7.0, 0.0)];
    var lo := s[1].t - ROLLING_WINDOW;
    assert s[..1] == [s[0]];
    assert ReadingsFrom(s[..1], lo) == [5.0] by {
      assert ReadingsFrom(s[..1][1..], lo) == [];
    }
    assert Sum([5.0]) == 5.0 by {
      assert [5.0][1..] == [];
    }
    assert WindowReadings(s, lo, s[1].t) == [] by {
      assert WindowReadings(s[1..], lo, s[1].t) == [] by {
        assert s[1..][1..] == [];
      }
    }
  }

  // ---------------------------------------------------------------------
  // Rolling features over the strict past [t - 4h, t)
  // ---------------------------------------------------------------------

  /** Sensor readings of the rows whose timestamp lies in `[lo, hi)`, in row order. */
  function WindowReadings(s: seq<Obs>, lo: int, hi: int): seq<real>
  {
    if s == [] then []
    else (if lo <= s[0].t < hi then [s[0].sensor] else []) + WindowReadings(s[1..], lo, hi)
  }

  /** Row `j` lies in the left-closed, right-open interval `[t_i - 4h, t_i)`. */
  predicate InPastWindow(s: seq<Obs>, i: int, j: int)
  {
    0 <= i < |s| && 0 <= j < |s| && s[i].t - ROLLING_WINDOW <= s[j].t < s[i].t
  }

  /** The window holds exactly the readings of the rows timed in `[lo, hi)`. */
  lemma {:induction false} WindowReadingsMembers(s: seq<Obs>, lo: int, hi: int, x: real)
    ensures x in WindowReadings(s, lo, hi) <==>
            exists j :: 0 <= j < |s| && lo <= s[j].t < hi && s[j].sensor == x
  {
    if s != [] {
      var rest := s[1..];
      WindowReadingsMembers(rest, lo, hi, x);
      if x in WindowReadings(rest, lo, hi) {
        var j :| 0 <= j < |rest| && lo <= rest[j].t < hi && rest[j].sensor == x;
        assert s[j + 1] == rest[j];
      }
      if exists j :: 0 <= j < |s| && lo <= s[j].t < hi && s[j].sensor == x {
        var j :| 0 <= j < |s| && lo <= s[j].t < hi && s[j].sensor == x;
        if j > 0 {
          assert rest[j - 1] == s[j];
        }
      }
    }
  }

  lemma PastWindowMembers(s: seq<Obs>, i: nat)
    requires i < |s|
    ensures var w := WindowReadings(s, s[i].t - ROLLING_WINDOW, s[i].t);
      && (w == [] <==> forall j :: !InPastWindow(s, i, j))
      && (forall j :: InPastWindow(s, i, j) ==> s[j].sensor in w)
      && (forall x :: x in w ==> exists j :: InPastWindow(s, i, j) && s[j].sensor == x)
  {
    var lo, hi := s[i].t - ROLLING_WINDOW, s[i].t;
    var w := WindowReadings(s, lo, hi);
    forall j | InPastWindow(s, i, j) ensures s[j].sensor in w {
      WindowReadingsMembers(s, lo, hi, s[j].sensor);
    }
    forall x | x in w ensures exists j :: InPastWindow(s, i, j) && s[j].sensor == x {
      WindowReadingsMembers(s, lo, hi, x);
      var j :| 0 <= j < |s| && lo <= s[j].t < hi && s[j].sensor == x;
      assert InPastWindow(s, i, j);
    }
    if w != [] {
      assert w[0] in w;
    }
  }

  /** The maximum feature over the strict past, 0 when it holds no row. */
  function LeakFreeMax(s: seq<Obs>, i: nat): (m: real)
    requires i < |s|
    ensures (forall j :: !InPastWindow(s, i, j)) ==> m == 0.0
    ensures forall j :: InPastWindow(s, i, j) ==> s[j].sensor <= m
    ensures (exists j :: InPastWindow(s, i, j)) ==>
              exists j :: InPastWindow(s, i, j) && s[j].sensor == m
  {
    var w := WindowReadings(s, s[i].t - ROLLING_WINDOW, s[i].t);
    PastWindowMembers(s, i);
    if w == [] then 0.0 else Max(w)
  }

  /** The mean feature over the strict past, 0 when it holds no row. */
  function LeakFreeMean(s: seq<Obs>, i: nat): (m: real)
    requires i < |s|
    ensures (forall j :: !InPastWindow(s, i, j)) ==> m == 0.0
    ensures (exists j :: InPastWindow(s, i, j)) ==>
              && (exists j :: InPastWindow(s, i, j) && s[j].sensor <= m)
              && (exists j :: InPastWindow(s, i, j) && m <= s[j].sensor)
  {
    var w := WindowReadings(s, s[i].t - ROLLING_WINDOW, s[i].t);
    PastWindowMembers(s, i);
    if w == [] then 0.0
    else
      MeanBetweenMinAndMax(w);
      Mean(w)
  }

  /** The rows strictly earlier than `hi`, in order. */
  function Before(s: seq<Obs>, hi: int): seq<Obs>
  {
    if s == [] then [] else (if s[0].t < hi then [s[0]] else []) + Before(s[1..], hi)
  }

  lemma {:induction false} WindowReadingsSeeOnlyThePast(s: seq<Obs>, lo: int, hi: int)
    ensures WindowReadings(s, lo, hi) == WindowReadings(Before(s, hi), lo, hi)
  {
    if s != [] {
      WindowReadingsSeeOnlyThePast(s[1..], lo, hi);
      if s[0].t < hi {
        var b := [s[0]] + Before(s[1..], hi);
        assert Before(s, hi) == b;
        assert b[0] == s[0] && b[1..] == Before(s[1..], hi);
        assert WindowReadings(b, lo, hi) ==
          (if lo <= s[0].t < hi then [s[0].sensor] else []) + WindowReadings(Before(s[1..], hi), lo, hi);
      } else {
        assert Before(s, hi) == Before(s[1..], hi);
      }
    }
  }

  /** No leakage: the leak-free features of a row depend only on the rows
      strictly earlier than it. Two tables that agree on those rows give the
      same features, whatever the row itself, the rows sharing its
      timestamp and the later rows hold. */
  lemma FeaturesIgnoreCurrentAndLaterRows(s: seq<Obs>, i: nat, s': seq<Obs>, i': nat)
    requires i < |s| && i' < |s'|
    requires s[i].t == s'[i'].t
    requires Before(s, s[i].t) == Before(s', s'[i'].t)
    ensures LeakFreeMean(s, i) == LeakFreeMean(s', i')
    ensures LeakFreeMax(s, i) == LeakFreeMax(s', i')
  {
    var lo, hi := s[i].t - ROLLING_WINDOW, s[i].t;
    assert lo == s'[i'].t - ROLLING_WINDOW && hi == s'[i'].t;
    WindowReadingsSeeOnlyThePast(s, lo, hi);
    WindowReadingsSeeOnlyThePast(s', lo, hi);
    var w := WindowReadings(s, lo, hi);
    assert w == WindowReadings(s', lo, hi);
    assert LeakFreeMean(s, i) == (if w == [] then 0.0 else Mean(w));
    assert LeakFreeMean(s', i') == (if w == [] then 0.0 else Mean(w));
    assert LeakFreeMax(s, i) == (if w == [] then 0.0 else Max(w));
    assert LeakFreeMax(s', i') == (if w == [] then 0.0 else Max(w));
  }

  lemma {:induction false} WindowReadingsAppend(a: seq<Obs>, b: seq<Obs>, lo: int, hi: int)
    ensures WindowReadings(a + b, lo, hi) == WindowReadings(a, lo, hi) + WindowReadings(b, lo, hi)
  {
    if a == [] {
      assert a + b == b;
    } else {
      var head := if lo <= a[0].t < hi then [a[0].sensor] else [];
      var ab := a + b;
      assert ab != [] && ab[0] == a[0] && ab[1..] == a[1..] + b;
      WindowReadingsAppend(a[1..], b, lo, hi);
      var x, y := WindowReadings(a[1..], lo, hi), WindowReadings(b, lo, hi);
      assert WindowReadings(ab, lo, hi) == head + (x + y);
      assert WindowReadings(a, lo, hi) == head + x;
      assert head + (x + y) == (head + x) + y;
    }
  }

  /** Rows timed before `hi` are filtered by the lower bound alone. */
  lemma {:induction false} EarlyWindowReadings(a: seq<Obs>, lo: int, hi: int)
    requires forall k :: 0 <= k < |a| ==> a[k].t < hi
    ensures WindowReadings(a, lo, hi) == ReadingsFrom(a, lo)
  {
    if a != [] {
      EarlyWindowReadings(a[1..], lo, hi);
    }
  }

  /** Rows timed at or after `hi` contribute nothing. */
  lemma {:induction false} LateWindowReadings(b: seq<Obs>, lo: int, hi: int)
    requires forall k :: 0 <= k < |b| ==> hi <= b[k].t
    ensures WindowReadings(b, lo, hi) == []
  {
    if b != [] {
      LateWindowReadings(b[1..], lo, hi);
    }
  }

  /** When no two rows share a timestamp, the code's features are the
      leak-free ones. */
  lemma FeaturesLeakFreeWithoutTies(s: seq<Obs>, i: nat)
    requires i < |s|
    requires forall a, b :: 0 <= a < b < |s| ==> s[a].t < s[b].t
    ensures RollingMean(s, i) == LeakFreeMean(s, i)
    ensures RollingMax(s, i) == LeakFreeMax(s, i)
  {
    var lo, hi := s[i].t - ROLLING_WINDOW, s[i].t;
    WindowWithoutTies(s, i, lo, hi);
    var w := ReadingsFrom(s[..i], lo);
    assert RollingMean(s, i) == (if w == [] then 0.0 else Mean(w));
    assert LeakFreeMean(s, i) == (if w == [] then 0.0 else Mean(w));
    assert RollingMax(s, i) == (if w == [] then 0.0 else Max(w));
    assert LeakFreeMax(s, i) == (if w == [] then 0.0 else Max(w));
  }

  /** Without ties, the rows before position `i` are exactly the rows timed
      before `hi = t_i`. */
  lemma WindowWithoutTies(s: seq<Obs>, i: nat, lo: int, hi: int)
    requires i < |s| && hi == s[i].t
    requires forall a, b :: 0 <= a < b < |s| ==> s[a].t < s[b].t
    ensures WindowReadings(s, lo, hi) == ReadingsFrom(s[..i], lo)
  {
    var p, q := s[..i], s[i..];
    assert s == p + q;
    WindowReadingsAppend(p, q, lo, hi);
    EarlyWindowReadings(p, lo, hi);
    assert forall k :: 0 <= k < |q| ==> q[k] == s[i + k];
    LateWindowReadings(q, lo, hi);
  }

  /** The position of the first row of `s` timed at or after `lo`, `|s|`
      when there is none. */
  function FirstFrom(s: seq<Obs>, lo: int): (k: nat)
    ensures k <= |s|
    ensures forall j :: 0 <= j < k ==> s[j].t < lo
    ensures k < |s| ==> lo <= s[k].t
  {
    if s == [] then 0
    else if lo <= s[0].t then 0
    else
      var k := 1 + FirstFrom(s[1..], lo);
      assert forall j :: 1 <= j < k ==> s[j] == s[1..][j - 1];
      k
  }

  /** The sensor readings of the rows of `p`, one per row, in row order. */
  function Sensors(p: seq<Obs>): seq<real>
  {
    seq(|p|, d requires 0 <= d < |p| => p[d].sensor)
  }

  /** When the rows before `k` are timed before `lo` and the others at or
      after it, the readings from `lo` on are those of the block from `k`,
      repeated readings included. */
  lemma {:induction false} ReadingsFromBlock(p: seq<Obs>, lo: int, k: nat)
    requires k <= |p|
    requires forall j :: 0 <= j < k ==> p[j].t < lo
    requires forall j :: k <= j < |p| ==> lo <= p[j].t
    ensures ReadingsFrom(p, lo) == Sensors(p[k..])
  {
    if p != [] {
      var rest := p[1..];
      assert forall j :: 1 <= j < |p| ==> rest[j - 1] == p[j];
      if k > 0 {
        ReadingsFromBlock(rest, lo, k - 1);
        assert rest[k - 1..] == p[k..];
      } else {
        ReadingsFromBlock(rest, lo, 0);
        assert p[0..] == p && rest[0..] == rest;
        assert Sensors(p) == [p[0].sensor] + Sensors(rest);
      }
    }
  }

  /** On a time-sorted table the code's window of row `i` is the block of
      rows from the first one timed at or after `t_i - 4h` up to row `i`,
      exclusive: the mean is the sum of their readings over their count,
      the max the largest of them, and both are 0 for an empty block. */
  lemma RollingWindowIsBlock(s: seq<Obs>, i: nat)
    requires i < |s| && SortedObs(s)
    ensures var k := FirstFrom(s, s[i].t - ROLLING_WINDOW);
      && k <= i
      && RollingMean(s, i) == (if k < i then Sum(Sensors(s[k..i])) / ((i - k) as real) else 0.0)
      && RollingMax(s, i) == (if k < i then Max(Sensors(s[k..i])) else 0.0)
  {
    var lo := s[i].t - ROLLING_WINDOW;
    var k := FirstFrom(s, lo);
    var p := s[..i];
    ReadingsFromBlock(p, lo, k);
    assert p[k..] == s[k..i];
    var w := Sensors(s[k..i]);
    assert ReadingsFrom(s[..i], lo) == w;
    assert |w| == i - k;
  }

  /** On a time-sorted table the corrected window of row `i` is the block of
      rows timed in `[t_i - 4h, t_i)`: from the first row timed at or after
      `t_i - 4h` up to the first row timed at or after `t_i`, exclusive. */
  lemma PastWindowIsBlock(s: seq<Obs>, i: nat)
    requires i < |s| && SortedObs(s)
    ensures var k, m := FirstFrom(s, s[i].t - ROLLING_WINDOW), FirstFrom(s, s[i].t);
      && k <= m <= i
      && LeakFreeMean(s, i) == (if k < m then Sum(Sensors(s[k..m])) / ((m - k) as real) else 0.0)
      && LeakFreeMax(s, i) == (if k < m then Max(Sensors(s[k..m])) else 0.0)
  {
    var lo, hi := s[i].t - ROLLING_WINDOW, s[i].t;
    var k, m := FirstFrom(s, lo), FirstFrom(s, hi);
    PastWindowBlockReadings(s, lo, hi, k, m);
    var w := Sensors(s[k..m]);
    assert WindowReadings(s, lo, hi) == w;
    assert |w| == m - k;
  }

  lemma PastWindowBlockReadings(s: seq<Obs>, lo: int, hi: int, k: nat, m: nat)
    requires SortedObs(s) && lo < hi
    requires k == FirstFrom(s, lo) && m == FirstFrom(s, hi) && m < |s|
    ensures k <= m
    ensures WindowReadings(s, lo, hi) == Sensors(s[k..m])
  {
    assert lo < s[m].t;
    WindowBeforeCut(s, lo, hi, m);
    var p := s[..m];
    assert forall j :: 0 <= j < |p| ==> p[j] == s[j];
    assert forall j :: k <= j < |p| ==> lo <= p[j].t by {
      assert forall j :: k <= j < |p| ==> s[k].t <= s[j].t;
    }
    ReadingsFromBlock(p, lo, k);
    assert p[k..] == s[k..m];
  }

  /** Cut a time-sorted table at the first row timed at or after `hi`: the
      window `[lo, hi)` reads the part before the cut from `lo` on. */
  lemma WindowBeforeCut(s: seq<Obs>, lo: int, hi: int, m: nat)
    requires SortedObs(s) && m < |s|
    requires forall j :: 0 <= j < m ==> s[j].t < hi
    requires hi <= s[m].t
    ensures WindowReadings(s, lo, hi) == ReadingsFrom(s[..m], lo)
  {
    var p, q := s[..m], s[m..];
    assert s == p + q;
    WindowReadingsAppend(p, q, lo, hi);
    EarlyWindowReadings(p, lo, hi);
    assert forall j :: 0 <= j < |q| ==> q[j] == s[m + j];
    LateWindowReadings(q, lo, hi);
    assert WindowReadings(p, lo, hi) + [] == WindowReadings(p, lo, hi);
  }

  // ---------------------------------------------------------------------
  // The will_fail label, as the code computes it
  // ---------------------------------------------------------------------

  /** `shift(-1)` of the failure indicator, over the rows of `p` timed after
      `lo`: each such row gives the indicator of the row after it; the last
      row of `p` has none (NaN, which the maximum skips). */
  function ShiftedIndicators(p: seq<Obs>, lo: int): seq<real>
  {
    if |p| < 2 then []
    else (if lo < p[0].t then [p[1].failed] else []) + ShiftedIndicators(p[1..], lo)
  }

  /** `astype(int)`: truncation toward zero. */
  function TruncateToInt(x: real): int
  {
    if x >= 0.0 then x.Floor else -((-x).Floor)
  }

  /** Row `j` lies in the 24-hour label window of row `i` and has a next row.
      The window is right-closed, so it ends at row `i` and starts at the
      first row timed after `t_i - 24h`; the last row of the table carries
      no shifted value. */
  predicate InLabelWindow(s: seq<Obs>, i: int, j: int)
  {
    0 <= j <= i < |s| && j < |s| - 1 && s[i].t - FAILURE_WINDOW < s[j].t
  }

  /** The rows the label of row `i` reads: up to row `i` and the row after it. */
  function LabelRowsOf(s: seq<Obs>, i: nat): seq<Obs>
    requires i < |s|
  {
    s[..if i + 1 < |s| then i + 2 else |s|]
  }

  lemma {:induction false} ShiftedIndicatorsMembers(p: seq<Obs>, lo: int, x: real)
    ensures x in ShiftedIndicators(p, lo) <==>
            exists j :: 0 <= j < |p| - 1 && lo < p[j].t && p[j + 1].failed == x
  {
    if |p| >= 2 {
      var rest := p[1..];
      ShiftedIndicatorsMembers(rest, lo, x);
      if x in ShiftedIndicators(rest, lo) {
        var j :| 0 <= j < |rest| - 1 && lo < rest[j].t && rest[j + 1].failed == x;
        assert p[j + 1] == rest[j] && p[j + 2] == rest[j + 1];
      }
      if exists j :: 0 <= j < |p| - 1 && lo < p[j].t && p[j + 1].failed == x {
        var j :| 0 <= j < |p| - 1 && lo < p[j].t && p[j + 1].failed == x;
        if j > 0 {
          assert rest[j - 1] == p[j] && rest[j] == p[j + 1];
        }
      }
    }
  }

  /** Every failure indicator is 0 or 1. */
  predicate Binary(s: seq<Obs>)
  {
    forall j :: 0 <= j < |s| ==> s[j].failed == 0.0 || s[j].failed == 1.0
  }

  lemma {:induction false} ShiftedIndicatorsOfBinary(p: seq<Obs>, lo: int)
    requires Binary(p)
    ensures forall k :: 0 <= k < |ShiftedIndicators(p, lo)| ==>
      ShiftedIndicators(p, lo)[k] == 0.0 || ShiftedIndicators(p, lo)[k] == 1.0
  {
    if |p| >= 2 {
      ShiftedIndicatorsOfBinary(p[1..], lo);
    }
  }

  /** The label window's shifted values are exactly the next-row indicators
      of the rows in the window, and are 0/1 when the indicators are. */
  lemma LabelWindowMembers(s: seq<Obs>, i: nat, w: seq<real>)
    requires i < |s| && w == ShiftedIndicators(LabelRowsOf(s, i), s[i].t - FAILURE_WINDOW)
    ensures forall j :: InLabelWindow(s, i, j) ==> s[j + 1].failed in w
    ensures forall x :: x in w ==> exists j :: InLabelWindow(s, i, j) && s[j + 1].failed == x
    ensures Binary(s) ==> forall k :: 0 <= k < |w| ==> w[k] == 0.0 || w[k] == 1.0
  {
    var p, lo := LabelRowsOf(s, i), s[i].t - FAILURE_WINDOW;
    forall j | InLabelWindow(s, i, j) ensures s[j + 1].failed in w {
      ShiftedIndicatorsMembers(p, lo, s[j + 1].failed);
      assert p[j] == s[j] && p[j + 1] == s[j + 1];
    }
    forall x | x in w ensures exists j :: InLabelWindow(s, i, j) && s[j + 1].failed == x {
      ShiftedIndicatorsMembers(p, lo, x);
      var j :| 0 <= j < |p| - 1 && lo < p[j].t && p[j + 1].failed == x;
      assert p[j] == s[j] && p[j + 1] == s[j + 1];
      assert InLabelWindow(s, i, j);
    }
    if Binary(s) {
      assert Binary(p) by {
        forall j | 0 <= j < |p| ensures p[j].failed == 0.0 || p[j].failed == 1.0 {
          assert p[j] == s[j];
        }
      }
      ShiftedIndicatorsOfBinary(p, lo);
    }
  }

  /** The truncated maximum of 0/1 values is 1 exactly when a 1 is among them. */
  lemma MaxOfBinary(w: seq<real>)
    requires w != []
    requires forall k :: 0 <= k < |w| ==> w[k] == 0.0 || w[k] == 1.0
    ensures TruncateToInt(Max(w)) == (if 1.0 in w then 1 else 0)
  {
    if 1.0 in w {
      var k :| 0 <= k < |w| && w[k] == 1.0;
      assert Max(w) == 1.0;
    }
  }

  /** `will_fail`: the time-based rolling maximum of the shifted indicator,
      0 where the window holds no shifted value, truncated to an integer.
      With 0/1 indicators it is 0/1, and it is 1 exactly when some row of
      the window has a next row that failed. */
  function WillFail(s: seq<Obs>, i: nat): (y: int)
    requires i < |s|
    ensures (forall j :: !InLabelWindow(s, i, j)) ==> y == 0
    ensures Binary(s) ==> y == 0 || y == 1
    ensures Binary(s) ==>
              (y == 1 <==> exists j :: InLabelWindow(s, i, j) && s[j + 1].failed == 1.0)
  {
    var w := ShiftedIndicators(LabelRowsOf(s, i), s[i].t - FAILURE_WINDOW);
    LabelWindowMembers(s, i, w);
    if w == [] then 0
    else
      assert w[0] in w;
      if Binary(s) then
        MaxOfBinary(w);
        TruncateToInt(Max(w))
      else TruncateToInt(Max(w))
  }

  /** A row other than the last lies in its own window, so its label is at
      least the next row's (truncated) indicator. */
  lemma WillFailCoversNextRow(s: seq<Obs>, i: nat)
    requires i + 1 < |s|
    ensures WillFail(s, i) >= TruncateToInt(s[i + 1].failed)
  {
    var w := ShiftedIndicators(LabelRowsOf(s, i), s[i].t - FAILURE_WINDOW);
    LabelWindowMembers(s, i, w);
    assert InLabelWindow(s, i, i);
    var k :| 0 <= k < |w| && w[k] == s[i + 1].failed;
    assert s[i + 1].failed <= Max(w);
  }

  /** A history without failures labels every row 0. */
  lemma NoFailureMeansNoLabel(s: seq<Obs>, i: nat)
    requires i < |s|
    requires forall j :: 0 <= j < |s| ==> s[j].failed == 0.0
    ensures WillFail(s, i) == 0
  {
    assert Binary(s);
  }

  // ---------------------------------------------------------------------
  // The label the comments describe: failures in (t, t + 24h]
  // ---------------------------------------------------------------------

  /** Failure indicators of the rows timed in `(lo, hi]`. */
  function FutureIndicators(s: seq<Obs>, lo: int, hi: int): seq<real>
  {
    if s == [] then []
    else (if lo < s[0].t <= hi then [s[0].failed] else []) + FutureIndicators(s[1..], lo, hi)
  }

  lemma {:induction false} FutureIndicatorsMembers(s: seq<Obs>, lo: int, hi: int, x: real)
    ensures x in FutureIndicators(s, lo, hi) <==>
            exists k :: 0 <= k < |s| && lo < s[k].t <= hi && s[k].failed == x
  {
    if s != [] {
      var rest := s[1..];
      FutureIndicatorsMembers(rest, lo, hi, x);
      if x in FutureIndicators(rest, lo, hi) {
        var k :| 0 <= k < |rest| && lo < rest[k].t <= hi && rest[k].failed == x;
        assert s[k + 1] == rest[k];
      }
      if exists k :: 0 <= k < |s| && lo < s[k].t <= hi && s[k].failed == x {
        var k :| 0 <= k < |s| && lo < s[k].t <= hi && s[k].failed == x;
        if k > 0 {
          assert rest[k - 1] == s[k];
        }
      }
    }
  }

  lemma {:induction false} FutureIndicatorsOfBinary(s: seq<Obs>, lo: int, hi: int)
    requires Binary(s)
    ensures forall k :: 0 <= k < |FutureIndicators(s, lo, hi)| ==>
      FutureIndicators(s, lo, hi)[k] == 0.0 || FutureIndicators(s, lo, hi)[k] == 1.0
  {
    if s != [] {
      FutureIndicatorsOfBinary(s[1..], lo, hi);
    }
  }

  /** Corrected label: the maximum indicator over the rows timed after the
      row and at most 24 hours later, 0 when there are none. With 0/1
      indicators it is 0/1, and it is 1 exactly when a failure is recorded
      within the 24 hours after the row. */
  function ForwardLabel(s: seq<Obs>, i: nat): (y: int)
    requires i < |s|
    ensures Binary(s) ==> y == 0 || y == 1
    ensures Binary(s) ==>
              (y == 1 <==>
               exists k :: 0 <= k < |s| && s[i].t < s[k].t <= s[i].t + FAILURE_WINDOW && s[k].failed == 1.0)
  {
    var lo, hi := s[i].t, s[i].t + FAILURE_WINDOW;
    var w := FutureIndicators(s, lo, hi);
    FutureIndicatorsMembers(s, lo, hi, 1.0);
    if w == [] then 0
    else if Binary(s) then
      FutureIndicatorsOfBinary(s, lo, hi);
      MaxOfBinary(w);
      TruncateToInt(Max(w))
    else TruncateToInt(Max(w))
  }

  /** Hourly readings from 00:00 to 05:00 with a single failure at 05:00. */
  const HourlyExample: seq<Obs> := [
    Obs(0, 0.0, 0.0), Obs(HOUR, 0.0, 0.0), Obs(2 * HOUR, 0.0, 0.0),
    Obs(3 * HOUR, 0.0, 0.0), Obs(4 * HOUR, 0.0, 0.0), Obs(5 * HOUR, 0.0, 1.0)]

  /** The label as computed looks back, not ahead: the rows at 00:00 to 03:00,
      which precede the failure by at most five hours, are labelled 0, and
      the rows at 04:00 and 05:00 are labelled 1, although nothing is
      recorded after 05:00. The corrected label gives 1 at 00:00 to 04:00
      and 0 at 05:00. */
  lemma LabelLooksBackward()
    ensures WillFail(HourlyExample, 0) == 0 && WillFail(HourlyExample, 1) == 0
    ensures WillFail(HourlyExample, 2) == 0 && WillFail(HourlyExample, 3) == 0
    ensures WillFail(HourlyExample, 4) == 1 && WillFail(HourlyExample, 5) == 1
    ensures ForwardLabel(HourlyExample, 0) == 1 && ForwardLabel(HourlyExample, 4) == 1
    ensures ForwardLabel(HourlyExample, 5) == 0
  {
    var s := HourlyExample;
    assert Binary(s);
    assert forall j :: 1 <= j <= 4 ==> s[j].failed == 0.0;
    assert InLabelWindow(s, 4, 4) && InLabelWindow(s, 5, 4) && s[5].failed == 1.0;
    assert s[0].t < s[5].t <= s[0].t + FAILURE_WINDOW;
  }


  // ---------------------------------------------------------------------
  // Output columns and the whole pipeline
  // ---------------------------------------------------------------------

  /** Assigning a column: a new name is appended at the end, an existing
      one keeps its place. */
  function AddColumn(columns: seq<string>, name: string): (r: seq<string>)
    ensures columns <= r
    ensures |r| == |columns| + (if name in columns then 0 else 1)
    ensures forall c :: c in r <==> c in columns || c == name
  {
    if name in columns then columns else columns + [name]
  }

  /** The entries of `s` other than `x`, in their order. */
  function Without<T(==)>(s: seq<T>, x: T): seq<T>
  {
    if s == [] then [] else (if s[0] == x then [] else [s[0]]) + Without(s[1..], x)
  }

  lemma {:induction false} WithoutMembers<T>(s: seq<T>, x: T)
    ensures |Without(s, x)| <= |s|
    ensures forall c :: c in Without(s, x) <==> c in s && c != x
    ensures x !in s ==> Without(s, x) == s
  {
    if s != [] {
      WithoutMembers(s[1..], x);
      assert s == [s[0]] + s[1..];
    }
  }

  lemma {:induction false} WithoutAppend<T>(a: seq<T>, b: seq<T>, x: T)
    ensures Without(a + b, x) == Without(a, x) + Without(b, x)
  {
    if a == [] {
      assert a + b == b;
    } else {
      var ab := a + b;
      assert ab[0] == a[0] && ab[1..] == a[1..] + b;
      WithoutAppend(a[1..], b, x);
    }
  }

  /** `drop(columns=[name])`: every column called `name` goes, the rest keep
      their order. */
  function DropColumn(columns: seq<string>, name: string): (r: seq<string>)
    ensures |r| <= |columns|
    ensures forall c :: c in r <==> c in columns && c != name
    ensures name !in columns ==> r == columns
  {
    WithoutMembers(columns, name);
    Without(columns, name)
  }

  /** Dropping works column by column: on a concatenation it drops from each
      part and keeps the parts in order. */
  lemma DropColumnAppend(a: seq<string>, b: seq<string>, name: string)
    ensures DropColumn(a + b, name) == DropColumn(a, name) + DropColumn(b, name)
  {
    WithoutAppend(a, b, name);
  }

  /** With distinct labels, as pandas keeps them, dropping a present column
      removes exactly its position and leaves the others in order. */
  lemma DropColumnAt(columns: seq<string>, name: string, k: nat)
    requires k < |columns| && columns[k] == name
    requires name !in columns[..k] && name !in columns[k + 1..]
    ensures DropColumn(columns, name) == columns[..k] + columns[k + 1..]
  {
    var before, after := columns[..k], columns[k + 1..];
    var rest := [name] + after;
    assert columns == before + rest;
    DropColumnAppend(before, rest, name);
    DropColumnAppend([name], after, name);
    assert Without([name], name) == [] + Without([], name);
    assert DropColumn(rest, name) == after;
    assert DropColumn(before, name) == before;
  }

  /** The written table's columns: the input's, plus the two features and the
      label, minus the failure indicator. When the three new names are not
      already input columns, they come last, in the order they are assigned,
      after the input columns other than the indicator, in their own order. */
  function OutputColumns(columns: seq<string>): (r: seq<string>)
    ensures FAILURE_INDICATOR_COLUMN !in r
    ensures MEAN_COLUMN in r && MAX_COLUMN in r && LABEL_COLUMN in r
    ensures forall c :: c in r <==>
      (c in columns || c in {MEAN_COLUMN, MAX_COLUMN, LABEL_COLUMN}) && c != FAILURE_INDICATOR_COLUMN
    ensures MEAN_COLUMN !in columns && MAX_COLUMN !in columns && LABEL_COLUMN !in columns ==>
      r == DropColumn(columns, FAILURE_INDICATOR_COLUMN) + [MEAN_COLUMN, MAX_COLUMN, LABEL_COLUMN]
  {
    var added := AddColumn(AddColumn(AddColumn(columns, MEAN_COLUMN), MAX_COLUMN), LABEL_COLUMN);
    if MEAN_COLUMN !in columns && MAX_COLUMN !in columns && LABEL_COLUMN !in columns then
      FeatureColumnsAppended(columns);
      DropColumnAppend(columns, [MEAN_COLUMN, MAX_COLUMN, LABEL_COLUMN], FAILURE_INDICATOR_COLUMN);
      DropColumn(added, FAILURE_INDICATOR_COLUMN)
    else
      DropColumn(added, FAILURE_INDICATOR_COLUMN)
  }

  /** Three new names are appended in the order they are assigned. */
  lemma FeatureColumnsAppended(columns: seq<string>)
    requires MEAN_COLUMN !in columns && MAX_COLUMN !in columns && LABEL_COLUMN !in columns
    ensures AddColumn(AddColumn(AddColumn(columns, MEAN_COLUMN), MAX_COLUMN), LABEL_COLUMN)
         == columns + [MEAN_COLUMN, MAX_COLUMN, LABEL_COLUMN]
  {
    var a := AddColumn(columns, MEAN_COLUMN);
    assert a == columns + [MEAN_COLUMN];
    assert MAX_COLUMN !in a;
    var b := AddColumn(a, MAX_COLUMN);
    assert b == columns + [MEAN_COLUMN, MAX_COLUMN];
    assert LABEL_COLUMN !in b;
  }

  /** One written row: the input row's cells with the features and the label
      assigned and the failure indicator dropped. */
  function LabeledRow(row: RawRow, obs: seq<Obs>, i: nat): (r: RawRow)
    requires i < |obs|
    ensures r.t == row.t
    ensures r.cells.Keys == (row.cells.Keys + {MEAN_COLUMN, MAX_COLUMN, LABEL_COLUMN}) - {FAILURE_INDICATOR_COLUMN}
    ensures r.cells[MEAN_COLUMN] == RollingMean(obs, i) && r.cells[MAX_COLUMN] == RollingMax(obs, i)
    ensures r.cells[LABEL_COLUMN] == WillFail(obs, i) as real
    ensures forall c :: (c in row.cells && c != FAILURE_INDICATOR_COLUMN &&
                         c !in {MEAN_COLUMN, MAX_COLUMN, LABEL_COLUMN}) ==> r.cells[c] == row.cells[c]
  {
    RawRow(row.t, (row.cells[MEAN_COLUMN := RollingMean(obs, i)]
                            [MAX_COLUMN := RollingMax(obs, i)]
                            [LABEL_COLUMN := WillFail(obs, i) as real])
                  - {FAILURE_INDICATOR_COLUMN})
  }

  lemma LabeledRowKeys(columns: seq<string>, row: RawRow, obs: seq<Obs>, i: nat)
    requires i < |obs|
    requires row.cells.Keys == set c | c in columns
    ensures LabeledRow(row, obs, i).cells.Keys == set c | c in OutputColumns(columns)
  {
    var keys := LabeledRow(row, obs, i).cells.Keys;
    var out := OutputColumns(columns);
    forall c ensures c in keys <==> c in out {
    }
  }

  /** The labelled rows of a time-sorted table whose rows all carry the
      indicator and metric columns: one per input row, in the same order,
      each with exactly the output columns. */
  function LabelRows(columns: seq<string>, sorted: seq<RawRow>): (rows: seq<RawRow>)
    requires FAILURE_INDICATOR_COLUMN in columns && CORE_METRIC_COLUMN in columns
    requires SortedByTime(sorted)
    requires forall r :: r in sorted ==> r.cells.Keys == set c | c in columns
    ensures |rows| == |sorted|
    ensures forall i :: 0 <= i < |sorted| ==> rows[i] == LabeledRow(sorted[i], Observe(sorted), i)
    ensures SortedByTime(rows)
    ensures forall r :: r in rows ==> r.cells.Keys == set c | c in OutputColumns(columns)
  {
    var obs := Observe(sorted);
    var rows := seq(|sorted|, i requires 0 <= i < |sorted| => LabeledRow(sorted[i], obs, i));
    assert SortedByTime(rows) by {
      forall i, j | 0 <= i < j < |rows| ensures rows[i].t <= rows[j].t {
        assert rows[i].t == sorted[i].t && rows[j].t == sorted[j].t;
      }
    }
    forall r | r in rows ensures r.cells.Keys == set c | c in OutputColumns(columns) {
      var i :| 0 <= i < |rows| && rows[i] == r;
      assert sorted[i] in sorted;
      LabeledRowKeys(columns, sorted[i], obs, i);
    }
    rows
  }

  /** The whole pipeline, from the parsed table to the table that is written.
      A missing indicator or metric column aborts before anything is computed;
      otherwise there is one output row per input row, in time order, each
      the labelled row of its position (see `LabeledRow`), and every row has
      exactly the output columns. */
  function Prepare(tb: Table): (r: Result<Table, PipelineError>)
    requires WellFormed(tb)
    ensures r.Failure? <==> FAILURE_INDICATOR_COLUMN !in tb.columns || CORE_METRIC_COLUMN !in tb.columns
    ensures r.Success? ==>
      var sorted := SortTable(tb);
      && WellFormed(r.value)
      && r.value.columns == OutputColumns(tb.columns)
      && |r.value.rows| == |tb.rows|
      && SortedByTime(r.value.rows)
      && (forall i :: 0 <= i < |sorted| ==> r.value.rows[i] == LabeledRow(sorted[i], Observe(sorted), i))
  {
    var sorted := SortTable(tb);
    if FAILURE_INDICATOR_COLUMN !in tb.columns || CORE_METRIC_COLUMN !in tb.columns then
      Failure(MissingColumns([FAILURE_INDICATOR_COLUMN, CORE_METRIC_COLUMN], tb.columns))
    else
      Success(Table(OutputColumns(tb.columns), LabelRows(tb.columns, sorted)))
  }
}

/**
 * The rolling window of samples kept in memory (the package-level `data` and
 * `status` of main.go), as values: what one tick of the sampler does to them,
 * and what a run of ticks preserves.
 */
module Series {
  import opened Wrappers

  /** A float64 rate as fetched; the sampler stores and forwards it, never computes on it. */
  type Rate = real

  /** An instant, in nanoseconds. */
  type Time = int

  /** One hour in nanoseconds: the retention window. */
  const Hour: int := 3_600_000_000_000

  const Healthy: string := "All is working"
  const UsdToEurFailed: string := "Error fetching USD to EUR"
  const BtcToUsdFailed: string := "Error fetching BTC to USD"

  /** One recorded observation of both rates. */
  datatype DataPoint = DataPoint(time: Time, usdToEur: Rate, btcToUsd: Rate)

  /** The shared series and the status string, as one value. */
  datatype State = State(data: seq<DataPoint>, status: string)

  /** What a single fetch returns: a rate, or the error message it failed with. */
  type Fetched = Result<Rate, string>

  function Last(s: seq<DataPoint>): DataPoint
    requires s != []
  {
    s[|s| - 1]
  }

  predicate IsSuffix(r: seq<DataPoint>, s: seq<DataPoint>)
  {
    |r| <= |s| && r == s[|s| - |r|..]
  }

  predicate Sorted(s: seq<DataPoint>)
  {
    forall i, j :: 0 <= i < j < |s| ==> s[i].time <= s[j].time
  }

  /** No point of `s` lies strictly before `cutoff`. */
  predicate NoneBefore(s: seq<DataPoint>, cutoff: Time)
  {
    forall i :: 0 <= i < |s| ==> cutoff <= s[i].time
  }

  /** Every point of `s` is at or before `t`. */
  predicate NoneAfter(s: seq<DataPoint>, t: Time)
  {
    forall i :: 0 <= i < |s| ==> s[i].time <= t
  }

  /**
   * Drops the leading points whose time is strictly before `cutoff`, stopping at
   * the first one that is not. The result is determined by its three ensures:
   * a suffix, everything dropped was too old, and the first kept point is not.
   */
  function Evict(s: seq<DataPoint>, cutoff: Time): (r: seq<DataPoint>)
    ensures IsSuffix(r, s)
    ensures forall i :: 0 <= i < |s| - |r| ==> s[i].time < cutoff
    ensures r != [] ==> cutoff <= r[0].time
  {
    if s != [] && s[0].time < cutoff then Evict(s[1..], cutoff) else s
  }

  /** A point that is not too old at the end of the series survives eviction, and stays last. */
  lemma {:induction false} EvictKeepsLast(s: seq<DataPoint>, cutoff: Time)
    requires s != [] && cutoff <= Last(s).time
    ensures Evict(s, cutoff) != [] && Last(Evict(s, cutoff)) == Last(s)
  {
  }

  /** On a sorted series, eviction keeps it sorted and leaves nothing before the cutoff. */
  lemma {:induction false} EvictSorted(s: seq<DataPoint>, cutoff: Time)
    requires Sorted(s)
    ensures Sorted(Evict(s, cutoff)) && NoneBefore(Evict(s, cutoff), cutoff)
  {
    var r := Evict(s, cutoff);
    SuffixSorted(s, |s| - |r|);
    assert r == s[|s| - |r|..];
    forall i | 0 <= i < |r| ensures cutoff <= r[i].time {
      assert r[0].time <= r[i].time;
    }
  }

  lemma {:induction false} SuffixSorted(s: seq<DataPoint>, k: nat)
    requires Sorted(s) && k <= |s|
    ensures Sorted(s[k..])
  {
    var r := s[k..];
    forall i, j | 0 <= i < j < |r| ensures r[i].time <= r[j].time {
      assert r[i] == s[k + i] && r[j] == s[k + j];
    }
  }

  /**
   * On a sorted series eviction is exactly a filter: a point is kept if and only
   * if it was in the series and is not strictly before the cutoff (so a point
   * exactly at the cutoff is kept).
   */
  lemma {:induction false} EvictSortedIsFilter(s: seq<DataPoint>, cutoff: Time, p: DataPoint)
    requires Sorted(s)
    ensures p in Evict(s, cutoff) <==> p in s && cutoff <= p.time
  {
    EvictSorted(s, cutoff);
    if p in s && cutoff <= p.time {
      EvictKeepsRecent(s, cutoff, p);
    }
    if p in Evict(s, cutoff) {
      EvictKeepsOnlyOriginals(s, cutoff, p);
    }
  }

  /** Whatever the order, eviction never removes a point that is not too old. */
  lemma {:induction false} EvictKeepsRecent(s: seq<DataPoint>, cutoff: Time, p: DataPoint)
    requires p in s && cutoff <= p.time
    ensures p in Evict(s, cutoff)
  {
    var r := Evict(s, cutoff);
    var k := |s| - |r|;
    var i :| 0 <= i < |s| && s[i] == p;
    if k <= i {
      assert r[i - k] == s[i];
    }
  }

  lemma {:induction false} EvictKeepsOnlyOriginals(s: seq<DataPoint>, cutoff: Time, p: DataPoint)
    requires p in Evict(s, cutoff)
    ensures p in s
  {
    var r := Evict(s, cutoff);
    var k := |s| - |r|;
    var i :| 0 <= i < |r| && r[i] == p;
    assert s[k + i] == p;
  }

  /** Appending a point no older than the series keeps it sorted. */
  lemma {:induction false} AppendSorted(s: seq<DataPoint>, p: DataPoint)
    requires Sorted(s) && NoneAfter(s, p.time)
    ensures Sorted(s + [p])
  {
    var t := s + [p];
    forall i, j | 0 <= i < j < |t| ensures t[i].time <= t[j].time {
      if j < |s| {
        assert t[i] == s[i] && t[j] == s[j];
      } else {
        assert t[i] == s[i];
      }
    }
  }

  /**
   * One tick of the sampler, given the tick-start time and the two fetch
   * outcomes. The USD to EUR outcome is looked at first; when it failed, the
   * BTC to USD outcome plays no part. A failure changes only the status; success
   * appends a point stamped with the tick-start time, evicts what is more than
   * an hour older than that time, and resets the status.
   */
  function Tick(st: State, now: Time, usdToEur: Fetched, btcToUsd: Fetched): (r: State)
    ensures usdToEur.Failure? ==> r == State(st.data, UsdToEurFailed)
    ensures usdToEur.Success? && btcToUsd.Failure? ==> r == State(st.data, BtcToUsdFailed)
    ensures usdToEur.Success? && btcToUsd.Success? ==>
      && r.status == Healthy
      && r.data != []
      && Last(r.data) == DataPoint(now, usdToEur.value, btcToUsd.value)
      && IsSuffix(r.data, st.data + [DataPoint(now, usdToEur.value, btcToUsd.value)])
  {
    match usdToEur
    case Failure(_) => State(st.data, UsdToEurFailed)
    case Success(u) =>
      match btcToUsd
      case Failure(_) => State(st.data, BtcToUsdFailed)
      case Success(b) =>
        var series := st.data + [DataPoint(now, u, b)];
        EvictKeepsLast(series, now - Hour);
        State(Evict(series, now - Hour), Healthy)
  }

  /**
   * When the old series is sorted and no later than the tick, a successful tick
   * leaves it sorted with nothing more than an hour older than the tick.
   */
  lemma {:induction false} TickSortedWindow(st: State, now: Time, u: Rate, b: Rate)
    requires Sorted(st.data) && NoneAfter(st.data, now)
    ensures Sorted(Tick(st, now, Success(u), Success(b)).data)
    ensures NoneBefore(Tick(st, now, Success(u), Success(b)).data, now - Hour)
  {
    var series := st.data + [DataPoint(now, u, b)];
    AppendSorted(st.data, DataPoint(now, u, b));
    EvictSorted(series, now - Hour);
  }

  /**
   * Under the same conditions, a successful tick retains exactly the points of
   * the old series plus the new one whose time is not before `now - Hour`.
   */
  lemma {:induction false} TickRetainsRecent(st: State, now: Time, u: Rate, b: Rate, p: DataPoint)
    requires Sorted(st.data) && NoneAfter(st.data, now)
    ensures p in Tick(st, now, Success(u), Success(b)).data
            <==> (p in st.data || p == DataPoint(now, u, b)) && now - Hour <= p.time
  {
    var series := st.data + [DataPoint(now, u, b)];
    AppendSorted(st.data, DataPoint(now, u, b));
    EvictSortedIsFilter(series, now - Hour, p);
  }

  /** The inputs of one tick. */
  datatype TickInput = TickInput(now: Time, usdToEur: Fetched, btcToUsd: Fetched)

  /** The state after a run of ticks, in order. */
  function Run(st: State, ticks: seq<TickInput>): State
    decreases |ticks|
  {
    if ticks == [] then st
    else Run(Tick(st, ticks[0].now, ticks[0].usdToEur, ticks[0].btcToUsd), ticks[1..])
  }

  /**
   * The series invariant: sorted by time, and no point more than an hour older
   * than the newest one.
   */
  predicate WellFormed(st: State)
  {
    Sorted(st.data) && (st.data != [] ==> NoneBefore(st.data, Last(st.data).time - Hour))
  }

  /** The state the process starts in. */
  function Initial(): (st: State)
    ensures WellFormed(st) && st.data == [] && st.status == Healthy
  {
    State([], Healthy)
  }

  predicate Chronological(ticks: seq<TickInput>)
  {
    forall i, j :: 0 <= i < j < |ticks| ==> ticks[i].now <= ticks[j].now
  }

  /**
   * Ticks whose clock never runs backwards, starting no earlier than every
   * stored point, keep the series invariant whatever each fetch returns.
   */
  lemma {:induction false} RunKeepsWellFormed(st: State, ticks: seq<TickInput>)
    requires WellFormed(st) && Chronological(ticks)
    requires ticks != [] ==> NoneAfter(st.data, ticks[0].now)
    ensures WellFormed(Run(st, ticks))
    decreases |ticks|
  {
    if ticks != [] {
      var t := ticks[0];
      var later := if |ticks| > 1 then ticks[1].now else t.now;
      TickKeepsWellFormed(st, t, later);
      assert ticks[1..] != [] ==> ticks[1..][0].now == later;
      RunKeepsWellFormed(Tick(st, t.now, t.usdToEur, t.btcToUsd), ticks[1..]);
    }
  }

  /** One tick keeps the series invariant, and leaves no point after its own time. */
  lemma {:induction false} TickKeepsWellFormed(st: State, t: TickInput, later: Time)
    requires WellFormed(st) && NoneAfter(st.data, t.now) && t.now <= later
    ensures WellFormed(Tick(st, t.now, t.usdToEur, t.btcToUsd))
    ensures NoneAfter(Tick(st, t.now, t.usdToEur, t.btcToUsd).data, later)
  {
    var next := Tick(st, t.now, t.usdToEur, t.btcToUsd);
    if t.usdToEur.Success? && t.btcToUsd.Success? {
      TickSortedWindow(st, t.now, t.usdToEur.value, t.btcToUsd.value);
      forall i | 0 <= i < |next.data| ensures next.data[i].time <= later {
        assert next.data[i].time <= next.data[|next.data| - 1].time;
      }
    } else {
      assert next.data == st.data;
    }
  }

  /** The number of ticks in which both fetches succeeded. */
  function Successes(ticks: seq<TickInput>): nat
  {
    if ticks == [] then 0
    else (if ticks[0].usdToEur.Success? && ticks[0].btcToUsd.Success? then 1 else 0) + Successes(ticks[1..])
  }

  /** A run of ticks grows the series by at most one point per successful tick; failed ticks add none. */
  lemma {:induction false} RunGrowsAtMostOnePerSuccess(st: State, ticks: seq<TickInput>)
    ensures |Run(st, ticks).data| <= |st.data| + Successes(ticks)
    decreases |ticks|
  {
    if ticks != [] {
      var t := ticks[0];
      RunGrowsAtMostOnePerSuccess(Tick(st, t.now, t.usdToEur, t.btcToUsd), ticks[1..]);
    }
  }
}

/**
 * The read view the two HTTP handlers build from the series: three aligned
 * series and the latest values formatted for display.
 */
module View {
  import opened Wrappers
  import opened Series

  /**
   * The formatting the handlers apply, left uninterpreted: RFC 3339 for times,
   * six decimals for the USD to EUR rate, four for the BTC to USD rate.
   */
  datatype Formats = Formats(time: Time -> string, usdToEur: Rate -> string, btcToUsd: Rate -> string)

  datatype View = View(
    times: seq<string>,
    usdToEur: seq<Rate>,
    btcToUsd: seq<Rate>,
    currentUsdToEur: string,
    currentBtcToUsd: string,
    status: string)

  /**
   * The view of a state: index i of every series describes data[i]; the
   * current values are those of the last point, or empty when there is none;
   * the status is passed through.
   */
  function ViewOf(st: State, fmt: Formats): (v: View)
    ensures |v.times| == |v.usdToEur| == |v.btcToUsd| == |st.data|
    ensures forall i :: 0 <= i < |st.data| ==>
      && v.times[i] == fmt.time(st.data[i].time)
      && v.usdToEur[i] == st.data[i].usdToEur
      && v.btcToUsd[i] == st.data[i].btcToUsd
    ensures st.data == [] ==> v.currentUsdToEur == "" && v.currentBtcToUsd == ""
    ensures st.data != [] ==>
      && v.currentUsdToEur == fmt.usdToEur(Last(st.data).usdToEur)
      && v.currentBtcToUsd == fmt.btcToUsd(Last(st.data).btcToUsd)
    ensures v.status == st.status
  {
    var d := st.data;
    View(
      seq(|d|, i requires 0 <= i < |d| => fmt.time(d[i].time)),
      seq(|d|, i requires 0 <= i < |d| => d[i].usdToEur),
      seq(|d|, i requires 0 <= i < |d| => d[i].btcToUsd),
      if d == [] then "" else fmt.usdToEur(Last(d).usdToEur),
      if d == [] then "" else fmt.btcToUsd(Last(d).btcToUsd),
      st.status)
  }

  /**
   * After a successful tick the view shows the rates just fetched as current,
   * the tick's time as the last label, and a healthy status.
   */
  lemma ViewAfterSuccess(st: State, now: Time, u: Rate, b: Rate, fmt: Formats)
    ensures var v := ViewOf(Tick(st, now, Success(u), Success(b)), fmt);
      && v.times != []
      && v.times[|v.times| - 1] == fmt.time(now)
      && v.currentUsdToEur == fmt.usdToEur(u)
      && v.currentBtcToUsd == fmt.btcToUsd(b)
      && v.status == Healthy
  {
  }

  /**
   * After a failed tick the readers keep seeing the last known-good series and
   * current values; only the status differs.
   */
  lemma ViewAfterFailure(st: State, now: Time, usdToEur: Fetched, btcToUsd: Fetched, fmt: Formats)
    requires usdToEur.Failure? || btcToUsd.Failure?
    ensures var v := ViewOf(Tick(st, now, usdToEur, btcToUsd), fmt);
      var w := ViewOf(st, fmt);
      && v.times == w.times && v.usdToEur == w.usdToEur && v.btcToUsd == w.btcToUsd
      && v.currentUsdToEur == w.currentUsdToEur && v.currentBtcToUsd == w.currentBtcToUsd
      && v.status == (if usdToEur.Failure? then UsdToEurFailed else BtcToUsdFailed)
  {
  }
}

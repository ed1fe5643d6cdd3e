/**
 * The shared sample store: the series and the status string that the sampler
 * writes once per tick and the handlers read. Each method is one critical
 * section of main.go, taken as atomic.
 */
module Store {
  import opened Series
  import opened View

  class SampleStore {
    var data: seq<DataPoint>
    var status: string

    /** The process starts with an empty series and a healthy status. */
    constructor ()
      ensures data == [] && status == Healthy
      ensures State(data, status) == Initial()
    {
      data := [];
      status := Healthy;
    }

    /**
     * One tick, with `now` read when the tick starts and the two fetch outcomes
     * as inputs. `btcRequested` tells whether the BTC to USD fetch was made:
     * it is skipped once the USD to EUR fetch has failed.
     */
    method FetchData(now: Time, usdToEur: Fetched, btcToUsd: Fetched) returns (btcRequested: bool)
      modifies this
      ensures btcRequested <==> usdToEur.Success?
      ensures State(data, status) == Tick(old(State(data, status)), now, usdToEur, btcToUsd)
    {
      if usdToEur.Failure? {
        status := UsdToEurFailed;
        return false;
      }
      btcRequested := true;
      if btcToUsd.Failure? {
        status := BtcToUsdFailed;
        return;
      }
      var series := data + [DataPoint(now, usdToEur.value, btcToUsd.value)];
      var cutoff := now - Hour;
      var i := 0;
      while i < |series| && series[i].time < cutoff
        invariant 0 <= i <= |series|
        invariant Evict(series[i..], cutoff) == Evict(series, cutoff)
      {
        assert series[i..][1..] == series[i + 1..];
        i := i + 1;
      }
      data := series[i..];
      status := Healthy;
    }

    /** The view the handlers serve, built by one pass over the series. */
    method BuildView(fmt: Formats) returns (v: View)
      ensures v == ViewOf(State(data, status), fmt)
    {
      var times: seq<string> := [];
      var usdToEur: seq<Rate> := [];
      var btcToUsd: seq<Rate> := [];
      for k := 0 to |data|
        invariant |times| == |usdToEur| == |btcToUsd| == k
        invariant forall j :: 0 <= j < k ==>
          && times[j] == fmt.time(data[j].time)
          && usdToEur[j] == data[j].usdToEur
          && btcToUsd[j] == data[j].btcToUsd
      {
        times := times + [fmt.time(data[k].time)];
        usdToEur := usdToEur + [data[k].usdToEur];
        btcToUsd := btcToUsd + [data[k].btcToUsd];
      }
      var currentUsdToEur, currentBtcToUsd := "", "";
      if |data| > 0 {
        var last := data[|data| - 1];
        currentUsdToEur := fmt.usdToEur(last.usdToEur);
        currentBtcToUsd := fmt.btcToUsd(last.btcToUsd);
      }
      v := View(times, usdToEur, btcToUsd, currentUsdToEur, currentBtcToUsd, status);
    }
  }
}

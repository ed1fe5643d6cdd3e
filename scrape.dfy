/**
 * Assembling the USD to EUR rate string from the scraped result spans. Each
 * span is given as its already-trimmed main text and trailing-digits text.
 */
module Scrape {
  import opened Wrappers

  datatype Span = Span(main: string, trail: string)

  const RateNotFound: string := "USD to EUR rate not found"

  /** A span that contributes nothing: both of its parts are empty. */
  predicate Blank(s: Span)
  {
    s.main == "" && s.trail == ""
  }

  /** The string a non-blank span yields: the main part alone when there is no trail. */
  function Joined(s: Span): (r: string)
    ensures r == s.main + s.trail
    ensures r == "" <==> Blank(s)
  {
    if s.trail == "" then s.main else s.main + s.trail
  }

  /** The string of the first non-blank span, or "" when every span is blank. */
  function FirstRate(spans: seq<Span>): (r: string)
    ensures r == "" <==> forall k :: 0 <= k < |spans| ==> Blank(spans[k])
  {
    if spans == [] then ""
    else if Blank(spans[0]) then FirstRate(spans[1..])
    else Joined(spans[0])
  }

  /** The first non-blank span wins; the spans after it play no part. */
  lemma {:induction false} FirstRateIsFirstNonBlank(spans: seq<Span>, k: nat)
    requires k < |spans| && !Blank(spans[k])
    requires forall j :: 0 <= j < k ==> Blank(spans[j])
    ensures FirstRate(spans) == spans[k].main + spans[k].trail
  {
    if k > 0 {
      assert Blank(spans[0]);
      FirstRateIsFirstNonBlank(spans[1..], k - 1);
    }
  }

  /**
   * The selection loop: visit the spans in order, skip blank ones, take the
   * first other one and stop.
   */
  method SelectRate(spans: seq<Span>) returns (rateStr: string)
    ensures rateStr == FirstRate(spans)
  {
    rateStr := "";
    var i := 0;
    while i < |spans|
      invariant 0 <= i <= |spans|
      invariant rateStr == ""
      invariant FirstRate(spans[i..]) == FirstRate(spans)
    {
      var s := spans[i];
      assert spans[i..][1..] == spans[i + 1..];
      if s.main == "" && s.trail == "" {
        i := i + 1;
        continue;
      }
      if s.trail == "" {
        rateStr := s.main;
      } else {
        rateStr := s.main + s.trail;
      }
      return;
    }
  }

  /** Removes every comma, keeping the other characters in order. */
  function StripCommas(s: string): (r: string)
    ensures ',' !in r
    ensures |r| <= |s|
    ensures forall c :: c != ',' ==> multiset(r)[c] == multiset(s)[c]
    ensures ',' !in s ==> r == s
  {
    if s == [] then ""
    else
      assert s == [s[0]] + s[1..];
      if s[0] == ',' then StripCommas(s[1..]) else [s[0]] + StripCommas(s[1..])
  }

  /** Stripping commas twice changes nothing the first stripping did not. */
  lemma StripCommasIdempotent(s: string)
    ensures StripCommas(StripCommas(s)) == StripCommas(s)
  {
  }

  /** Stripping distributes over concatenation, so a joined span strips part by part. */
  lemma {:induction false} StripCommasAppend(a: string, b: string)
    ensures StripCommas(a + b) == StripCommas(a) + StripCommas(b)
  {
    if a == [] {
      assert a + b == b;
    } else {
      assert (a + b)[0] == a[0];
      assert (a + b)[1..] == a[1..] + b;
      StripCommasAppend(a[1..], b);
    }
  }

  /**
   * The rate string as the scraper hands it to the float parser: "rate not
   * found" when every span is blank, otherwise the selected string without
   * commas.
   */
  method FetchRateString(spans: seq<Span>) returns (r: Result<string, string>)
    ensures r.Failure? <==> forall k :: 0 <= k < |spans| ==> Blank(spans[k])
    ensures r.Failure? ==> r.error == RateNotFound
    ensures r.Success? ==> ',' !in r.value && r.value == StripCommas(FirstRate(spans))
  {
    var rateStr := SelectRate(spans);
    if rateStr == "" {
      return Failure(RateNotFound);
    }
    rateStr := StripCommas(rateStr);
    return Success(rateStr);
  }
}

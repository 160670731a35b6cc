/** Concrete runs of the determination on a request carrying the cookies
    `sid`, `theme` and `lang`, where only `sid` identifies the session. */
module Scenarios {
  import opened Requests
  import opened DetermineSessionCookie

  const Sid := Parameter("sid", "a1", Cookie)
  const Theme := Parameter("theme", "dark", Cookie)
  const Lang := Parameter("lang", "en", Cookie)
  const Page := Parameter("page", "7", Url)

  /** A request with one query parameter and three cookies. */
  function Sample(): Request
  {
    [Page, Sid, Theme, Lang]
  }

  /** A server whose response is nearly the original whenever `sid` is sent
      and an error page otherwise; the baseline scores `baseline`. */
  function SessionServer(baseline: real): Oracle
  {
    (k: nat, r: Request) => if k == 0 then baseline else if Sid in r then 0.9 else 0.1
  }

  /** A stable server and no cancellation: the run makes all five requests
      and finds that only `sid` is needed. */
  method SessionCookieFound() returns (outcome: Outcome, made: nat)
    ensures outcome == Done([Sid]) && made == 5
  {
    var issued, progress, maximum, threshold;
    outcome, issued, made, progress, maximum, threshold := Run(Sample(), SessionServer(0.95), c => false);
    SampleProbes();
    SampleMinimal();
  }

  /** The sample's cookie list, and the no-cookie request that loses `sid`. */
  lemma SampleProbes()
    ensures CookiesOf(Sample()) == [Sid, Theme, Lang]
    ensures NoCookies(Sample()) == [Page] && Sid !in NoCookies(Sample())
  {
    assert CookiesOf(Sample()) == [Sid, Theme, Lang];
    assert NamesOf([Sid, Theme, Lang]) == {"sid", "theme", "lang"};
  }

  /** The requests the pass over the sample submits, and what it keeps. */
  lemma SampleStrips()
    ensures Strip(Sample(), {"sid"}) == [Page, Theme, Lang]
    ensures Strip(Sample(), {"theme"}) == [Page, Sid, Lang]
    ensures Strip(Sample(), {"theme", "lang"}) == [Page, Sid]
    ensures Strip([Sid, Theme, Lang], {"theme", "lang"}) == [Sid]
  {
  }

  /** Against the session server, the pass drops `theme` and `lang` and keeps
      `sid`, whose removal alone breaks the response. */
  lemma SampleMinimal()
    ensures Minimal(PassOf(Sample(), SessionServer(0.95), 0.76)) == [Sid]
  {
    SampleProbes();
    SampleStrips();
    var p := PassOf(Sample(), SessionServer(0.95), 0.76);
    GoneStep(p, 0);
    assert {} + {"sid"} == {"sid"};
    assert !Committed(p, 0);
    GoneStep(p, 1);
    assert {} + {"theme"} == {"theme"};
    assert Committed(p, 1);
    GoneStep(p, 2);
    assert {"theme"} + {"lang"} == {"theme", "lang"};
    assert Committed(p, 2);
  }

  /** A baseline that scores below the stability floor ends the run after the
      first request. */
  method UnstableBaseline() returns (outcome: Outcome, made: nat)
    ensures outcome == Unstable && made == 0
  {
    var issued, progress, maximum, threshold;
    outcome, issued, made, progress, maximum, threshold := Run(Sample(), SessionServer(0.5), c => false);
  }

  /** A cancel raised during the baseline request is seen at the first
      checkpoint: one request was sent and none is counted. */
  method CancelledAfterBaseline() returns (outcome: Outcome, issued: seq<Request>, made: nat)
    ensures outcome == Cancelled && issued == [Sample()] && made == 0
  {
    var progress, maximum, threshold;
    outcome, issued, made, progress, maximum, threshold := Run(Sample(), SessionServer(0.95), c => true);
  }
}

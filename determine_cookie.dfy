/** The session-cookie determination run: resubmit a captured request to check
    that its response is stable, check that the response depends on cookies at
    all, then drop the cookies one at a time, in request order, keeping each
    removal only while the response stays similar enough to the original.

    Submitting a request and scoring its response against the original one is
    an oracle `sim`, indexed by the number of the request in the run (0 is the
    baseline, 1 the no-cookie request, 2 + i the i-th elimination request), so
    the server may answer the same request differently each time. The user's
    cancel flag is an input `cancelled`, indexed by checkpoint: 0 after the
    baseline, 1 after the no-cookie request, 2 + i before the i-th elimination
    request; the index of a checkpoint is the number of requests counted as
    made when it is reached. */
module DetermineSessionCookie {
  import opened Requests

  /** Similarity of the response to the k-th request of a run to the original
      response (1.0 means identical bodies). */
  type Oracle = (nat, Request) -> real

  datatype Outcome =
    | Unstable                          // the baseline response differs too much
    | NotGated                          // the response does not depend on cookies
    | Cancelled                         // the user stopped the run
    | Done(required: seq<Parameter>)    // the cookies the response needs

  /** Below this baseline similarity the request is not reproducible enough. */
  const StabilityFloor: real := 0.6
  /** The baseline similarity is scaled by this to tolerate jitter. */
  const Damping: real := 0.8

  /** The budget announced before a run and used as its progress maximum. */
  function RequestsNeeded(req: Request): nat
  {
    |CookiesOf(req)| + 2
  }

  /** What one elimination pass works with: the request, its cookies in the
      order they are visited, the similarity oracle and the run's threshold. */
  datatype Pass = Pass(req: Request, cookies: seq<Parameter>, sim: Oracle, threshold: real)

  /** The pass a run over `req` makes once its threshold is fixed. */
  function PassOf(req: Request, sim: Oracle, threshold: real): Pass
  {
    Pass(req, CookiesOf(req), sim, threshold)
  }

  /** The names of the cookies whose removal the pass has committed after its
      first `i` steps. */
  function GoneAfter(p: Pass, i: nat): set<string>
    requires i <= |p.cookies|
  {
    if i == 0 then {}
    else
      var before := GoneAfter(p, i - 1);
      var candidate := before + {p.cookies[i - 1].name};
      if p.sim(i + 1, Strip(p.req, candidate)) > p.threshold then candidate else before
  }

  /** The request submitted at step `i`: the working request so far, without
      the i-th cookie. */
  function Candidate(p: Pass, i: nat): Request
    requires i < |p.cookies|
  {
    Strip(p.req, GoneAfter(p, i) + {p.cookies[i].name})
  }

  /** Step `i` commits its removal: the candidate still scores above the threshold. */
  predicate Committed(p: Pass, i: nat)
    requires i < |p.cookies|
  {
    p.sim(i + 2, Candidate(p, i)) > p.threshold
  }

  /** The requests the pass submits in its first `n` steps, in order. */
  function Planned(p: Pass, n: nat): seq<Request>
    requires n <= |p.cookies|
  {
    if n == 0 then [] else Planned(p, n - 1) + [Candidate(p, n - 1)]
  }

  /** The cookies left after the whole pass. */
  function Minimal(p: Pass): seq<Parameter>
  {
    Strip(p.cookies, GoneAfter(p, |p.cookies|))
  }

  /** One step of the pass adds the tested cookie's name exactly when it commits. */
  lemma GoneStep(p: Pass, i: nat)
    requires i < |p.cookies|
    ensures GoneAfter(p, i + 1) ==
            if Committed(p, i) then GoneAfter(p, i) + {p.cookies[i].name} else GoneAfter(p, i)
  {
  }

  /** Once removed, a cookie stays removed: the pass never reinstates one. */
  lemma {:induction false} GoneGrows(p: Pass, i: nat, j: nat)
    requires i <= j <= |p.cookies|
    ensures GoneAfter(p, i) <= GoneAfter(p, j)
    decreases j - i
  {
    if i < j {
      GoneGrows(p, i, j - 1);
      GoneStep(p, j - 1);
    }
  }

  /** A removed name was removed by some step that tested a cookie of that
      name and committed. */
  lemma {:induction false} RemovedByCommit(p: Pass, n: nat, name: string)
    requires n <= |p.cookies|
    requires name in GoneAfter(p, n)
    ensures exists i :: 0 <= i < n && p.cookies[i].name == name && Committed(p, i)
  {
    GoneStep(p, n - 1);
    if name in GoneAfter(p, n - 1) {
      RemovedByCommit(p, n - 1, name);
    } else {
      assert p.cookies[n - 1].name == name && Committed(p, n - 1);
    }
  }

  /** A cookie's name is removed after `n` steps exactly when some step up to
      there, testing a cookie of that name, committed its removal. */
  lemma {:induction false} RemovedIffCommitted(p: Pass, n: nat, name: string)
    requires n <= |p.cookies|
    ensures name in GoneAfter(p, n) <==>
            exists i :: 0 <= i < n && p.cookies[i].name == name && Committed(p, i)
  {
    if name in GoneAfter(p, n) {
      RemovedByCommit(p, n, name);
    }
    forall i | 0 <= i < n && p.cookies[i].name == name && Committed(p, i)
      ensures name in GoneAfter(p, n)
    {
      GoneStep(p, i);
      GoneGrows(p, i + 1, n);
    }
  }

  /** A cookie survives the pass exactly when it is one of the visited cookies
      and every step testing a cookie of its name failed the threshold. */
  lemma KeptIffAllFailed(p: Pass, c: Parameter)
    requires forall i :: 0 <= i < |p.cookies| ==> p.cookies[i].kind == Cookie
    ensures c in Minimal(p) <==>
            c in p.cookies &&
            forall i :: 0 <= i < |p.cookies| && p.cookies[i].name == c.name ==> !Committed(p, i)
  {
    RemovedIffCommitted(p, |p.cookies|, c.name);
    StripMembers(p.cookies, GoneAfter(p, |p.cookies|));
    if c in p.cookies {
      var i :| 0 <= i < |p.cookies| && p.cookies[i] == c;
    }
  }

  /** Step `j` is the last of the first `n` steps that committed. */
  predicate LastCommit(p: Pass, n: nat, j: nat)
    requires n <= |p.cookies|
  {
    j < n && Committed(p, j) && forall k :: j < k < n ==> !Committed(p, k)
  }

  /** When the pass removed anything, the request it ends with was itself
      submitted, by the last step that committed, and scored above the threshold. */
  lemma {:induction false} LastCommitObserved(p: Pass, n: nat)
    requires n <= |p.cookies|
    ensures GoneAfter(p, n) == {} ||
            exists j :: LastCommit(p, n, j) && Strip(p.req, GoneAfter(p, n)) == Candidate(p, j)
  {
    if n > 0 {
      GoneStep(p, n - 1);
      if Committed(p, n - 1) {
        assert LastCommit(p, n, n - 1);
        assert Strip(p.req, GoneAfter(p, n)) == Candidate(p, n - 1);
      } else {
        LastCommitObserved(p, n - 1);
        if GoneAfter(p, n - 1) != {} {
          var j :| LastCommit(p, n - 1, j) && Strip(p.req, GoneAfter(p, n - 1)) == Candidate(p, j);
          assert LastCommit(p, n, j);
        }
      }
    }
  }

  /** The k-th planned request is the k-th step's candidate. */
  lemma {:induction false} PlannedAt(p: Pass, n: nat, k: nat)
    requires k < n <= |p.cookies|
    ensures |Planned(p, n)| == n && Planned(p, n)[k] == Candidate(p, k)
  {
    if k < n - 1 {
      PlannedAt(p, n - 1, k);
    } else {
      PlannedLength(p, n - 1);
    }
  }

  lemma {:induction false} PlannedLength(p: Pass, n: nat)
    requires n <= |p.cookies|
    ensures |Planned(p, n)| == n
  {
    if n > 0 {
      PlannedLength(p, n - 1);
    }
  }

  /** One elimination step, applied to the working request the previous steps
      left, submits the step's candidate and leaves the working request of the
      next step. */
  lemma StepInvariant(p: Pass, i: nat, working: Request)
    requires i < |p.cookies| && p.cookies[i].kind == Cookie
    requires working == Strip(p.req, GoneAfter(p, i))
    ensures Remove(working, p.cookies[i]) == Candidate(p, i)
    ensures Strip(p.req, GoneAfter(p, i + 1)) ==
            if p.sim(i + 2, Candidate(p, i)) > p.threshold then Candidate(p, i) else working
  {
    RemoveCookieIsStrip(working, p.cookies[i]);
    StripStrip(p.req, GoneAfter(p, i), {p.cookies[i].name});
    GoneStep(p, i);
  }

  /** The cookies still in the request a whole pass ends with are the pass's
      result, in request order. */
  lemma FinalCookies(p: Pass)
    requires p.cookies == CookiesOf(p.req)
    ensures CookiesOf(Strip(p.req, GoneAfter(p, |p.cookies|))) == Minimal(p)
    ensures Subsequence(Minimal(p), p.cookies)
  {
    CookiesOfStrip(p.req, GoneAfter(p, |p.cookies|));
    StripSubsequence(p.cookies, GoneAfter(p, |p.cookies|));
  }

  /** No cancellation was seen at the checkpoints from `lo` up to `hi`. */
  predicate Uncancelled(cancelled: nat -> bool, lo: nat, hi: nat)
    decreases hi
  {
    hi <= lo || (!cancelled(hi - 1) && Uncancelled(cancelled, lo, hi - 1))
  }

  /** The checkpoints from `lo` up to `hi` are all clear exactly when none of
      them is set. */
  lemma {:induction false} UncancelledMeans(cancelled: nat -> bool, lo: nat, hi: nat)
    ensures Uncancelled(cancelled, lo, hi) <==> forall c :: lo <= c < hi ==> !cancelled(c)
    decreases hi
  {
    if lo < hi {
      UncancelledMeans(cancelled, lo, hi - 1);
    }
  }

  /** The elimination stage: for each cookie in order, unless the user
      cancelled, submit the working request without it and keep the removal
      when the response still scores above the threshold. `made` counts one
      more request per completed step. */
  method Eliminate(p: Pass, cancelled: nat -> bool, made0: nat)
    returns (finished: bool, working: Request, submitted: seq<Request>, made: nat)
    requires forall i :: 0 <= i < |p.cookies| ==> p.cookies[i].kind == Cookie
    requires Uncancelled(cancelled, 0, 2)
    ensures |submitted| <= |p.cookies| && made == made0 + |submitted|
    ensures submitted == Planned(p, |submitted|)
    ensures Uncancelled(cancelled, 0, |submitted| + 2)
    ensures finished <==> |submitted| == |p.cookies|
    ensures !finished ==> cancelled(|submitted| + 2)
    ensures finished ==> working == Strip(p.req, GoneAfter(p, |p.cookies|))
  {
    working := p.req;
    submitted := [];
    made := made0;
    StripNone(p.req);
    for i := 0 to |p.cookies|
      invariant made == made0 + i && |submitted| == i
      invariant submitted == Planned(p, i)
      invariant working == Strip(p.req, GoneAfter(p, i))
      invariant Uncancelled(cancelled, 0, i + 2)
    {
      if cancelled(i + 2) {
        finished := false;
        return;
      }
      StepInvariant(p, i, working);
      var candidate := Remove(working, p.cookies[i]);
      submitted := submitted + [candidate];
      var ratio := p.sim(i + 2, candidate);
      if ratio > p.threshold {
        working := candidate;
      }
      made := made + 1;
    }
    finished := true;
  }

  /** One run of the determination, as the worker thread performs it. Returns
      the outcome, the requests submitted in order, the number of requests
      counted as made, the final progress value and maximum, and the threshold. */
  method Run(req: Request, sim: Oracle, cancelled: nat -> bool)
    returns (outcome: Outcome, issued: seq<Request>, made: nat, progress: nat, maximum: nat, threshold: real)
    ensures maximum == RequestsNeeded(req)
    // the requests submitted are a prefix of the planned ones, in order
    ensures 1 <= |issued| <= maximum && made <= maximum
    ensures issued[0] == req
    ensures |issued| >= 2 ==> issued[1] == NoCookies(req)
    ensures forall k :: 2 <= k < |issued| ==> issued[k] == Candidate(PassOf(req, sim, threshold), k - 2)
    // an unstable baseline stops the run after one request
    ensures outcome.Unstable? <==> sim(0, req) < StabilityFloor
    ensures outcome.Unstable? ==> threshold == sim(0, req) && |issued| == 1 && made == 0 && progress == maximum
    // otherwise the threshold is the damped baseline similarity, fixed for the run
    ensures !outcome.Unstable? ==> threshold == sim(0, req) * Damping && threshold >= 0.48
    // a response that survives losing all cookies stops the run after two requests
    ensures outcome.NotGated? ==>
              !cancelled(0) && sim(1, NoCookies(req)) > threshold &&
              |issued| == 2 && made == 1 && progress == maximum
    // cancellation is seen at the first checkpoint where it is set; nothing follows it
    ensures outcome.Cancelled? ==>
              cancelled(made) && Uncancelled(cancelled, 0, made) &&
              made < maximum && progress == made &&
              |issued| == (if made < 2 then made + 1 else made)
    ensures (outcome.Cancelled? && made >= 1) || outcome.Done? ==> sim(1, NoCookies(req)) <= threshold
    // a finished run made every request of its budget and reports the greedy pass's result
    ensures outcome.Done? ==>
              Uncancelled(cancelled, 0, maximum) &&
              |issued| == maximum && made == maximum && progress == maximum &&
              outcome.required == Minimal(PassOf(req, sim, threshold)) &&
              Subsequence(outcome.required, CookiesOf(req))
  {
    var cookies := CookiesOf(req);
    maximum := |cookies| + 2;
    made := 0;
    progress := made;

    // baseline: the unmodified request must give nearly the same response
    issued := [req];
    threshold := sim(0, req);
    if threshold < StabilityFloor {
      progress := maximum;
      outcome := Unstable;
      return;
    }
    threshold := threshold * Damping;
    if cancelled(0) {
      outcome := Cancelled;
      return;
    }
    made := made + 1;
    progress := made;

    // no-cookie request: without any cookie the response must change
    var noCookie := RemoveEach(req, cookies);
    issued := issued + [noCookie];
    var noCookieRatio := sim(1, noCookie);
    if noCookieRatio > threshold {
      progress := maximum;
      outcome := NotGated;
      return;
    }
    if cancelled(1) {
      outcome := Cancelled;
      return;
    }
    made := made + 1;
    progress := made;

    // elimination: drop each cookie in turn while the response stays similar
    var pass := PassOf(req, sim, threshold);
    assert Uncancelled(cancelled, 0, 2);
    var finished, working, submitted;
    finished, working, submitted, made := Eliminate(pass, cancelled, made);
    issued := issued + submitted;
    assert issued[2..] == submitted;
    forall k | 2 <= k < |issued|
      ensures issued[k] == Candidate(pass, k - 2)
    {
      assert issued[k] == issued[2..][k - 2];
      PlannedAt(pass, |submitted|, k - 2);
    }
    progress := made;
    if !finished {
      outcome := Cancelled;
      return;
    }

    // the cookies still present in the working request are the required ones
    FinalCookies(pass);
    outcome := Done(CookiesOf(working));
  }
}

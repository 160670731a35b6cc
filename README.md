# Determine Session Cookie — a Dafny model

This Burp Suite extension finds which cookies of a captured HTTP request keep
a session alive. A worker thread runs the determination in three stages:

1. It resends the original request. If the response is less than 0.6 similar
   to the original response, the request is not stable enough and the run
   stops. Otherwise the similarity, multiplied by 0.8, becomes the threshold.
2. It sends the request with every cookie removed. If that response still
   scores above the threshold, the response does not depend on cookies and the
   run stops.
3. It visits the cookies in request order. For each one it removes that
   cookie from the working request and sends the result. When the response
   still scores above the threshold, the removal is kept.

The cookies still in the working request at the end are reported as the
required ones. Between stages, and before each step of stage 3, the run
checks a user cancel flag. A progress bar counts the requests made out of a
budget of two plus the number of cookies. The dialog announces the same
budget before the run starts.

The model has three modules:

- `Requests` (`requests.dfy`): a request is the ordered list of its
  parameters, as the host's request analyser reports them. It defines the
  cookie filter, the host's parameter removal, the removal of a set of cookie
  names (`Strip`) and the no-cookie request.
- `DetermineSessionCookie` (`determine_cookie.dfy`) holds the run itself:
  - `Run` is an imperative method with the same branches, constants and
    counters as the thread.
  - `Eliminate` is the stage-3 loop.
  - `GoneAfter` and `Minimal` give a functional reference for the greedy
    pass. The lemmas characterise which cookies it keeps.
- `Scenarios` (`scenarios.dfy`): concrete runs on a request with cookies
  `sid`, `theme` and `lang`, against a server that needs only `sid`.

Two inputs stand in for things outside the model:

- Sending a request and scoring its response is an oracle
  `sim(k, request)`. The index `k` is the number of the request in the run:
  0 is the baseline, 1 the no-cookie request and `2 + i` the i-th
  elimination request. So the server may answer the same request differently
  each time.
- The cancel flag is a function `cancelled(c)` over checkpoints: 0 after the
  baseline, 1 after the no-cookie request and `2 + i` before the i-th
  elimination request. A checkpoint's index equals the number of requests
  counted as made when the run reaches it.

`Run` also returns some of the run's state:

- the requests it submitted, in order;
- the made-request counter;
- the final progress value and the progress maximum;
- the threshold.

## Model

| member | source | states |
|---|---|---|
| Requests.CookiesOf | G2DetermineSessionCookie.py:83-84 | Every element of the cookie list is a cookie parameter. |
| Requests.CookiesOfMembers | G2DetermineSessionCookie.py:83-84 | A parameter is in the cookie list exactly when it is in the request and is a cookie. |
| Requests.CookiesOfSubsequence | G2DetermineSessionCookie.py:84 | The cookie list keeps the request's order, so elimination visits cookies in request order. |
| Requests.CookiesOfAppend | G2DetermineSessionCookie.py:84 | Filtering cookies distributes over concatenation of parameter lists. |
| Requests.RemoveMembers | G2DetermineSessionCookie.py:120 | Removing a parameter takes out exactly the parameters with its name and type and keeps every other one. |
| Requests.RemoveSubsequence | G2DetermineSessionCookie.py:152 | Removing a parameter keeps the remaining parameters in order. |
| Requests.RemoveCookieIsStrip | G2DetermineSessionCookie.py:152 | Removing a cookie is the same as stripping its name from the request. |
| Requests.StripMembers | G2DetermineSessionCookie.py:147-158 | After stripping a set of names, a parameter remains exactly when it was present and is not a cookie with one of those names. |
| Requests.StripSubsequence | G2DetermineSessionCookie.py:147-158 | Stripping keeps the remaining parameters in order. |
| Requests.StripStrip | G2DetermineSessionCookie.py:152-158 | Successive removals accumulate: stripping `a` and then `b` equals stripping `a + b`. |
| Requests.CookiesOfStrip | G2DetermineSessionCookie.py:175-176 | The cookies of a stripped request are the original cookies with those names stripped. |
| Requests.NoCookiesHasNone | G2DetermineSessionCookie.py:118-120 | The no-cookie request has no cookie, keeps every non-cookie parameter and keeps the request's order. |
| Requests.RemoveEach | G2DetermineSessionCookie.py:118-120 | Removing the cookies one at a time in a loop yields the request with all of their names stripped. |
| DetermineSessionCookie.GoneGrows | G2DetermineSessionCookie.py:155-158 | The removed set only grows, so the pass never puts a cookie back. |
| DetermineSessionCookie.RemovedByCommit | G2DetermineSessionCookie.py:155-158 | Every removed name was removed by a step that tested a cookie of that name and scored above the threshold. |
| DetermineSessionCookie.RemovedIffCommitted | G2DetermineSessionCookie.py:148-161 | A name is removed after `n` steps if and only if some step before `n` that tested that name committed. |
| DetermineSessionCookie.KeptIffAllFailed | G2DetermineSessionCookie.py:148-176 | A cookie is in the result if and only if it is a cookie of the request and every step testing its name failed the threshold. |
| DetermineSessionCookie.LastCommitObserved | G2DetermineSessionCookie.py:152-158 | If the pass removed anything, the request it ends with was itself submitted by a committing step, no later step committed, and that request scored above the threshold. |
| DetermineSessionCookie.PlannedAt | G2DetermineSessionCookie.py:152-153 | The k-th request the pass submits is the k-th step's candidate. |
| DetermineSessionCookie.StepInvariant | G2DetermineSessionCookie.py:152-158 | One step removes the cookie from the working request to get the step's candidate. The working request becomes the candidate exactly when the candidate scores above the threshold. |
| DetermineSessionCookie.FinalCookies | G2DetermineSessionCookie.py:175-176 | The cookies re-read from the final request are the pass's result, and they keep request order. |
| DetermineSessionCookie.UncancelledMeans | G2DetermineSessionCookie.py:149-151 | A run of clear checkpoints is exactly one in which no checkpoint is set. |
| DetermineSessionCookie.Eliminate | G2DetermineSessionCookie.py:147-163 | The loop submits the planned candidates in order and counts one request per step. It stops at the first set checkpoint and otherwise finishes every cookie. A finished loop's working request is the greedy pass's final request. |
| DetermineSessionCookie.Run | G2DetermineSessionCookie.py:60-181 | The progress maximum is the budget. Submitted requests are the baseline, the no-cookie request and then the planned candidates. The four outcome cases are stated below this table. |
| Scenarios.SampleMinimal | G2DetermineSessionCookie.py:147-163 | With cookies `sid`, `theme` and `lang` and a server that needs only `sid`, the pass keeps exactly `sid`. |
| Scenarios.SessionCookieFound | G2DetermineSessionCookie.py:60-181 | A stable run without cancellation makes all five requests and reports `[sid]`. |
| Scenarios.UnstableBaseline | G2DetermineSessionCookie.py:98-102 | A baseline that scores 0.5 stops the run as unstable with no request counted. |
| Scenarios.CancelledAfterBaseline | G2DetermineSessionCookie.py:109-111 | A cancel seen after the baseline stops the run after one submitted request and none counted. |

The four outcome cases that `DetermineSessionCookie.Run` states:

- Unstable: exactly when the baseline scores below 0.6. Progress jumps to
  the maximum.
- Not gated: when the no-cookie request scores above the damped threshold.
  The run ends after two requests and progress jumps to the maximum.
- Cancelled: at the first set checkpoint. The counter and progress stop
  there.
- Done: every budgeted request was made, and the result is the greedy pass's
  minimal cookie list, in request order.

`DetermineSessionCookie.RequestsNeeded` (G2DetermineSessionCookie.py:86 and
246-247) is the budget that the dialog announces. It appears in `Run`'s
contract as the progress maximum.

## Left out

- The similarity score (difflib's `SequenceMatcher` ratio over response
  bodies, G2DetermineSessionCookie.py:33-46) is an input oracle `sim`.
  Response bytes, body offsets and the matcher are not modelled.
- HTTP traffic (`makeHttpRequest`) and the host's request analyser are
  covered by the oracle and by the parameter-list abstraction of a request.
  Byte-level request rewriting is not modelled.
- Failed requests and analyser failures are not modelled. The source's run
  catches no exception from `makeHttpRequest` (G2DetermineSessionCookie.py:96,
  123, 153), from reading a missing response (37-43) or from `analyzeRequest`
  (175). Such a failure ends the thread with no outcome and leaves the
  progress bar where it was. The oracle `sim` is total, so the model has no
  such path: `Run` always ends in one of its four outcomes.
- The host's `removeParameter` is modelled as deleting every parameter with
  the same name and type. How the host rewrites the Cookie header is not
  modelled.
- The global cancel flag is a function of the checkpoint index. The thread,
  its start and the GUI action that clears or sets the flag are not
  modelled, and neither is concurrent access to the flag.
- The status text area transcript and the console message on cancellation
  are output only and are left out.
- The dialog layout (`DetermineCookieFrame.loadPanel`, `start`, `cancel`)
  and extension registration are left out. Only the budget that `loadPanel`
  computes is modelled, as `RequestsNeeded`.
- Similarity scores and the threshold are real numbers, not Python floats.
  So `0.95 * 0.8` is exactly `0.76` here.
- DetermineSessionCookie.Run: the intermediate progress-bar values during
  elimination are not reported. Only the final progress value is stated.

/** The simulated HTTP request of the continuation demo: the response is
    chosen from the URL, and the callback is handed the response through a
    spawned task. */
module HttpContinuation {

  import opened Wrappers

  /** `HttpResponse`: status code, status line and body. */
  datatype HttpResponse = HttpResponse(statusCode: int, statusLine: string, body: string)

  /** A callback, by identity; the demo passes `my_callback`. */
  type CallbackId = nat

  /** One invocation of a callback with a response. */
  datatype Delivery = Delivery(callback: CallbackId, response: HttpResponse)

  const NotFound: HttpResponse := HttpResponse(404, "Not found", "Mutexes are not found in user code.")
  const Ok: HttpResponse := HttpResponse(200, "OK", "There is a better way do do concurrency.")

  /** `pat` occurs in `s` starting at position i. */
  predicate OccursAt(s: string, pat: string, i: nat)
  {
    i + |pat| <= |s| && s[i..i + |pat|] == pat
  }

  /** `std::string::find` from position i: the first position at or after i
      where `pat` occurs, or None for `npos`. */
  function FindFrom(s: string, pat: string, i: nat): (r: Option<nat>)
    requires i <= |s|
    ensures r.Some? ==> i <= r.value && OccursAt(s, pat, r.value)
    ensures r.Some? ==> forall j :: i <= j < r.value ==> !OccursAt(s, pat, j)
    ensures r.None? ==> forall j :: i <= j <= |s| ==> !OccursAt(s, pat, j)
    decreases |s| - i
  {
    if OccursAt(s, pat, i) then Some(i)
    else if i == |s| then None
    else FindFrom(s, pat, i + 1)
  }

  function Find(s: string, pat: string): Option<nat>
  {
    FindFrom(s, pat, 0)
  }

  /** The response chosen by the processing task of `make_http_request`:
      404 when the URL contains "mutex", 200 otherwise. */
  function ResponseFor(url: string): (r: HttpResponse)
    ensures (exists j :: 0 <= j <= |url| && OccursAt(url, "mutex", j)) ==> r == NotFound
    ensures (forall j :: 0 <= j <= |url| ==> !OccursAt(url, "mutex", j)) ==> r == Ok
    ensures r.statusCode == 404 <==> Find(url, "mutex").Some?
  {
    if Find(url, "mutex").Some? then NotFound else Ok
  }

  /** `invoke_callback`: spawns a task that calls `cb` with `resp`. The
      model records the single call that task makes. */
  function InvokeCallback(cb: CallbackId, resp: HttpResponse): (calls: seq<Delivery>)
    ensures |calls| == 1 && calls[0].callback == cb && calls[0].response == resp
  {
    [Delivery(cb, resp)]
  }

  /** `make_http_request`: the calls made to callbacks once both spawned
      tasks have run. */
  function MakeHttpRequest(url: string, cb: CallbackId): (calls: seq<Delivery>)
  {
    InvokeCallback(cb, ResponseFor(url))
  }

  /** Every request reaches its callback exactly once, with the response its
      URL selects, and the response is one of the two the demo knows. */
  lemma RequestCallsBackOnce(url: string, cb: CallbackId)
    ensures |MakeHttpRequest(url, cb)| == 1
    ensures MakeHttpRequest(url, cb)[0] == Delivery(cb, ResponseFor(url))
    ensures MakeHttpRequest(url, cb)[0].response in {NotFound, Ok}
  {
  }

  /** The two requests of the demo: the first mentions "mutex" and is
      refused, the second is answered. */
  lemma DemoRequests()
    ensures ResponseFor("google.com?q=mutex") == NotFound
    ensures ResponseFor("google.com?q=concurrency") == Ok
  {
    var u1 := "google.com?q=mutex";
    assert OccursAt(u1, "mutex", 13);
    var u2 := "google.com?q=concurrency";
    forall j | 0 <= j <= |u2| ensures !OccursAt(u2, "mutex", j) {
      if j + 5 <= |u2| {
        // "mu" does not occur in u2
        assert u2[j] != 'm' || u2[j + 1] != 'u';
        assert u2[j..j + 5][0] == u2[j] && u2[j..j + 5][1] == u2[j + 1];
      }
    }
  }
}

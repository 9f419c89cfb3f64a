/**
 * The per-client request throttle `blogRequestThrottleFilter` (blog.java:214-279).
 *
 * The Caffeine cache of the source becomes a map from client key to an `Entry`
 * holding the stored count and the time of its last write; the cache's
 * `expireAfterWrite` becomes the comparison `now < lastWrite + window`, with the
 * clock passed in as `now`. Times are in the cache ticker's unit (nanoseconds).
 */
module Throttle {
  import opened Wrappers
  import opened ClientIdentity

  /** Largest Java `int`; the stored counts are `Integer`s. */
  const INT_MAX: int := 0x7fff_ffff

  /** `MAX_BLOG_UPDATES_PER_SECOND` (blog.java:216). */
  const SOURCE_THRESHOLD: nat := 900

  /** `expireAfterWrite(1, TimeUnit.SECONDS)` (blog.java:222), in nanoseconds. */
  const SOURCE_WINDOW: nat := 1_000_000_000

  /** `HttpStatus.TOO_MANY_REQUESTS` (section 4 of RFC 6585). */
  const TOO_MANY_REQUESTS: int := 429

  const REJECTION_BODY: string := "Too many requests"

  /** One cache entry: the stored count and when it was last written. */
  datatype Entry = Entry(count: nat, lastWrite: int)

  type Store = map<string, Entry>

  /** What the filter does with a request. */
  datatype Decision =
    | Reject(status: int, body: string)   // status and body written, chain not invoked
    | Forward                             // chain invoked once, response untouched

  /** The entry for `key` exists and has not expired after its last write. */
  predicate Live(s: Store, key: string, now: int, window: nat) {
    key in s && now < s[key].lastWrite + window
  }

  /** `requestCountsPerIpAddress.get(key)`: the live count, or the loader's 0. */
  function StoredCount(s: Store, key: string, now: int, window: nat): (c: nat)
    // a key never written reads as the loader's 0
    ensures key !in s ==> c == 0
    // so does one whose last write is a full window or more in the past
    ensures key in s && now >= s[key].lastWrite + window ==> c == 0
    // a live entry reads as its stored count
    ensures key in s && now < s[key].lastWrite + window ==> c == s[key].count
  {
    if Live(s, key, now, window) then s[key].count else 0
  }

  /** The answer of `isMaximumRequestsPerSecondExceeded` for `key` at time `now`. */
  predicate Exceeds(s: Store, key: string, now: int, threshold: nat, window: nat) {
    StoredCount(s, key, now, window) > threshold
  }

  /** The table after one request from `key` at time `now`. */
  function After(s: Store, key: string, now: int, threshold: nat, window: nat): (r: Store)
    // every request rewrites its own entry, which restarts its expiry
    ensures key in r && r[key].lastWrite == now
    // a key with no live entry starts again at one
    ensures !Live(s, key, now, window) ==> r[key].count == 1
    // an admitted request adds exactly one, a rejected one keeps the count
    ensures Live(s, key, now, window) && s[key].count <= threshold ==> r[key].count == s[key].count + 1
    ensures Live(s, key, now, window) && s[key].count > threshold ==> r[key].count == s[key].count
    // nothing else changes
    ensures r.Keys == s.Keys + {key}
    ensures forall k :: k in s && k != key ==> r[k] == s[k]
  {
    var c := StoredCount(s, key, now, window);
    s[key := Entry(if c > threshold then c else c + 1, now)]
  }

  /** Every stored count lies between one and `threshold + 1`. */
  predicate Bounded(s: Store, threshold: nat) {
    forall k :: k in s ==> 1 <= s[k].count <= threshold + 1
  }

  /** No request takes a stored count past `threshold + 1`. */
  lemma AfterBounded(s: Store, key: string, now: int, threshold: nat, window: nat)
    requires Bounded(s, threshold)
    ensures Bounded(After(s, key, now, threshold, window), threshold)
  {
  }

  /**
   * Expiry runs from the last write, and every request writes: after a quiet
   * window a key is treated as never seen, whatever it did before.
   */
  lemma QuietWindowResets(s: Store, key: string, t1: int, t2: int, threshold: nat, window: nat)
    requires t2 >= t1 + window
    ensures !Exceeds(After(s, key, t1, threshold, window), key, t2, threshold, window)
    ensures After(After(s, key, t1, threshold, window), key, t2, threshold, window)[key] == Entry(1, t2)
  {
  }

  /** A request from one key neither changes another key's answer nor its entry. */
  lemma KeysIndependent(s: Store, key: string, other: string, now: int, later: int, threshold: nat, window: nat)
    requires other != key
    ensures Exceeds(After(s, key, now, threshold, window), other, later, threshold, window)
            == Exceeds(s, other, later, threshold, window)
    ensures other in After(s, key, now, threshold, window) <==> other in s
  {
  }

  /** The answers to requests from `key` at the successive `times`, starting from `s`. */
  function Run(s: Store, key: string, times: seq<int>, threshold: nat, window: nat): (answers: seq<bool>)
    ensures |answers| == |times|
    decreases |times|
  {
    if times == [] then []
    else [Exceeds(s, key, times[0], threshold, window)]
         + Run(After(s, key, times[0], threshold, window), key, times[1..], threshold, window)
  }

  /** Each request follows the previous one before the previous one's entry expires. */
  predicate WithinWindow(times: seq<int>, window: nat) {
    forall i :: 0 <= i < |times| - 1 ==> times[i + 1] < times[i] + window
  }

  /**
   * A burst from one key, with no expiry in between, that starts at stored count `c`:
   * the i-th request is rejected exactly when `c + i` exceeds the threshold.
   */
  lemma {:induction false} BurstFrom(s: Store, key: string, times: seq<int>, threshold: nat, window: nat, c: nat)
    requires |times| > 0 && StoredCount(s, key, times[0], window) == c
    requires WithinWindow(times, window)
    ensures forall i :: 0 <= i < |times| ==> Run(s, key, times, threshold, window)[i] == (c + i > threshold)
    decreases |times|
  {
    var answers := Run(s, key, times, threshold, window);
    if |times| > 1 {
      var s' := After(s, key, times[0], threshold, window);
      var c' := if c > threshold then c else c + 1;
      assert StoredCount(s', key, times[1], window) == c';
      var tail := times[1..];
      assert WithinWindow(tail, window) by {
        assert forall i :: 0 <= i < |tail| ==> tail[i] == times[i + 1];
      }
      BurstFrom(s', key, tail, threshold, window, c');
      assert forall i :: 1 <= i < |times| ==> answers[i] == Run(s', key, tail, threshold, window)[i - 1];
    }
  }

  /**
   * From a key with no live entry, a burst without expiry in between has exactly
   * its first `threshold + 1` requests admitted and every later one rejected.
   */
  lemma FreshBurst(s: Store, key: string, times: seq<int>, threshold: nat, window: nat)
    requires |times| > 0 && !Live(s, key, times[0], window)
    requires WithinWindow(times, window)
    ensures forall i :: 0 <= i < |times| ==> (Run(s, key, times, threshold, window)[i] <==> i > threshold)
  {
    BurstFrom(s, key, times, threshold, window, 0);
  }

  /** With the source's constant, 901 requests in a row get through and the 902nd does not. */
  lemma SourceLimitAdmits901(s: Store, key: string, times: seq<int>)
    requires |times| == 902 && !Live(s, key, times[0], SOURCE_WINDOW)
    requires WithinWindow(times, SOURCE_WINDOW)
    ensures forall i :: 0 <= i < 901 ==> !Run(s, key, times, SOURCE_THRESHOLD, SOURCE_WINDOW)[i]
    ensures Run(s, key, times, SOURCE_THRESHOLD, SOURCE_WINDOW)[901]
  {
    FreshBurst(s, key, times, SOURCE_THRESHOLD, SOURCE_WINDOW);
  }

  /** The filter and its counter table. */
  class BlogRequestThrottleFilter {
    const threshold: nat
    const window: nat
    var requestCounts: Store

    ghost predicate Valid()
      reads this
    {
      threshold < INT_MAX && Bounded(requestCounts, threshold)
    }

    /**
     * Starts with an empty table (blog.java:219-227); `threshold` and `window` are the
     * configuration. The source declares this as `requestThrottleFilter()`, a name
     * that differs from its class; it is read here as the class's constructor.
     */
    constructor (threshold: nat, window: nat)
      requires threshold < INT_MAX
      ensures Valid()
      ensures this.threshold == threshold && this.window == window
      ensures requestCounts == map[]
    {
      this.threshold := threshold;
      this.window := window;
      requestCounts := map[];
    }

    /**
     * Reads the key's count; over the threshold it writes the same count back and
     * answers true, otherwise it stores the count plus one and answers false.
     */
    method IsMaximumRequestsPerSecondExceeded(clientIpAddress: string, now: int) returns (exceeded: bool)
      requires Valid()
      modifies this
      ensures Valid()
      ensures exceeded == Exceeds(old(requestCounts), clientIpAddress, now, threshold, window)
      ensures requestCounts == After(old(requestCounts), clientIpAddress, now, threshold, window)
    {
      AfterBounded(requestCounts, clientIpAddress, now, threshold, window);
      var requests := StoredCount(requestCounts, clientIpAddress, now, window);
      if requests > threshold {
        requestCounts := requestCounts - {clientIpAddress};
        requestCounts := requestCounts[clientIpAddress := Entry(requests, now)];
        return true;
      }
      assert requests + 1 <= INT_MAX;
      requests := requests + 1;
      requestCounts := requestCounts[clientIpAddress := Entry(requests, now)];
      return false;
    }

    /**
     * Resolves the client key and consults the counter: over the limit the
     * request is answered with 429 "Too many requests", otherwise it is forwarded.
     * A header that `getClientIP` cannot split fails before the counter is touched.
     */
    method DoFilter(request: Request, now: int) returns (r: Result<Decision, ClientIpError>)
      requires Valid()
      modifies this
      ensures Valid()
      ensures GetClientIP(request).Err? ==>
                r == Err(GetClientIP(request).error) && requestCounts == old(requestCounts)
      ensures GetClientIP(request).Ok? ==>
                var key := GetClientIP(request).value;
                requestCounts == After(old(requestCounts), key, now, threshold, window) &&
                (r == Ok(Forward) <==> !Exceeds(old(requestCounts), key, now, threshold, window)) &&
                (r.Ok? && r.value.Reject? <==> Exceeds(old(requestCounts), key, now, threshold, window)) &&
                (r.Ok? && r.value.Reject? ==> r.value == Reject(TOO_MANY_REQUESTS, REJECTION_BODY))
    {
      var ip := GetClientIP(request);
      if ip.Err? {
        return Err(ip.error);
      }
      var exceeded := IsMaximumRequestsPerSecondExceeded(ip.value, now);
      if exceeded {
        return Ok(Reject(TOO_MANY_REQUESTS, REJECTION_BODY));
      }
      return Ok(Forward);
    }
  }
}

# Per-client request throttle of the CSIR blog service

This project models `blogRequestThrottleFilter`, the servlet filter that sits in
front of the blog's CRUD endpoints and limits how many requests one client may
make. The filter has three parts:

- **Client key** (`ClientIdentity`, `client_ip.dfy`). `getClientIP` returns the
  remote address when there is no `X-Forwarded-For` header. Otherwise it returns
  `header.split(",")[0]`. Java's `split` with limit 0 is modelled exactly: a
  header without a comma comes back whole, and trailing empty fields are
  dropped. So a non-empty header made only of commas yields no field, and the
  index `[0]` throws. That case is the `Err(ArrayIndexOutOfBounds)` result.
- **Counter table** (`Throttle`, `throttle.dfy`). The Caffeine cache becomes a
  `map<string, Entry>` field holding a count and a last-write time. The cache's
  `expireAfterWrite` becomes the test `now < lastWrite + window`, and the clock
  is the parameter `now`. An absent or expired key reads as 0, which is what the
  cache loader returns. Counts above the threshold are written back unchanged
  and the request is rejected. Otherwise the count plus one is stored and the
  request is admitted. Both branches write the entry, so every request restarts
  the key's expiry. The counter therefore resets after one window of
  *inactivity* from that key, not one window after its first request.
- **Filter decision** (`BlogRequestThrottleFilter.DoFilter`). A rejection is
  `Reject(429, "Too many requests")`, the status of section 4 of RFC 6585, and
  the chain is not called. An admitted request is `Forward`: the chain is called
  once and the filter writes nothing.

`threshold` and `window` are constructor parameters. The source's own values
are `SOURCE_THRESHOLD = 900` and `SOURCE_WINDOW` = 1 second, and they disagree
with each other: the constant is named "per second", its comment says 15
minutes, and the expiry is 1 second. Times are in the unit of the cache's
ticker (nanoseconds).

What the code does, and the model with it:
- The window slides from the last write. Every request, admitted or rejected,
  restarts its key's expiry; it is not a fixed window from the first request.
- With threshold T, a burst from a key with no live entry admits T+1 requests,
  because the count is compared before it is incremented.
- The forwarded header is not trimmed.
- A header made only of commas makes the filter fail with an exception. It does
  not fall back to the remote address.
- There is no fail-open path.
- The read-then-write update is not atomic. The model is sequential.
- blog.java:219 declares `requestThrottleFilter()`, whose name differs from the
  class `blogRequestThrottleFilter`, so javac reads it as a method without a
  return type. The model takes it as the class's constructor, which is its
  evident intent.

The `null` branch of `isMaximumRequestsPerSecondExceeded` (blog.java:259-261) is
dead, because the loader never yields `null`. `StoredCount` always returns a
number.

## Model

| member | source | states |
|---|---|---|
| ClientIdentity.SplitAll | blog.java:272 | splitting at every comma yields at least one field; rejoined with commas the fields give back the string; the first field is the part before the first comma; no field holds a comma; all fields are empty exactly when the string is made of commas only |
| ClientIdentity.JoinSnoc | blog.java:272 | appending a field to a non-empty list appends a comma and that field to the joined text |
| ClientIdentity.DropTrailingEmpty | blog.java:272 | dropping trailing empty fields keeps a prefix of the fields and every field dropped is empty; the result is empty exactly when every field is empty; otherwise it ends in a non-empty field |
| ClientIdentity.JoinDropTrailingEmpty | blog.java:272 | dropping the trailing empty fields removes only a run of commas from the end of the joined text |
| ClientIdentity.JavaSplit | blog.java:272 | `split(",")` returns no field exactly when the header is non-empty and made only of commas; otherwise its first field is the header's text before the first comma (the whole header if it has none); no field holds a comma; with two or more fields the last one is non-empty; rejoined, the fields give the header minus the commas at its end (together these fix the result uniquely) |
| ClientIdentity.FirstFieldUnique | blog.java:272 | the text before the first comma is uniquely determined, so the characterisation above pins the result down |
| ClientIdentity.GetClientIP | blog.java:267-273 | no header gives the remote address; a header fails exactly when it is made only of commas; otherwise the result is the header's prefix before the first comma, and it holds no comma |
| ClientIdentity.FirstFieldVerbatim | blog.java:272 | a non-empty comma-free first field is returned verbatim, surrounding spaces included (no trimming), whatever follows the comma |
| Throttle.StoredCount | blog.java:221-226 | a key never written, or last written a full window or more before `now`, reads as the loader's 0; a live entry reads as its stored count |
| Throttle.After | blog.java:249-265 | a request rewrites its key's entry with last-write time `now`; a key with no live entry gets count 1; a live count at most the threshold goes up by one; a higher count is kept; every other key's entry is untouched |
| Throttle.AfterBounded | blog.java:253-263 | if every stored count is between 1 and threshold+1, it stays so after any request |
| Throttle.QuietWindowResets | blog.java:221-222 | a request at least one window after the key's previous request is admitted and stores count 1, whatever the earlier state |
| Throttle.KeysIndependent | blog.java:251-263 | a request from one key changes neither another key's answer at any later time nor whether that key has an entry |
| Throttle.Run | blog.java:249-265 | one answer per request in a sequence of requests from one key; `BurstFrom` and `FreshBurst` state what the answers are |
| Throttle.BurstFrom | blog.java:253-263 | in a burst with no expiry in between that starts at stored count c, the i-th request is rejected exactly when c + i exceeds the threshold |
| Throttle.FreshBurst | blog.java:253-263 | from a key with no live entry, a burst with no expiry in between admits exactly its first threshold+1 requests and rejects every later one |
| Throttle.SourceLimitAdmits901 | blog.java:216 | with the source's constant 900, 901 requests in a row are admitted and the 902nd is rejected |
| Throttle.BlogRequestThrottleFilter.constructor | blog.java:219-227 | the table starts empty, with the given threshold and window |
| Throttle.BlogRequestThrottleFilter.IsMaximumRequestsPerSecondExceeded | blog.java:249-265 | answers whether the key's live count exceeds the threshold; the new table is `After` of the old one; every count stays between 1 and threshold+1, so `count + 1` never overflows a Java `int` |
| Throttle.BlogRequestThrottleFilter.DoFilter | blog.java:235-247 | an unsplittable header fails with the table unchanged; otherwise the table is updated for the resolved key, and the result is `Reject(429, "Too many requests")` exactly when the key was over the threshold, `Forward` exactly when it was not |

## Left out

- Concurrency. The get-then-put between blog.java:251 and 263 is not atomic, and two concurrent requests can read the same count. The model is sequential and proves nothing about interleavings.
- Caffeine internals. Asynchronous eviction and physical removal of expired entries are not modelled. An expired entry stays in the map and reads as absent. The entry that `get` inserts for an absent key is not modelled either, because both branches overwrite it at once.
- Servlet I/O. Writing the body, `IOException`/`ServletException`, and the empty `init`/`destroy` (blog.java:229-232, 275-278) are left out. The response is the `Decision` value.
- The wall clock. It is the parameter `now`.
- Throttle.BlogRequestThrottleFilter.constructor: requires `threshold < 2^31 - 1`, so that threshold+1 fits a Java `int`. The source's constant is 900. A negative threshold is not modelled.
- The `Post` entity, its length annotations, and the repository, service and controller layers (blog.java:9-210). These are persistence and routing pass-through with no logic of their own.
- The ownership rule "update only their own post within 15 minutes" (comment at blog.java:212). No code implements it.

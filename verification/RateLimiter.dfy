/** The sliding-window limiter of api_auth.py:179-196. */
module RateLimiter {

  type Client = string

  /** The times within the window before now. */
  function Recent(times: seq<real>, now: real, window: real): seq<real> {
    if |times| == 0 then []
    else
      var t := times[|times| - 1];
      Recent(times[..|times| - 1], now, window) + (if now - t < window then [t] else [])
  }

  ghost predicate Ascending(times: seq<real>) {
    forall i, j :: 0 <= i < j < |times| ==> times[i] <= times[j]
  }

  /** Any m + 1 successive times span at least the window. */
  ghost predicate Spaced(times: seq<real>, m: nat, window: real) {
    forall k :: 0 <= k && k + m < |times| ==> times[k + m] - times[k] >= window
  }

  /** What has left the window stays out. */
  lemma {:induction false} RecentTwice(times: seq<real>, now: real, later: real, window: real)
    requires now <= later
    ensures Recent(Recent(times, now, window), later, window) == Recent(times, later, window)
  {
    if |times| > 0 {
      var before, t := times[..|times| - 1], times[|times| - 1];
      RecentTwice(before, now, later, window);
      if now - t < window {
        RecentSnoc(Recent(before, now, window), t, later, window);
      } else {
        assert Recent(times, now, window) == Recent(before, now, window);
      }
    }
  }

  /** The positions of the times within the window before now. */
  ghost function InWindow(times: seq<real>, now: real, window: real): set<nat> {
    set i: nat | i < |times| && now - times[i] < window
  }

  /** Pruning drops exactly what has left the window. */
  lemma {:induction false} RecentExact(times: seq<real>, now: real, window: real)
    ensures |Recent(times, now, window)| == |InWindow(times, now, window)|
    ensures forall t :: t in Recent(times, now, window) <==> t in times && now - t < window
  {
    if |times| == 0 {
      assert InWindow(times, now, window) == {};
    } else {
      var n := |times| - 1;
      RecentExact(times[..n], now, window);
      InWindowSnoc(times[..n], times[n], now, window);
      hide InWindow;
      assert times == times[..n] + [times[n]];
    }
  }

  lemma InWindowSnoc(times: seq<real>, t: real, now: real, window: real)
    ensures |InWindow(times + [t], now, window)| == |InWindow(times, now, window)| + (if now - t < window then 1 else 0)
  {
    var n := |times|;
    assert n !in InWindow(times, now, window);
    assert InWindow(times + [t], now, window) == InWindow(times, now, window) + (if now - t < window then {n} else {});
  }

  lemma RecentSnoc(times: seq<real>, t: real, now: real, window: real)
    ensures Recent(times + [t], now, window) == Recent(times, now, window) + (if now - t < window then [t] else [])
  {
    assert (times + [t])[..|times|] == times;
  }

  /** If time j is recent, so are all after it. */
  lemma {:induction false} RecentFrom(times: seq<real>, j: nat, now: real, window: real)
    requires Ascending(times) && j < |times| && now - times[j] < window
    ensures |Recent(times, now, window)| >= |times| - j
  {
    var before := times[..|times| - 1];
    if j < |before| {
      RecentFrom(before, j, now, window);
    }
    assert times[j] <= times[|times| - 1];
  }

  /** An admission below the limit keeps every m + 1 admissions a window apart. */
  lemma AdmitSpaced(times: seq<real>, now: real, m: nat, window: real)
    requires Ascending(times) && Spaced(times, m, window) && (forall t :: t in times ==> t <= now)
    requires m >= 1 && |Recent(times, now, window)| < m
    ensures Ascending(times + [now]) && Spaced(times + [now], m, window)
  {
    var after := times + [now];
    forall i, j | 0 <= i < j < |after| ensures after[i] <= after[j] {
      assert i < |times| && times[i] in times;
    }
    forall k | 0 <= k && k + m < |after| ensures after[k + m] - after[k] >= window {
      if k + m == |times| {
        if now - times[k] < window {
          RecentFrom(times, k, now, window);
        }
      }
    }
  }

  /** For every time to come the pruned bucket is as good as the full history. */
  ghost predicate Faithful(bucket: seq<real>, history: seq<real>, clock: real, window: real) {
    forall now :: now >= clock ==> Recent(bucket, now, window) == Recent(history, now, window)
  }

  /** The history is ordered, past, and below the limit. */
  ghost predicate Orderly(history: seq<real>, clock: real, limit: int, window: real) {
    && Ascending(history)
    && (forall t :: t in history ==> t <= clock)
    && (limit >= 1 ==> Spaced(history, limit, window))
    && (limit <= 0 ==> history == [])
  }

  ghost predicate InOrder(bucket: seq<real>, history: seq<real>, clock: real, limit: int, window: real) {
    Faithful(bucket, history, clock, window) && Orderly(history, clock, limit, window)
  }

  lemma PruneFaithful(bucket: seq<real>, history: seq<real>, clock: real, now: real, window: real)
    requires Faithful(bucket, history, clock, window) && now >= clock
    ensures Faithful(Recent(bucket, now, window), history, now, window)
  {
    forall later: real | later >= now
      ensures Recent(Recent(bucket, now, window), later, window) == Recent(history, later, window)
    {
      RecentTwice(bucket, now, later, window);
    }
  }

  lemma AdmitFaithful(bucket: seq<real>, history: seq<real>, now: real, window: real)
    requires Faithful(bucket, history, now, window)
    ensures Faithful(bucket + [now], history + [now], now, window)
  {
    forall later: real | later >= now
      ensures Recent(bucket + [now], later, window) == Recent(history + [now], later, window)
    {
      RecentSnoc(bucket, now, later, window);
      RecentSnoc(history, now, later, window);
    }
  }

  lemma AdmitOrderly(history: seq<real>, clock: real, now: real, limit: int, window: real)
    requires Orderly(history, clock, limit, window) && now >= clock
    requires |Recent(history, now, window)| < limit
    ensures Orderly(history + [now], now, limit, window)
  {
    AdmitSpaced(history, now, limit, window);
  }

  function Of(times: map<Client, seq<real>>, c: Client): seq<real> {
    if c in times then times[c] else []
  }

  lemma FaithfulAt(bucket: seq<real>, history: seq<real>, clock: real, now: real, window: real)
    requires Faithful(bucket, history, clock, window) && now >= clock
    ensures Recent(bucket, now, window) == Recent(history, now, window)
  {
  }

  /** Time passing spoils nothing. */
  lemma Later(buckets: map<Client, seq<real>>, history: map<Client, seq<real>>,
              clock: real, now: real, limit: int, window: real)
    requires forall c :: InOrder(Of(buckets, c), Of(history, c), clock, limit, window)
    requires now >= clock
    ensures forall c :: InOrder(Of(buckets, c), Of(history, c), now, limit, window)
  {
    hide Recent;
  }

  class Limiter {
    const window: real
    const limit: int
    var buckets: map<Client, seq<real>>
    /** All admissions ever, and the latest time seen. */
    ghost var history: map<Client, seq<real>>
    ghost var clock: real

    ghost predicate Valid()
      reads this
    {
      forall c :: InOrder(Of(buckets, c), Of(history, c), clock, limit, window)
    }

    constructor (limit: int, window: real, start: real)
      ensures Valid() && this.limit == limit && this.window == window && clock == start
      ensures history == map[]
    {
      this.limit, this.window := limit, window;
      buckets, history, clock := map[], map[], start;
    }

    /** Decides as the client's full history would; touches no other client. */
    method Request(client: Client, now: real) returns (admitted: bool)
      requires Valid() && now >= clock
      modifies this
      ensures Valid() && clock == now
      ensures admitted <==> |Recent(Of(old(history), client), now, window)| < limit
      ensures admitted <==> |InWindow(Of(old(history), client), now, window)| < limit
      ensures Of(history, client) == Of(old(history), client) + (if admitted then [now] else [])
      ensures Of(buckets, client) == Recent(Of(old(buckets), client), now, window) + (if admitted then [now] else [])
      ensures forall c :: c != client ==> Of(history, c) == Of(old(history), c) && Of(buckets, c) == Of(old(buckets), c)
    {
      RecentExact(Of(history, client), now, window);
      hide Faithful, Orderly, Recent, InWindow;
      ghost var h, oldClock := Of(history, client), clock;
      var timestamps := Of(buckets, client);
      PruneFaithful(timestamps, h, oldClock, now, window);
      assert Recent(timestamps, now, window) == Recent(h, now, window) by {
        FaithfulAt(timestamps, h, oldClock, now, window);
      }
      Later(buckets, history, clock, now, limit, window);
      buckets := buckets[client := Recent(timestamps, now, window)];
      clock := now;
      admitted := |buckets[client]| < limit;
      if admitted {
        AdmitFaithful(buckets[client], h, now, window);
        AdmitOrderly(h, oldClock, now, limit, window);
        history := history[client := h + [now]];
        buckets := buckets[client := buckets[client] + [now]];
      }
      forall c | c != client
        ensures Of(history, c) == Of(old(history), c) && Of(buckets, c) == Of(old(buckets), c)
      {
      }
    }
  }
}

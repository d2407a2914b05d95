/**
 * A user's recent comment history: the remote search with up to four attempts, the pauses
 * between them, and the per-user cache whose entries are reused for one week.
 */
module History {

  /** One comment of the history; only its body is used. */
  datatype CommentRecord = CommentRecord(body: string)

  /** What one attempt at the remote search produced. */
  datatype Attempt =
    | RequestFailed                        // the request itself raised: no response, no pause
    | MalformedJson                        // a response arrived but its JSON could not be decoded
    | Received(data: seq<CommentRecord>)   // the decoded `data` array

  /** A cache entry: the stored response and the time it was stored, in seconds. */
  datatype Entry = Entry(response: seq<CommentRecord>, timestamp: real)

  /** The result of one fetch: the comments, how many attempts were made and the pauses taken, in order. */
  datatype Fetched = Fetched(comments: seq<CommentRecord>, attempts: nat, pauses: seq<nat>)

  const MaxAttempts: nat := 4
  /** Seconds slept after every response that arrives. */
  const ResponsePause: nat := 7
  /** Seconds slept after a failed attempt that is not the last one. */
  const RetryPause: nat := 10
  /** One week, in seconds: a cached response this old or younger is reused. */
  const FreshnessWindow: real := 604800.0

  /** The index of the first attempt at or after `from` that received data, or `MaxAttempts`. */
  function FirstReceived(outcomes: seq<Attempt>, from: nat): (k: nat)
    requires from <= MaxAttempts <= |outcomes|
    ensures from <= k <= MaxAttempts
    ensures forall j :: from <= j < k ==> !outcomes[j].Received?
    ensures k < MaxAttempts ==> outcomes[k].Received?
    decreases MaxAttempts - from
  {
    if from == MaxAttempts || outcomes[from].Received? then from else FirstReceived(outcomes, from + 1)
  }

  /** The pauses taken by attempt number `i` (counting from 0). */
  function AttemptPauses(outcome: Attempt, i: nat): seq<nat> {
    (if outcome.RequestFailed? then [] else [ResponsePause])
    + (if !outcome.Received? && i < MaxAttempts - 1 then [RetryPause] else [])
  }

  /** The pauses taken by the first `n` attempts, in order. */
  function Pauses(outcomes: seq<Attempt>, n: nat): seq<nat>
    requires n <= |outcomes|
  {
    if n == 0 then [] else Pauses(outcomes, n - 1) + AttemptPauses(outcomes[n - 1], n - 1)
  }

  /** What the retry loop produces when the attempts turn out as `outcomes` says. */
  function Retried(outcomes: seq<Attempt>): Fetched
    requires MaxAttempts <= |outcomes|
  {
    var k := FirstReceived(outcomes, 0);
    if k < MaxAttempts then Fetched(outcomes[k].data, k + 1, Pauses(outcomes, k + 1))
    else Fetched([], MaxAttempts, Pauses(outcomes, MaxAttempts))
  }

  /** The retry policy: between one and four attempts; the first attempt that receives data ends
      the loop with that data; when all four fail the result is empty. */
  lemma RetriedPolicy(outcomes: seq<Attempt>)
    requires MaxAttempts <= |outcomes|
    ensures var r := Retried(outcomes);
      && 1 <= r.attempts <= MaxAttempts
      && (forall j :: 0 <= j < r.attempts - 1 ==> !outcomes[j].Received?)
      && (if outcomes[r.attempts - 1].Received?
          then r.comments == outcomes[r.attempts - 1].data
          else r.attempts == MaxAttempts && r.comments == [])
  {
  }

  /** A fetch that fails three times and then receives data returns that data, not an empty history. */
  lemma SucceedsOnLastAttempt(outcomes: seq<Attempt>)
    requires MaxAttempts <= |outcomes|
    requires forall j :: 0 <= j < MaxAttempts - 1 ==> !outcomes[j].Received?
    requires outcomes[MaxAttempts - 1].Received?
    ensures Retried(outcomes).comments == outcomes[MaxAttempts - 1].data
    ensures Retried(outcomes).attempts == MaxAttempts
  {
  }

  function CountOf(xs: seq<nat>, x: nat): nat {
    if xs == [] then 0 else CountOf(xs[..|xs| - 1], x) + (if xs[|xs| - 1] == x then 1 else 0)
  }

  lemma {:induction false} CountOfAppend(xs: seq<nat>, ys: seq<nat>, x: nat)
    ensures CountOf(xs + ys, x) == CountOf(xs, x) + CountOf(ys, x)
    decreases |ys|
  {
    if ys == [] {
      assert xs + ys == xs;
    } else {
      assert (xs + ys)[..|xs + ys| - 1] == xs + ys[..|ys| - 1];
      CountOfAppend(xs, ys[..|ys| - 1], x);
    }
  }

  /** Attempt `i` pauses for a retry once when it failed and is not the last attempt, and otherwise not at all. */
  lemma AttemptRetryPauses(outcome: Attempt, i: nat)
    ensures CountOf(AttemptPauses(outcome, i), RetryPause) == if !outcome.Received? && i < MaxAttempts - 1 then 1 else 0
  {
    var a := AttemptPauses(outcome, i);
    var retry := !outcome.Received? && i < MaxAttempts - 1;
    if outcome.RequestFailed? {
      if retry {
        assert a == [RetryPause] && a[..0] == [];
      } else {
        assert a == [];
      }
    } else {
      if retry {
        assert a == [ResponsePause, RetryPause] && a[..1] == [ResponsePause] && a[..1][..0] == [];
      } else {
        assert a == [ResponsePause] && a[..0] == [];
      }
    }
  }

  lemma {:induction false} FailedPauses(outcomes: seq<Attempt>, n: nat)
    requires n <= MaxAttempts <= |outcomes|
    requires forall j :: 0 <= j < n ==> !outcomes[j].Received?
    ensures CountOf(Pauses(outcomes, n), RetryPause) == if n == MaxAttempts then n - 1 else n
  {
    if n > 0 {
      FailedPauses(outcomes, n - 1);
      CountOfAppend(Pauses(outcomes, n - 1), AttemptPauses(outcomes[n - 1], n - 1), RetryPause);
      AttemptRetryPauses(outcomes[n - 1], n - 1);
    }
  }

  /** The ten-second pause follows every failed attempt except the last one, so a fetch that
      made `n` attempts paused for a retry exactly `n - 1` times. */
  lemma RetryPauseCount(outcomes: seq<Attempt>)
    requires MaxAttempts <= |outcomes|
    ensures CountOf(Retried(outcomes).pauses, RetryPause) == Retried(outcomes).attempts - 1
  {
    var k := FirstReceived(outcomes, 0);
    if k < MaxAttempts {
      FailedPauses(outcomes, k);
      CountOfAppend(Pauses(outcomes, k), AttemptPauses(outcomes[k], k), RetryPause);
    } else {
      FailedPauses(outcomes, MaxAttempts);
    }
  }

  /** The retry loop. `outcomes[i]` stands for what attempt `i` of the remote search produces. */
  method FetchWithRetry(outcomes: seq<Attempt>) returns (r: Fetched)
    requires MaxAttempts <= |outcomes|
    ensures r == Retried(outcomes)
  {
    var comments: seq<CommentRecord> := [];
    var pauses: seq<nat> := [];
    var i := 0;
    while i < MaxAttempts
      invariant 0 <= i <= MaxAttempts
      invariant forall j :: 0 <= j < i ==> !outcomes[j].Received?
      invariant pauses == Pauses(outcomes, i)
      invariant i == MaxAttempts ==> comments == []
    {
      var outcome := outcomes[i];
      if !outcome.RequestFailed? {
        pauses := pauses + [ResponsePause];
      }
      if outcome.Received? {
        comments := outcome.data;
        return Fetched(comments, i + 1, pauses);
      }
      if i == MaxAttempts - 1 {
        comments := [];
      } else {
        pauses := pauses + [RetryPause];
      }
      i := i + 1;
    }
    r := Fetched(comments, MaxAttempts, pauses);
  }

  /** A cached response for `user` is reused: it exists and is at most one week old at time `now`. */
  predicate IsFresh(entries: map<string, Entry>, user: string, now: real) {
    user in entries && now - entries[user].timestamp <= FreshnessWindow
  }

  /** The freshness window is inclusive: an entry exactly one week old is reused, one any older is not. */
  lemma FreshnessBoundary(entries: map<string, Entry>, user: string, e: Entry, age: real)
    ensures IsFresh(entries[user := e], user, e.timestamp + age) <==> age <= FreshnessWindow
  {
  }

  /** The comments a fetch for `user` at time `now` yields, given the cache contents. */
  function HistoryFor(entries: map<string, Entry>, user: string, now: real, outcomes: seq<Attempt>): seq<CommentRecord>
    requires MaxAttempts <= |outcomes|
  {
    if IsFresh(entries, user, now) then entries[user].response else Retried(outcomes).comments
  }

  /** The cache after a fetch for `user` at time `now` whose result, if any, is stored at time `storedAt`. */
  function CacheAfter(entries: map<string, Entry>, user: string, now: real, storedAt: real, outcomes: seq<Attempt>): (m: map<string, Entry>)
    requires MaxAttempts <= |outcomes|
    ensures m.Keys == entries.Keys + {user}
    ensures forall u :: u in entries && u != user ==> m[u] == entries[u]
    ensures IsFresh(entries, user, now) ==> m == entries
    ensures !IsFresh(entries, user, now) ==> m[user] == Entry(Retried(outcomes).comments, storedAt)
  {
    if IsFresh(entries, user, now) then entries
    else entries[user := Entry(Retried(outcomes).comments, storedAt)]
  }

  /** A second fetch for the same user within one week of the first refresh is served from the
      cache: no remote request, and the same comments. */
  lemma SecondFetchWithinWindow(entries: map<string, Entry>, user: string, now: real, storedAt: real,
                                later: real, first: seq<Attempt>, second: seq<Attempt>)
    requires MaxAttempts <= |first| && MaxAttempts <= |second|
    requires later - storedAt <= FreshnessWindow
    ensures var after := CacheAfter(entries, user, now, storedAt, first);
      IsFresh(entries, user, now) || IsFresh(after, user, later)
    ensures var after := CacheAfter(entries, user, now, storedAt, first);
      !IsFresh(entries, user, now) ==>
        HistoryFor(after, user, later, second) == HistoryFor(entries, user, now, first)
  {
  }

  /** The process-wide cache of fetched histories, keyed by user name. */
  class HistoryCache {
    var entries: map<string, Entry>

    constructor ()
      ensures entries == map[]
    {
      entries := map[];
    }

    /** Reuse a fresh entry, or run the retry loop and overwrite the entry (even with an empty
        result) stamped with `storedAt`, the clock reading taken after the loop. */
    method Fetch(user: string, now: real, storedAt: real, outcomes: seq<Attempt>) returns (r: Fetched)
      requires MaxAttempts <= |outcomes|
      modifies this
      ensures r.comments == HistoryFor(old(entries), user, now, outcomes)
      ensures entries == CacheAfter(old(entries), user, now, storedAt, outcomes)
      ensures old(IsFresh(entries, user, now)) ==> r.attempts == 0 && r.pauses == []
      ensures !old(IsFresh(entries, user, now)) ==> r == Retried(outcomes)
    {
      if user in entries && now - entries[user].timestamp <= FreshnessWindow {
        r := Fetched(entries[user].response, 0, []);
      } else {
        r := FetchWithRetry(outcomes);
        entries := entries[user := Entry(r.comments, storedAt)];
      }
    }
  }
}

/**
 * The challenge prefetch cache of frontend/src/services/api.js: one FIFO
 * queue of fetched challenges shared by every level and language, and one
 * "a preload is running" flag. Each HTTP `GET /challenge` is an oracle
 * outcome: `Ok(data)` or `Err`.
 *
 * `preloadChallenges` is an async function; each `await` is a point where
 * other code may run. `StartPreload` is its part up to the first `await`,
 * `PreloadStep` the part between one `await` and the next, so that callers
 * can interleave `GetChallenge` with a running preload.
 */
module ChallengeCache {
  import opened Optional

  /** The outcome of one `GET /challenge` request. */
  datatype Fetch<T> = Ok(data: T) | Err

  /** `count` when `preloadChallenges` is called without one. */
  const DefaultPreloadCount: nat := 6

  /**
   * The local state of a suspended `preloadChallenges` call: its arguments
   * and the loop counter `i` (the number of fetches already pushed).
   */
  datatype Campaign = Campaign(level: int, language: string, count: nat, done: nat)

  /**
   * What a preload pushes when the i-th fetch of the campaign has outcome
   * `fetch(i)` and at most `n` fetches are issued: the data of the longest
   * run of successful fetches from the first one.
   */
  function Fetched<T>(fetch: nat -> Fetch<T>, n: nat): (pushed: seq<T>)
    ensures |pushed| <= n
    decreases n
  {
    if n == 0 then []
    else
      var prev := Fetched(fetch, n - 1);
      if |prev| == n - 1 && fetch(n - 1).Ok? then prev + [fetch(n - 1).data] else prev
  }

  /** What is pushed is in fetch order: item j is the data of fetch j, and fetch j succeeded. */
  lemma {:induction false} FetchedInOrder<T>(fetch: nat -> Fetch<T>, n: nat)
    ensures forall j :: 0 <= j < |Fetched(fetch, n)| ==> fetch(j) == Ok(Fetched(fetch, n)[j])
    decreases n
  {
    if n > 0 {
      FetchedInOrder(fetch, n - 1);
    }
  }

  /** When every one of the n fetches succeeds, exactly n items are pushed. */
  lemma {:induction false} FetchedAllSucceed<T>(fetch: nat -> Fetch<T>, n: nat)
    requires forall i :: 0 <= i < n ==> fetch(i).Ok?
    ensures |Fetched(fetch, n)| == n
    decreases n
  {
    if n > 0 {
      FetchedAllSucceed(fetch, n - 1);
    }
  }

  /**
   * A failed fetch ends the campaign: whatever the number of fetches allowed
   * after it, the items pushed are those pushed before it, and there are at
   * most k of them.
   */
  lemma {:induction false} FetchedStopsAtError<T>(fetch: nat -> Fetch<T>, k: nat, n: nat)
    requires k <= n && (k < n ==> fetch(k).Err?)
    ensures Fetched(fetch, n) == Fetched(fetch, k)
    decreases n
  {
    if n > k {
      FetchedStopsAtError(fetch, k, n - 1);
      if n - 1 == k {
        assert fetch(n - 1).Err?;
      } else {
        assert |Fetched(fetch, k)| <= k < n - 1;
      }
    }
  }

  /** The module-level `challengeCache` object. */
  class Cache<T> {
    var items: seq<T>
    var isLoading: bool

    constructor()
      ensures items == [] && !isLoading
    {
      items := [];
      isLoading := false;
    }

    /**
     * `getChallenge(level, language)`: a queued challenge if there is one,
     * whatever the level and language asked for; otherwise the outcome of a
     * direct fetch, which leaves the queue alone. `fetch` is that outcome.
     */
    method GetChallenge(level: int, language: string, fetch: Fetch<T>) returns (r: Fetch<T>)
      modifies this`items
      ensures old(items) != [] ==> r == Ok(old(items)[0]) && items == old(items)[1..]
      ensures old(items) == [] ==> r == fetch && items == []
    {
      if |items| > 0 {
        r := Ok(items[0]);
        items := items[1..];
        return;
      }
      r := fetch;
    }

    /**
     * `preloadChallenges(level, language, count)` up to its first `await`:
     * nothing when a preload is already running; otherwise raise the flag and,
     * when the loop has at least one iteration, return the suspended campaign.
     * With no iteration the `finally` clause runs at once.
     */
    method StartPreload(level: int, language: string, count: int) returns (c: Option<Campaign>)
      modifies this`isLoading
      ensures old(isLoading) ==> c == None && isLoading
      ensures !old(isLoading) && count <= 0 ==> c == None && !isLoading
      ensures !old(isLoading) && count > 0 ==> c == Some(Campaign(level, language, count, 0)) && isLoading
    {
      if isLoading {
        return None;
      }
      isLoading := true;
      if count <= 0 {
        isLoading := false;
        return None;
      }
      c := Some(Campaign(level, language, count, 0));
    }

    /**
     * The campaign resumes with the outcome of its pending fetch: a success is
     * pushed to the back of the queue and the loop goes on or ends; a failure
     * is caught and ends the loop. Whenever the loop ends, the `finally`
     * clause lowers the flag.
     */
    method PreloadStep(c: Campaign, outcome: Fetch<T>) returns (next: Option<Campaign>)
      requires isLoading && c.done < c.count
      modifies this
      ensures outcome.Ok? ==> items == old(items) + [outcome.data]
      ensures outcome.Err? ==> items == old(items)
      ensures next == if outcome.Ok? && c.done + 1 < c.count then Some(c.(done := c.done + 1)) else None
      ensures isLoading <==> next.Some?
    {
      match outcome {
        case Err =>
          isLoading := false;
          next := None;
        case Ok(data) =>
          items := items + [data];
          if c.done + 1 < c.count {
            next := Some(c.(done := c.done + 1));
          } else {
            isLoading := false;
            next := None;
          }
      }
    }

    /**
     * A whole `preloadChallenges` call with no other code running between its
     * steps; fetch i of the campaign has outcome `fetch(i)`.
     */
    method PreloadChallenges(level: int, language: string, count: int, fetch: nat -> Fetch<T>)
      modifies this
      ensures old(isLoading) ==> items == old(items) && isLoading
      ensures !old(isLoading) ==> items == old(items) + Fetched(fetch, if count < 0 then 0 else count) && !isLoading
    {
      var n: nat := if count < 0 then 0 else count;
      var wasLoading := isLoading;
      var campaign := StartPreload(level, language, count);
      while campaign.Some?
        invariant campaign.Some? ==> !wasLoading && isLoading
        invariant campaign.Some? ==> campaign.value.count == n && campaign.value.done < n
        invariant campaign.Some? ==> |Fetched(fetch, campaign.value.done)| == campaign.value.done
        invariant campaign.Some? ==> items == old(items) + Fetched(fetch, campaign.value.done)
        invariant campaign.None? && wasLoading ==> items == old(items) && isLoading
        invariant campaign.None? && !wasLoading ==> items == old(items) + Fetched(fetch, n) && !isLoading
        decreases if campaign.Some? then n - campaign.value.done else 0
      {
        var c := campaign.value;
        campaign := PreloadStep(c, fetch(c.done));
        if fetch(c.done).Err? {
          FetchedStopsAtError(fetch, c.done, n);
        } else if campaign.None? {
          assert c.done + 1 == n;
        }
      }
    }

    /** `getCachedChallengeCount()`. */
    function GetCachedChallengeCount(): (n: nat)
      reads this
      ensures n == |items|
    {
      |items|
    }

    /** `isPreloadingChallenges()`. */
    function IsPreloadingChallenges(): (loading: bool)
      reads this
      ensures loading == isLoading
    {
      isLoading
    }
  }

  /**
   * Preloading three challenges and then asking for one: the first fetched
   * item comes back without a fetch and two stay queued.
   */
  method PreloadThenGet() {
    var cache := new Cache<string>();
    var outcomes := (i: nat) => Ok(if i == 0 then "first" else if i == 1 then "second" else "third");
    cache.PreloadChallenges(1, "python", 3, outcomes);
    FetchedAllSucceed(outcomes, 3);
    FetchedInOrder(outcomes, 3);
    assert cache.GetCachedChallengeCount() == 3 && !cache.IsPreloadingChallenges();
    var got := cache.GetChallenge(1, "python", Err);
    assert got == Ok("first");
    assert cache.GetCachedChallengeCount() == 2;
  }

  /**
   * A `getChallenge` for another level and language taking an item while a
   * preload is suspended, and a second preload refused while the first runs.
   */
  method InterleavedPreload() {
    var cache := new Cache<string>();
    var campaign := cache.StartPreload(1, "python", 2);
    var second := cache.StartPreload(2, "javascript", 5);
    assert second == None && cache.IsPreloadingChallenges();
    campaign := cache.PreloadStep(campaign.value, Ok("a"));
    var got := cache.GetChallenge(3, "java", Err);
    assert got == Ok("a") && cache.items == [];
    campaign := cache.PreloadStep(campaign.value, Ok("b"));
    assert campaign == None && !cache.IsPreloadingChallenges() && cache.items == ["b"];
  }
}

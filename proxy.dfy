/**
 * The proxy pool of the scraper: a round-robin selector over a list of
 * entries with a cursor, per-entry failure counts and last-use times, and a
 * periodic reshuffle. Time is an integer count of microseconds, the
 * resolution of Python's `datetime`; the clock reading and the outcome of
 * `random.shuffle` are parameters.
 */
module Proxy {
  import opened Text

  /** One `{"server", "failures", "last_used"}` dictionary of the pool. */
  datatype Entry = Entry(server: string, failures: nat, lastUsed: int)

  const Second: int := 1_000_000
  /** `rotation_interval`: ten minutes. */
  const RotationInterval: int := 600 * Second
  /** A new entry counts as last used five minutes before it was added. */
  const InitialAge: int := 300 * Second
  /** An entry must have been idle for more than two seconds. */
  const MinIdle: int := 2 * Second
  const MaxFailures: nat := 3

  /** The selection test: fewer than three failures and idle for more than two seconds. */
  predicate Eligible(e: Entry, now: int) {
    e.failures < MaxFailures && now - e.lastUsed > MinIdle
  }

  // ----- the shuffle -----

  /** A rearrangement of `0..n-1`: what `random.shuffle` may do to a list of length n. */
  predicate IsPermutation(perm: seq<nat>, n: nat) {
    && |perm| == n
    && (forall i :: 0 <= i < n ==> perm[i] < n)
    && (forall i, j :: 0 <= i < j < n ==> perm[i] != perm[j])
  }

  function Permute(ps: seq<Entry>, perm: seq<nat>): (r: seq<Entry>)
    requires IsPermutation(perm, |ps|)
    ensures |r| == |ps| && forall i :: 0 <= i < |ps| ==> r[i] == ps[perm[i]]
  {
    seq(|ps|, i requires 0 <= i < |ps| => ps[perm[i]])
  }

  function Elements(xs: seq<nat>): (r: set<nat>)
    ensures forall x :: x in r <==> x in xs
  {
    if xs == [] then {} else Elements(xs[..|xs| - 1]) + {xs[|xs| - 1]}
  }

  lemma {:induction false} ElementsOfDistinct(xs: seq<nat>)
    requires NoDuplicates(xs)
    ensures |Elements(xs)| == |xs|
  {
    if xs != [] {
      var init := xs[..|xs| - 1];
      ElementsOfDistinct(init);
      assert xs[|xs| - 1] !in init;
    }
  }

  function Below(n: nat): (r: set<nat>)
    ensures |r| == n && forall k: nat :: k in r <==> k < n
  {
    if n == 0 then {}
    else
      var b := Below(n - 1);
      assert n - 1 !in b;
      b + {n - 1}
  }

  /** n distinct positions below n are all of them. */
  lemma PermutationCovers(perm: seq<nat>, n: nat)
    requires IsPermutation(perm, n)
    ensures forall k :: 0 <= k < n ==> k in perm
  {
    ElementsOfDistinct(perm);
    var e := Elements(perm);
    var b := Below(n);
    assert e <= b;
    assert |b - e| == |b| - |e| == 0;
  }

  /** A shuffle neither loses nor invents an entry. */
  lemma PermuteKeepsEntries(ps: seq<Entry>, perm: seq<nat>)
    requires IsPermutation(perm, |ps|)
    ensures forall e :: e in Permute(ps, perm) <==> e in ps
  {
    var r := Permute(ps, perm);
    PermutationCovers(perm, |ps|);
    forall e | e in ps ensures e in r {
      var k :| 0 <= k < |ps| && ps[k] == e;
      assert k in perm;
      var i :| 0 <= i < |perm| && perm[i] == k;
      assert r[i] == e;
    }
  }

  // ----- the round-robin scan -----

  /**
   * The position the cursor reaches from `start` after `k` steps of
   * `(i + 1) % n`, for k up to one round.
   */
  function Slot(start: nat, k: nat, n: nat): (r: nat)
    requires start < n && k <= n
    ensures k < n ==> r < n
  {
    if start + k < n then start + k else start + k - n
  }

  lemma CursorStep(start: nat, k: nat, n: nat)
    requires start < n && k < n
    ensures Slot(start, k + 1, n) == (Slot(start, k, n) + 1) % n
  {
    var c := Slot(start, k, n);
    assert (c + 1) % n == if c + 1 < n then c + 1 else 0;
  }

  /**
   * The first offset k' >= k, below the pool size, whose entry
   * `Slot(start, k')` is eligible: the iteration of `get_next_proxy` that
   * returns.
   */
  function FirstEligibleOffset(ps: seq<Entry>, start: nat, now: int, k: nat): (r: Option<nat>)
    requires start < |ps| && k <= |ps|
    decreases |ps| - k
    ensures r.Some? ==> && k <= r.value < |ps|
                        && Eligible(ps[Slot(start, r.value, |ps|)], now)
                        && forall j :: k <= j < r.value ==> !Eligible(ps[Slot(start, j, |ps|)], now)
    ensures r.None? ==> forall j :: k <= j < |ps| ==> !Eligible(ps[Slot(start, j, |ps|)], now)
  {
    if k == |ps| then None
    else if Eligible(ps[Slot(start, k, |ps|)], now) then Some(k)
    else FirstEligibleOffset(ps, start, now, k + 1)
  }

  /** The scan visits every entry: it finds nothing only when no entry is eligible. */
  lemma ScanFindsAnyEligible(ps: seq<Entry>, start: nat, now: int)
    requires start < |ps|
    ensures FirstEligibleOffset(ps, start, now, 0).None? <==> forall i :: 0 <= i < |ps| ==> !Eligible(ps[i], now)
  {
    var n := |ps|;
    if FirstEligibleOffset(ps, start, now, 0).None? {
      forall i | 0 <= i < n ensures !Eligible(ps[i], now) {
        var j := if i >= start then i - start else i + n - start;
        assert Slot(start, j, n) == i;
      }
    }
  }

  /** A newly added entry can be picked at any later time, until it fails three times. */
  lemma NewEntryEligible(server: string, added: int, now: int)
    requires now >= added
    ensures Eligible(Entry(server, 0, added - InitialAge), now)
  {}

  function FirstWithServer(ps: seq<Entry>, server: string): (r: Option<nat>)
    ensures r.Some? ==> r.value < |ps| && ps[r.value].server == server
                        && forall j :: 0 <= j < r.value ==> ps[j].server != server
    ensures r.None? ==> forall j :: 0 <= j < |ps| ==> ps[j].server != server
  {
    if ps == [] then None
    else if ps[0].server == server then Some(0)
    else
      var r := FirstWithServer(ps[1..], server);
      assert forall j :: 1 <= j < |ps| ==> ps[j] == ps[1..][j - 1];
      if r.Some? then Some(r.value + 1) else None
  }

  class ProxyManager {
    var proxies: seq<Entry>
    var lastRotation: int
    var currentIndex: nat

    /** The cursor points into the pool, or is 0 while the pool is empty. */
    ghost predicate Valid()
      reads this
    {
      currentIndex == 0 || currentIndex < |proxies|
    }

    constructor (now: int)
      ensures Valid()
      ensures proxies == [] && lastRotation == now && currentIndex == 0
    {
      proxies := [];
      lastRotation := now;
      currentIndex := 0;
    }

    /** `add_proxy`: one more entry at the end, with no failures, last used five minutes ago. */
    method AddProxy(server: string, now: int)
      requires Valid()
      modifies this
      ensures Valid()
      ensures proxies == old(proxies) + [Entry(server, 0, now - InitialAge)]
      ensures lastRotation == old(lastRotation) && currentIndex == old(currentIndex)
    {
      proxies := proxies + [Entry(server, 0, now - InitialAge)];
    }

    /**
     * `get_next_proxy`: after the pool is reshuffled by `perm` (when ten
     * minutes have passed since the last reshuffle), the entries are
     * inspected from the cursor on, round the pool once; the first eligible
     * one is stamped with `now` and its server returned, and the cursor is
     * left just after it. Otherwise nothing is returned and the cursor is
     * back where it started.
     */
    method GetNextProxy(now: int, perm: seq<nat>) returns (r: Option<string>)
      requires Valid()
      requires IsPermutation(perm, |proxies|)
      modifies this
      ensures Valid()
      ensures old(proxies) == [] ==> r.None? && proxies == [] && currentIndex == old(currentIndex)
                                     && lastRotation == old(lastRotation)
      ensures old(proxies) != [] ==>
                var rotate := now - old(lastRotation) > RotationInterval;
                var ps := if rotate then Permute(old(proxies), perm) else old(proxies);
                var o := FirstEligibleOffset(ps, old(currentIndex), now, 0);
                && lastRotation == (if rotate then now else old(lastRotation))
                && (o.None? ==> r.None? && proxies == ps && currentIndex == old(currentIndex))
                && (o.Some? ==>
                      var i := Slot(old(currentIndex), o.value, |ps|);
                      && r == Some(ps[i].server)
                      && proxies == ps[i := ps[i].(lastUsed := now)]
                      && currentIndex == (i + 1) % |ps|)
    {
      if proxies == [] {
        return None;
      }
      if now - lastRotation > RotationInterval {
        proxies := Permute(proxies, perm);
        lastRotation := now;
      }
      r := Scan(now);
    }

    /** The loop of `get_next_proxy`: at most one round of the pool from the cursor. */
    method Scan(now: int) returns (r: Option<string>)
      requires proxies != [] && currentIndex < |proxies|
      modifies this
      ensures Valid() && lastRotation == old(lastRotation)
      ensures var ps := old(proxies);
              var o := FirstEligibleOffset(ps, old(currentIndex), now, 0);
              && (o.None? ==> r.None? && proxies == ps && currentIndex == old(currentIndex))
              && (o.Some? ==>
                    var i := Slot(old(currentIndex), o.value, |ps|);
                    && r == Some(ps[i].server)
                    && proxies == ps[i := ps[i].(lastUsed := now)]
                    && currentIndex == (i + 1) % |ps|)
    {
      var n := |proxies|;
      ghost var ps := proxies;
      ghost var start := currentIndex;
      var k := 0;
      while k < n
        invariant 0 <= k <= n && proxies == ps && lastRotation == old(lastRotation)
        invariant currentIndex == Slot(start, k, n)
        invariant FirstEligibleOffset(ps, start, now, k) == FirstEligibleOffset(ps, start, now, 0)
      {
        var i := currentIndex;
        var proxy := proxies[i];
        CursorStep(start, k, n);
        currentIndex := (currentIndex + 1) % n;
        if proxy.failures < MaxFailures && now - proxy.lastUsed > MinIdle {
          proxies := proxies[i := proxy.(lastUsed := now)];
          return Some(proxy.server);
        }
        k := k + 1;
      }
      r := None;
    }

    /**
     * `mark_proxy_failure`: the first entry with this server gets one more
     * failure; nothing is added, removed or reordered.
     */
    method MarkProxyFailure(server: string)
      requires Valid()
      modifies this
      ensures Valid()
      ensures lastRotation == old(lastRotation) && currentIndex == old(currentIndex)
      ensures |proxies| == |old(proxies)|
      ensures forall i :: 0 <= i < |proxies| ==> proxies[i].server == old(proxies)[i].server
      ensures var f := FirstWithServer(old(proxies), server);
              proxies == if f.None? then old(proxies)
                         else old(proxies)[f.value := old(proxies)[f.value].(failures := old(proxies)[f.value].failures + 1)]
    {
      var i := 0;
      while i < |proxies|
        invariant 0 <= i <= |proxies| && proxies == old(proxies)
        invariant forall j :: 0 <= j < i ==> proxies[j].server != server
      {
        if proxies[i].server == server {
          proxies := proxies[i := proxies[i].(failures := proxies[i].failures + 1)];
          return;
        }
        i := i + 1;
      }
    }
  }
}

/**
 The fixed-window rate limiters that stand in front of upload creation and of
 every PATCH (packages/server/src/routes/files.ts, lines 27-84), together with
 the periodic pruner that drops stale entries.

 Times are milliseconds read from one clock that never runs backwards.
 */
module RateLimiter {

  datatype Entry = Entry(count: nat, windowStart: int)

  type Counts = map<string, Entry>

  type Positive = n: nat | n > 0 witness 1

  /** At most `limit` grants in a window of `window` milliseconds. */
  datatype Rule = Rule(limit: Positive, window: nat) {
    predicate Stale(entry: Entry, now: int) {
      now - entry.windowStart > window
    }
  }

  const UPLOAD_CREATE := Rule(10, 60_000)
  const PATCH_PER_USER := Rule(1000, 60_000)

  // ---------------------------------------------------------------------
  // Specification of one check and of one pruner tick
  // ---------------------------------------------------------------------

  function Admit(rule: Rule, counts: Counts, user: string, now: int): (Counts, bool) {
    if user !in counts || rule.Stale(counts[user], now) then
      (counts[user := Entry(1, now)], true)
    else if counts[user].count >= rule.limit then
      (counts, false)
    else
      (counts[user := Entry(counts[user].count + 1, counts[user].windowStart)], true)
  }

  function Fresh(rule: Rule, counts: Counts, now: int): Counts {
    map user | user in counts && !rule.Stale(counts[user], now) :: counts[user]
  }

  // ---------------------------------------------------------------------
  // The limiter as the server keeps it: one map, updated and pruned in place
  // ---------------------------------------------------------------------

  class Limiter {
    const rule: Rule
    var counts: Counts

    constructor (rule: Rule)
      ensures this.rule == rule && counts == map[]
    {
      this.rule := rule;
      counts := map[];
    }

    method Check(user: string, now: int) returns (granted: bool)
      modifies this
      ensures (counts, granted) == Admit(rule, old(counts), user, now)
    {
      if user !in counts || now - counts[user].windowStart > rule.window {
        counts := counts[user := Entry(1, now)];
        return true;
      }
      var entry := counts[user];
      if entry.count >= rule.limit {
        return false;
      }
      counts := counts[user := entry.(count := entry.count + 1)];
      return true;
    }

    method Prune(now: int)
      modifies this
      ensures counts == Fresh(rule, old(counts), now)
    {
      var todo := counts.Keys;
      while todo != {}
        invariant todo <= counts.Keys <= old(counts).Keys
        invariant forall user :: user in counts ==> counts[user] == old(counts)[user]
        invariant forall user :: user in old(counts) - todo ==>
                                   (user in counts <==> !rule.Stale(old(counts)[user], now))
        decreases todo
      {
        var user :| user in todo;
        if now - counts[user].windowStart > rule.window {
          counts := counts - {user};
        }
        todo := todo - {user};
      }
    }
  }

  // ---------------------------------------------------------------------
  // Timed traces
  // ---------------------------------------------------------------------

  datatype Event =
    | Request(user: string, at: int)
    | PruneTick(at: int)

  ghost predicate Chronological(trace: seq<Event>) {
    forall i, j :: 0 <= i < j < |trace| ==> trace[i].at <= trace[j].at
  }

  /** One event's effect on the map; with `pruning` off, pruner ticks do nothing. */
  ghost function Next(rule: Rule, pruning: bool, counts: Counts, event: Event): Counts {
    match event
    case Request(user, at) => Admit(rule, counts, user, at).0
    case PruneTick(at) => if pruning then Fresh(rule, counts, at) else counts
  }

  ghost function After(rule: Rule, pruning: bool, trace: seq<Event>): Counts {
    if trace == [] then map[]
    else Next(rule, pruning, After(rule, pruning, trace[..|trace| - 1]), trace[|trace| - 1])
  }

  /** The answer given to the request at position `k`. */
  ghost predicate Granted(rule: Rule, pruning: bool, trace: seq<Event>, k: nat)
    requires k < |trace| && trace[k].Request?
  {
    Admit(rule, After(rule, pruning, trace[..k]), trace[k].user, trace[k].at).1
  }

  /** What an event adds to the grants of `user`. */
  ghost function NewGrants(rule: Rule, counts: Counts, event: Event, user: string): seq<int> {
    if event.Request? && event.user == user && Admit(rule, counts, user, event.at).1 then [event.at] else []
  }

  /** The times at which `user` was granted, in order. */
  ghost function GrantTimes(rule: Rule, pruning: bool, trace: seq<Event>, user: string): seq<int> {
    if trace == [] then
      []
    else
      var before, last := trace[..|trace| - 1], trace[|trace| - 1];
      GrantTimes(rule, pruning, before, user) + NewGrants(rule, After(rule, pruning, before), last, user)
  }

  // ---------------------------------------------------------------------
  // The pruner is invisible
  // ---------------------------------------------------------------------

  /** The two maps differ only in entries that are already stale. */
  ghost predicate SameButStale(rule: Rule, pruned: Counts, full: Counts, now: int) {
    && (forall user :: user in pruned ==> user in full && pruned[user] == full[user])
    && (forall user :: user in full && user !in pruned ==> rule.Stale(full[user], now))
  }

  lemma {:induction false} PrunedAndFullAgree(rule: Rule, trace: seq<Event>, now: int)
    requires Chronological(trace)
    requires forall i :: 0 <= i < |trace| ==> trace[i].at <= now
    ensures SameButStale(rule, After(rule, true, trace), After(rule, false, trace), now)
  {
    if trace != [] {
      var n := |trace| - 1;
      PrunedAndFullAgree(rule, trace[..n], trace[n].at);
    }
  }

  /**
   Whatever the trace, a server that prunes and one that never prunes answer
   every request alike.
   */
  lemma {:induction false} PrunerInvisible(rule: Rule, trace: seq<Event>, k: nat)
    requires Chronological(trace)
    requires k < |trace| && trace[k].Request?
    ensures Granted(rule, true, trace, k) == Granted(rule, false, trace, k)
  {
    PrunedAndFullAgree(rule, trace[..k], trace[k].at);
  }

  // ---------------------------------------------------------------------
  // How many grants fit in any interval of one window's length
  // ---------------------------------------------------------------------

  ghost predicate Sorted(times: seq<int>) {
    forall i, j :: 0 <= i < j < |times| ==> times[i] <= times[j]
  }

  /** How many of `times` lie in the closed interval from `lo` to `hi`. */
  ghost function Within(times: seq<int>, lo: int, hi: int): nat {
    if times == [] then
      0
    else
      var n := |times| - 1;
      Within(times[..n], lo, hi) + if lo <= times[n] <= hi then 1 else 0
  }

  /**
   What one user's entry says about that user's grants so far: the entry counts
   exactly the grants of the open window, and every grant a full limit further
   back is out of the open window's reach.
   */
  ghost predicate Tracks(rule: Rule, counts: Counts, user: string, grants: seq<int>, now: int) {
    && Sorted(grants)
    && (forall i :: 0 <= i < |grants| ==> grants[i] <= now)
    && if user in counts then
         TracksOpen(rule, counts[user], grants)
       else
         && (forall i :: 0 <= i < |grants| ==> grants[i] < now)
         && (forall i :: 0 <= i < |grants| && i <= |grants| - rule.limit ==> grants[i] < now - rule.window)
  }

  ghost predicate TracksOpen(rule: Rule, entry: Entry, grants: seq<int>) {
    var start := |grants| - entry.count;
    && 1 <= entry.count <= rule.limit && 0 <= start
    && grants[start] == entry.windowStart
    && grants[|grants| - 1] <= entry.windowStart + rule.window
    && (forall i :: 0 <= i < start ==> grants[i] < entry.windowStart)
    && (forall i :: 0 <= i <= start - rule.limit ==> grants[i] < entry.windowStart - rule.window)
  }

  /** Any two grants `2 * limit - 1` positions apart are more than a window apart. */
  ghost predicate Spaced(rule: Rule, grants: seq<int>) {
    forall i, j :: 0 <= i && i + 2 * rule.limit - 1 <= j < |grants| ==> grants[j] - grants[i] > rule.window
  }

  lemma OneMoreGrant(rule: Rule, counts: Counts, user: string, grants: seq<int>, was: int, now: int)
    requires was <= now && Tracks(rule, counts, user, grants, was)
    requires Admit(rule, counts, user, now).1
    ensures Tracks(rule, Admit(rule, counts, user, now).0, user, grants + [now], now)
  {
  }

  lemma OneMoreIsSpaced(rule: Rule, counts: Counts, user: string, grants: seq<int>, was: int, now: int)
    requires was <= now && Tracks(rule, counts, user, grants, was) && Spaced(rule, grants)
    requires Admit(rule, counts, user, now).1
    ensures Spaced(rule, grants + [now])
  {
  }

  lemma NoNewGrant(rule: Rule, pruning: bool, counts: Counts, user: string, grants: seq<int>, was: int, event: Event)
    requires was <= event.at && Tracks(rule, counts, user, grants, was)
    requires NewGrants(rule, counts, event, user) == []
    ensures Tracks(rule, Next(rule, pruning, counts, event), user, grants, event.at)
  {
  }

  lemma {:induction false} GrantsAreTracked(rule: Rule, pruning: bool, trace: seq<Event>, user: string, now: int)
    requires Chronological(trace)
    requires forall i :: 0 <= i < |trace| ==> trace[i].at <= now
    ensures Tracks(rule, After(rule, pruning, trace), user, GrantTimes(rule, pruning, trace, user), now)
  {
    if trace != [] {
      var before, last := trace[..|trace| - 1], trace[|trace| - 1];
      var counts, grants := After(rule, pruning, before), GrantTimes(rule, pruning, before, user);
      GrantsAreTracked(rule, pruning, before, user, last.at);
      if NewGrants(rule, counts, last, user) == [] {
        NoNewGrant(rule, pruning, counts, user, grants, last.at, last);
        assert grants + [] == grants;
      } else {
        OneMoreGrant(rule, counts, user, grants, last.at, last.at);
      }
      Later(rule, After(rule, pruning, trace), user, GrantTimes(rule, pruning, trace, user), last.at, now);
    }
  }

  lemma {:induction false} GrantsAreSpaced(rule: Rule, pruning: bool, trace: seq<Event>, user: string)
    requires Chronological(trace)
    ensures Spaced(rule, GrantTimes(rule, pruning, trace, user))
  {
    if trace != [] {
      var before, last := trace[..|trace| - 1], trace[|trace| - 1];
      var counts, grants := After(rule, pruning, before), GrantTimes(rule, pruning, before, user);
      GrantsAreSpaced(rule, pruning, before, user);
      if NewGrants(rule, counts, last, user) == [] {
        assert grants + [] == grants;
      } else {
        GrantsAreTracked(rule, pruning, before, user, last.at);
        OneMoreIsSpaced(rule, counts, user, grants, last.at, last.at);
      }
    }
  }

  lemma Later(rule: Rule, counts: Counts, user: string, grants: seq<int>, was: int, now: int)
    requires was <= now && Tracks(rule, counts, user, grants, was)
    ensures Tracks(rule, counts, user, grants, now)
  {
  }

  /** The count is within the limit and is the number of grants in the entry's own window. */
  ghost predicate CountIsExact(rule: Rule, entry: Entry, grants: seq<int>) {
    entry.count <= rule.limit && entry.count == Within(grants, entry.windowStart, entry.windowStart + rule.window)
  }

  lemma TrackedCountIsExact(rule: Rule, entry: Entry, grants: seq<int>)
    requires Sorted(grants) && TracksOpen(rule, entry, grants)
    ensures CountIsExact(rule, entry, grants)
  {
    WithinSuffix(grants, entry.windowStart, entry.windowStart + rule.window, |grants| - entry.count);
  }

  /** No window grants more than the limit, and no entry ever miscounts. */
  lemma WindowNeverOverfull(rule: Rule, pruning: bool, trace: seq<Event>, user: string)
    requires Chronological(trace)
    ensures var counts := After(rule, pruning, trace);
            user in counts ==> CountIsExact(rule, counts[user], GrantTimes(rule, pruning, trace, user))
  {
    var counts, grants := After(rule, pruning, trace), GrantTimes(rule, pruning, trace, user);
    if trace != [] {
      var now := trace[|trace| - 1].at;
      GrantsAreTracked(rule, pruning, trace, user, now);
      TrackedEntryIsExact(rule, counts, user, grants, now);
    }
  }

  lemma TrackedEntryIsExact(rule: Rule, counts: Counts, user: string, grants: seq<int>, now: int)
    requires Tracks(rule, counts, user, grants, now)
    ensures user in counts ==> CountIsExact(rule, counts[user], grants)
  {
    if user in counts {
      TrackedCountIsExact(rule, counts[user], grants);
    }
  }

  lemma {:induction false} WithinSuffix(times: seq<int>, lo: int, hi: int, from: nat)
    requires Sorted(times) && from <= |times|
    requires forall i :: 0 <= i < from ==> times[i] < lo
    requires forall i :: from <= i < |times| ==> times[i] >= lo
    ensures Within(times, lo, hi) <= |times| - from
    ensures (forall i :: from <= i < |times| ==> times[i] <= hi) ==> Within(times, lo, hi) == |times| - from
  {
    if times != [] {
      var n := |times| - 1;
      WithinSuffix(times[..n], lo, hi, if from <= n then from else n);
    }
  }

  lemma FirstFrom(times: seq<int>, lo: int) returns (from: nat)
    requires Sorted(times)
    ensures from <= |times|
    ensures forall i :: 0 <= i < from ==> times[i] < lo
    ensures forall i :: from <= i < |times| ==> times[i] >= lo
  {
    from := 0;
    while from < |times| && times[from] < lo
      invariant 0 <= from <= |times|
      invariant forall i :: 0 <= i < from ==> times[i] < lo
    {
      from := from + 1;
    }
  }

  lemma {:induction false} SpacedBoundsWithin(rule: Rule, grants: seq<int>, lo: int)
    requires Sorted(grants) && Spaced(rule, grants)
    ensures Within(grants, lo, lo + rule.window) <= 2 * rule.limit - 1
  {
    var n := |grants| - 1;
    if grants != [] && grants[n] > lo + rule.window {
      SpacedBoundsWithin(rule, grants[..n], lo);
    } else {
      var from := FirstFrom(grants, lo);
      WithinSuffix(grants, lo, lo + rule.window, from);
      assert from <= n ==> grants[n] - grants[from] <= rule.window;
    }
  }

  /**
   On every trace, no closed interval as long as the window holds more than
   `2 * limit - 1` grants to one user.
   */
  lemma GrantsPerInterval(rule: Rule, pruning: bool, trace: seq<Event>, user: string, lo: int)
    requires Chronological(trace)
    ensures Within(GrantTimes(rule, pruning, trace, user), lo, lo + rule.window) <= 2 * rule.limit - 1
  {
    if trace != [] {
      GrantsAreTracked(rule, pruning, trace, user, trace[|trace| - 1].at);
      GrantsAreSpaced(rule, pruning, trace, user);
      SpacedBoundsWithin(rule, GrantTimes(rule, pruning, trace, user), lo);
    }
  }

  /** A request is refused only after `limit` grants to that user within the last window's length. */
  lemma RefusedOnlyWhenBusy(rule: Rule, pruning: bool, trace: seq<Event>, k: nat)
    requires Chronological(trace)
    requires k < |trace| && trace[k].Request? && !Granted(rule, pruning, trace, k)
    ensures var now := trace[k].at;
            Within(GrantTimes(rule, pruning, trace[..k], trace[k].user), now - rule.window, now) >= rule.limit
  {
    var user, now := trace[k].user, trace[k].at;
    GrantsAreTracked(rule, pruning, trace[..k], user, now);
    FullEntryIsBusy(rule, After(rule, pruning, trace[..k]), user, GrantTimes(rule, pruning, trace[..k], user), now);
  }

  lemma FullEntryIsBusy(rule: Rule, counts: Counts, user: string, grants: seq<int>, now: int)
    requires Tracks(rule, counts, user, grants, now) && !Admit(rule, counts, user, now).1
    ensures Within(grants, now - rule.window, now) >= rule.limit
  {
    WithinAtLeast(grants, now - rule.window, now, |grants| - rule.limit);
  }

  lemma {:induction false} WithinAtLeast(times: seq<int>, lo: int, hi: int, from: nat)
    requires from <= |times|
    requires forall i :: from <= i < |times| ==> lo <= times[i] <= hi
    ensures Within(times, lo, hi) >= |times| - from
  {
    if from < |times| {
      WithinAtLeast(times[..|times| - 1], lo, hi, from);
    }
  }

  /**
   A request is granted exactly when its user has no entry, when the entry's
   window is over, or when fewer than `limit` grants fall into that window.
   */
  lemma GrantedIff(rule: Rule, pruning: bool, trace: seq<Event>, k: nat)
    requires Chronological(trace)
    requires k < |trace| && trace[k].Request?
    ensures var user, now, counts := trace[k].user, trace[k].at, After(rule, pruning, trace[..k]);
            Granted(rule, pruning, trace, k) <==>
              || user !in counts || now > counts[user].windowStart + rule.window
              || Within(GrantTimes(rule, pruning, trace[..k], user), counts[user].windowStart, counts[user].windowStart + rule.window) < rule.limit
  {
    WindowNeverOverfull(rule, pruning, trace[..k], trace[k].user);
  }

  // ---------------------------------------------------------------------
  // What the pruner leaves
  // ---------------------------------------------------------------------

  /** A tick drops a user's entry exactly when its window is over, and changes no other. */
  lemma PruneIsExact(rule: Rule, counts: Counts, now: int, user: string)
    ensures var left := Fresh(rule, counts, now);
            && (user in left <==> user in counts && now <= counts[user].windowStart + rule.window)
            && (user in left ==> left[user] == counts[user])
  {
  }

  /** After a tick the map holds only users who were granted within the last window's length. */
  lemma EntriesAreRecent(rule: Rule, trace: seq<Event>, user: string)
    requires Chronological(trace) && trace != [] && trace[|trace| - 1].PruneTick?
    requires user in After(rule, true, trace)
    ensures exists i :: 0 <= i < |trace| && trace[i].Request? && trace[i].user == user && Granted(rule, true, trace, i)
                        && trace[|trace| - 1].at - trace[i].at <= rule.window
  {
    var n := |trace| - 1;
    PruneIsExact(rule, After(rule, true, trace[..n]), trace[n].at, user);
    WindowWasOpened(rule, true, trace, n, user);
  }

  /** An entry's window starts with a granted request of its user. */
  lemma {:induction false} WindowWasOpened(rule: Rule, pruning: bool, trace: seq<Event>, n: nat, user: string)
    requires n <= |trace| && user in After(rule, pruning, trace[..n])
    ensures exists i :: 0 <= i < n && trace[i].Request? && trace[i].user == user && Granted(rule, pruning, trace, i)
                        && trace[i].at == After(rule, pruning, trace[..n])[user].windowStart
  {
    assert n > 0;
    var before := After(rule, pruning, trace[..n - 1]);
    assert trace[..n][..n - 1] == trace[..n - 1];
    if user in before && After(rule, pruning, trace[..n])[user].windowStart == before[user].windowStart {
      WindowWasOpened(rule, pruning, trace, n - 1, user);
    } else {
      assert trace[n - 1].Request? && trace[n - 1].user == user && Granted(rule, pruning, trace, n - 1);
    }
  }

  // ---------------------------------------------------------------------
  // The bound is reached
  // ---------------------------------------------------------------------

  ghost function Repeated<T>(x: T, n: nat): (r: seq<T>)
    ensures |r| == n && forall i :: 0 <= i < n ==> r[i] == x
  {
    if n == 0 then [] else Repeated(x, n - 1) + [x]
  }

  ghost function Burst(user: string, at: int, n: nat): seq<Event> {
    Repeated(Request(user, at), n)
  }

  /** One request at 0, the rest of that window at its last instant, then a full new window. */
  ghost function WorstCase(rule: Rule, user: string): seq<Event> {
    [Request(user, 0)] + Burst(user, rule.window, rule.limit - 1) + Burst(user, rule.window + 1, rule.limit)
  }

  /** After `trace` the map holds `entry` for `user`, who has been granted at `grants`. */
  ghost predicate Stands(rule: Rule, pruning: bool, trace: seq<Event>, user: string, entry: Entry, grants: seq<int>) {
    && user in After(rule, pruning, trace)
    && After(rule, pruning, trace)[user] == entry
    && GrantTimes(rule, pruning, trace, user) == grants
  }

  lemma RequestIsGranted(rule: Rule, pruning: bool, trace: seq<Event>, user: string, entry: Entry, grants: seq<int>, at: int)
    requires Stands(rule, pruning, trace, user, entry, grants)
    requires rule.Stale(entry, at) || entry.count < rule.limit
    ensures Stands(rule, pruning, trace + [Request(user, at)], user,
                   if rule.Stale(entry, at) then Entry(1, at) else Entry(entry.count + 1, entry.windowStart), grants + [at])
  {
  }

  lemma OneMoreRepeated<T>(prefix: seq<T>, x: T, n: nat)
    ensures prefix + Repeated(x, n + 1) == prefix + Repeated(x, n) + [x]
  {
  }

  lemma {:induction false} BurstIsGranted(rule: Rule, pruning: bool, trace: seq<Event>, user: string, entry: Entry, grants: seq<int>, at: int, n: nat)
    requires Stands(rule, pruning, trace, user, entry, grants)
    requires !rule.Stale(entry, at) && entry.count + n <= rule.limit
    ensures Stands(rule, pruning, trace + Repeated(Request(user, at), n), user,
                   Entry(entry.count + n, entry.windowStart), grants + Repeated(at, n))
  {
    hide Stands;
    if n == 0 {
      assert trace + [] == trace && grants + [] == grants;
    } else {
      var shorter, fewer := trace + Repeated(Request(user, at), n - 1), grants + Repeated(at, n - 1);
      BurstIsGranted(rule, pruning, trace, user, entry, grants, at, n - 1);
      RequestIsGranted(rule, pruning, shorter, user, Entry(entry.count + n - 1, entry.windowStart), fewer, at);
      OneMoreRepeated(trace, Request(user, at), n - 1);
      OneMoreRepeated(grants, at, n - 1);
    }
  }

  lemma FirstRequest(rule: Rule, pruning: bool, user: string)
    ensures Stands(rule, pruning, [Request(user, 0)], user, Entry(1, 0), [0])
  {
  }

  /** A full window that opens after `entry` went stale. */
  lemma SecondWindow(rule: Rule, pruning: bool, trace: seq<Event>, user: string, entry: Entry, grants: seq<int>, at: int)
    requires Stands(rule, pruning, trace, user, entry, grants) && rule.Stale(entry, at)
    ensures Stands(rule, pruning, trace + Burst(user, at, rule.limit), user, Entry(rule.limit, at),
                   grants + Repeated(at, rule.limit))
  {
    var one := trace + [Request(user, at)];
    RequestIsGranted(rule, pruning, trace, user, entry, grants, at);
    BurstIsGranted(rule, pruning, one, user, Entry(1, at), grants + [at], at, rule.limit - 1);
    assert one + Burst(user, at, rule.limit - 1) == trace + Burst(user, at, rule.limit);
    assert grants + [at] + Repeated(at, rule.limit - 1) == grants + Repeated(at, rule.limit);
  }

  lemma FirstWindow(rule: Rule, pruning: bool, user: string)
    ensures Stands(rule, pruning, [Request(user, 0)] + Burst(user, rule.window, rule.limit - 1), user,
                   Entry(rule.limit, 0), [0] + Repeated(rule.window, rule.limit - 1))
  {
    FirstRequest(rule, pruning, user);
    BurstIsGranted(rule, pruning, [Request(user, 0)], user, Entry(1, 0), [0], rule.window, rule.limit - 1);
  }

  lemma WorstCaseGrants(rule: Rule, pruning: bool, user: string)
    ensures Stands(rule, pruning, WorstCase(rule, user), user, Entry(rule.limit, rule.window + 1),
                   [0] + Repeated(rule.window, rule.limit - 1) + Repeated(rule.window + 1, rule.limit))
  {
    FirstWindow(rule, pruning, user);
    SecondWindow(rule, pruning, [Request(user, 0)] + Burst(user, rule.window, rule.limit - 1), user,
                 Entry(rule.limit, 0), [0] + Repeated(rule.window, rule.limit - 1), rule.window + 1);
  }

  lemma WorstCaseIsChronological(rule: Rule, user: string)
    ensures Chronological(WorstCase(rule, user))
  {
  }

  lemma WorstCaseCount(rule: Rule, grants: seq<int>)
    requires rule.window >= 1
    requires grants == [0] + Repeated(rule.window, rule.limit - 1) + Repeated(rule.window + 1, rule.limit)
    ensures Within(grants, 1, 1 + rule.window) == 2 * rule.limit - 1
  {
    WithinSuffix(grants, 1, 1 + rule.window, 1);
  }

  /** The bound of `GrantsPerInterval` cannot be lowered, whatever the rule. */
  lemma BoundIsReached(rule: Rule, pruning: bool, user: string)
    requires rule.window >= 1
    ensures Chronological(WorstCase(rule, user))
    ensures Within(GrantTimes(rule, pruning, WorstCase(rule, user), user), 1, 1 + rule.window) == 2 * rule.limit - 1
  {
    WorstCaseIsChronological(rule, user);
    WorstCaseGrants(rule, pruning, user);
    WorstCaseCount(rule, GrantTimes(rule, pruning, WorstCase(rule, user), user));
  }
}

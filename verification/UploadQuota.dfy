/**
 What admission control promises over whole runs: stored plus reserved bytes
 stay within the user's quota, no day's rows pass the daily limit, the disk
 keeps its safety reserve, and the second check at finish never turns an
 admitted upload away.
 */
module UploadQuota {
  import opened Totals
  import opened UploadAdmission
  import RateLimiter

  // ---------------------------------------------------------------------
  // The invariant
  // ---------------------------------------------------------------------

  ghost predicate WithinQuota(lim: Limits, s: Store, user: string) {
    Total(s.rows, RowsOf(user)) + Total(s.reserved, ReservedBy(user)) <= lim.maxUserBytes
  }

  /** The day that ends now holds no more than the limit, live reservations included. */
  ghost predicate WithinToday(lim: Limits, s: Store, user: string) {
    Total(s.rows, RowsSince(user, s.clock - DAY)) + Total(s.reserved, ReservedBy(user)) <= lim.maxDailyBytes
  }

  /** No day, whenever it starts, holds more rows than the limit. */
  ghost predicate WithinEveryDay(lim: Limits, s: Store, user: string) {
    forall from :: Total(s.rows, RowsDuring(user, from)) <= lim.maxDailyBytes
  }

  ghost predicate WithinLimits(lim: Limits, s: Store, user: string) {
    WithinQuota(lim, s, user) && WithinToday(lim, s, user) && WithinEveryDay(lim, s, user)
  }

  /** Writing all that is still promised leaves the safety reserve untouched. */
  ghost predicate DiskSafe(lim: Limits, s: Store) {
    s.free - Total(s.reserved, Unwritten(s.staged)) >= lim.minFreeBytes
  }

  ghost predicate Consistent(s: Store) {
    && (forall id :: id in s.staged ==> s.staged[id].written <= s.staged[id].size)
    && (forall id :: id in s.staged && id in s.reserved ==>
                       s.reserved[id].user == s.staged[id].user && s.reserved[id].size == s.staged[id].size)
  }

  ghost predicate Limited(lim: Limits, s: Store) {
    Consistent(s) && forall user :: WithinLimits(lim, s, user)
  }

  ghost predicate Safe(lim: Limits, s: Store) {
    Limited(lim, s) && DiskSafe(lim, s)
  }

  /**
   What the run assumes of an event: the clock does not run backwards, ids are
   fresh, and an upload that is committed still holds its reservation.
   */
  ghost predicate Honours(s: Store, e: Event) {
    && s.clock <= e.at
    && match e
       case Create(upload, _, _, _, _) => upload !in s.reserved && upload !in s.staged && upload !in s.finishing
       case Commit(upload, row, inserted, _) =>
         inserted && upload in s.finishing && upload in s.staged ==> upload in s.reserved && row !in s.rows
       case _ => true
  }

  ghost predicate HonoursAll(lim: Limits, start: Store, trace: seq<Event>) {
    trace != [] ==>
      var n := |trace| - 1;
      HonoursAll(lim, start, trace[..n]) && Honours(After(lim, start, trace[..n]), trace[n])
  }

  /** What the disk reserve needs besides: only uploads with a reservation are written to. */
  ghost predicate WritesReserved(s: Store, e: Event) {
    e.Write? && e.upload in s.staged ==> e.upload in s.reserved
  }

  ghost predicate AllWritesReserved(lim: Limits, start: Store, trace: seq<Event>) {
    trace != [] ==>
      var n := |trace| - 1;
      AllWritesReserved(lim, start, trace[..n]) && WritesReserved(After(lim, start, trace[..n]), trace[n])
  }

  // ---------------------------------------------------------------------
  // One user's bytes
  // ---------------------------------------------------------------------

  lemma TodayShrinks(rows: map<string, Row>, user: string, was: int, now: int)
    requires was <= now
    ensures Total(rows, RowsSince(user, now - DAY)) <= Total(rows, RowsSince(user, was - DAY))
  {
    TotalMonotone(rows, RowsSince(user, now - DAY), RowsSince(user, was - DAY));
  }

  lemma CreateKeepsUser(lim: Limits, s: Store, e: Event, user: string)
    requires e.Create? && Honours(s, e)
    requires WithinLimits(lim, s, user)
    ensures WithinLimits(lim, Next(lim, s, e), user)
  {
    TodayShrinks(s.rows, user, s.clock, e.at);
    if Next(lim, s, e).reserved != s.reserved {
      TotalInsert(s.reserved, e.upload, Reservation(e.user, e.size.value, e.at), ReservedBy(user));
    }
  }

  lemma PruneKeepsUser(lim: Limits, s: Store, e: Event, user: string)
    requires e.Prune? && Honours(s, e)
    requires WithinLimits(lim, s, user)
    ensures WithinLimits(lim, Next(lim, s, e), user)
  {
    TodayShrinks(s.rows, user, s.clock, e.at);
    TotalSubmap(Next(lim, s, e).reserved, s.reserved, ReservedBy(user));
  }

  lemma DeleteKeepsUser(lim: Limits, s: Store, e: Event, user: string)
    requires e.DeleteRow? && Honours(s, e)
    requires WithinLimits(lim, s, user)
    ensures WithinLimits(lim, Next(lim, s, e), user)
  {
    var t := Next(lim, s, e);
    TodayShrinks(s.rows, user, s.clock, e.at);
    TotalSubmap(t.rows, s.rows, RowsOf(user));
    TotalSubmap(t.rows, s.rows, RowsSince(user, e.at - DAY));
    forall from {
      TotalSubmap(t.rows, s.rows, RowsDuring(user, from));
    }
  }

  /** A commit that takes effect moves the reserved bytes into a row. */
  lemma CommitMovesBytes(lim: Limits, s: Store, e: Event, user: string)
    requires e.Commit? && e.inserted && Honours(s, e) && Consistent(s)
    requires e.upload in s.finishing && e.upload in s.staged
    ensures var t, bytes := Next(lim, s, e), ReservedBy(user)(e.upload, s.reserved[e.upload]);
            && Total(t.reserved, ReservedBy(user)) + bytes == Total(s.reserved, ReservedBy(user))
            && Total(t.rows, RowsOf(user)) == Total(s.rows, RowsOf(user)) + bytes
            && Total(t.rows, RowsSince(user, e.at - DAY)) == Total(s.rows, RowsSince(user, e.at - DAY)) + bytes
  {
    var row := Row(s.staged[e.upload].user, s.staged[e.upload].size, e.at);
    TotalSplit(s.reserved, e.upload, ReservedBy(user));
    TotalInsert(s.rows, e.row, row, RowsOf(user));
    TotalInsert(s.rows, e.row, row, RowsSince(user, e.at - DAY));
  }

  lemma CommitKeepsDay(lim: Limits, s: Store, e: Event, user: string, from: int)
    requires e.Commit? && e.inserted && Honours(s, e) && Consistent(s)
    requires e.upload in s.finishing && e.upload in s.staged
    requires WithinToday(lim, s, user) && Total(s.rows, RowsDuring(user, from)) <= lim.maxDailyBytes
    ensures Total(Next(lim, s, e).rows, RowsDuring(user, from)) <= lim.maxDailyBytes
  {
    var row := Row(s.staged[e.upload].user, s.staged[e.upload].size, e.at);
    TotalInsert(s.rows, e.row, row, RowsDuring(user, from));
    if row.user == user && from <= e.at <= from + DAY {
      TodayShrinks(s.rows, user, s.clock, e.at);
      TotalMonotone(s.rows, RowsDuring(user, from), RowsSince(user, e.at - DAY));
      TotalSplit(s.reserved, e.upload, ReservedBy(user));
    }
  }

  lemma CommitKeepsEveryDay(lim: Limits, s: Store, e: Event, user: string)
    requires e.Commit? && Honours(s, e) && Consistent(s) && WithinLimits(lim, s, user)
    ensures WithinEveryDay(lim, Next(lim, s, e), user)
  {
    if e.inserted && e.upload in s.finishing && e.upload in s.staged {
      forall from ensures Total(Next(lim, s, e).rows, RowsDuring(user, from)) <= lim.maxDailyBytes {
        CommitKeepsDay(lim, s, e, user, from);
      }
    }
  }

  lemma CommitKeepsUser(lim: Limits, s: Store, e: Event, user: string)
    requires e.Commit? && Honours(s, e) && Consistent(s)
    requires WithinLimits(lim, s, user)
    ensures WithinLimits(lim, Next(lim, s, e), user)
  {
    TodayShrinks(s.rows, user, s.clock, e.at);
    CommitKeepsEveryDay(lim, s, e, user);
    hide WithinEveryDay;
    if e.inserted && e.upload in s.finishing && e.upload in s.staged {
      CommitMovesBytes(lim, s, e, user);
    }
  }

  lemma IdleKeepsUser(lim: Limits, s: Store, t: Store, user: string)
    requires t.rows == s.rows && t.reserved == s.reserved && s.clock <= t.clock
    requires WithinLimits(lim, s, user)
    ensures WithinLimits(lim, t, user)
  {
    TodayShrinks(s.rows, user, s.clock, t.clock);
  }

  lemma StepKeepsUser(lim: Limits, s: Store, e: Event, user: string)
    requires Honours(s, e) && Consistent(s)
    requires WithinLimits(lim, s, user)
    ensures WithinLimits(lim, Next(lim, s, e), user)
  {
    hide AfterCreate, AfterCommit, WithinLimits, Consistent;
    match e
    case Create(_, _, _, _, _) => CreateKeepsUser(lim, s, e, user);
    case Commit(_, _, _, _) => CommitKeepsUser(lim, s, e, user);
    case DeleteRow(_, _) => DeleteKeepsUser(lim, s, e, user);
    case Prune(_) => PruneKeepsUser(lim, s, e, user);
    case _ => IdleKeepsUser(lim, s, Next(lim, s, e), user);
  }

  // ---------------------------------------------------------------------
  // The disk
  // ---------------------------------------------------------------------

  /** Reservations whose staged file did not change weigh what they did. */
  lemma SameUnwritten(reserved: map<string, Reservation>, before: map<string, Upload>, after: map<string, Upload>)
    requires forall id :: id in reserved ==> (id in before <==> id in after) && (id in before ==> before[id] == after[id])
    ensures Total(reserved, Unwritten(before)) == Total(reserved, Unwritten(after))
  {
  }

  lemma CreateKeepsDisk(lim: Limits, s: Store, e: Event)
    requires e.Create? && Honours(s, e) && DiskSafe(lim, s)
    ensures DiskSafe(lim, Next(lim, s, e))
  {
    var t := Next(lim, s, e);
    if t.reserved != s.reserved {
      TotalInsert(s.reserved, e.upload, t.reserved[e.upload], Unwritten(t.staged));
      SameUnwritten(s.reserved, s.staged, t.staged);
      TotalMonotone(s.reserved, Unwritten(s.staged), Reserved());
    }
  }

  lemma WriteKeepsDisk(lim: Limits, s: Store, e: Event)
    requires e.Write? && WritesReserved(s, e) && Consistent(s) && DiskSafe(lim, s)
    ensures DiskSafe(lim, Next(lim, s, e))
  {
    if e.upload in s.staged {
      TotalReweigh(s.reserved, e.upload, Unwritten(s.staged), Unwritten(Next(lim, s, e).staged));
    }
  }

  /** Removing a staged file frees exactly what its reservation then owes again. */
  lemma UnstageKeepsDisk(lim: Limits, s: Store, t: Store, upload: string)
    requires upload in s.staged && Consistent(s) && DiskSafe(lim, s)
    requires t.staged == s.staged - {upload} && t.reserved == s.reserved && t.free == s.free + s.staged[upload].written
    ensures DiskSafe(lim, t)
  {
    if upload in s.reserved {
      TotalReweigh(s.reserved, upload, Unwritten(s.staged), Unwritten(t.staged));
    } else {
      SameUnwritten(s.reserved, s.staged, t.staged);
    }
  }

  lemma CommitKeepsDisk(lim: Limits, s: Store, e: Event)
    requires e.Commit? && Honours(s, e) && Consistent(s) && DiskSafe(lim, s)
    ensures DiskSafe(lim, Next(lim, s, e))
  {
    var t := Next(lim, s, e);
    if e.upload in s.finishing && e.upload in s.staged {
      if e.inserted {
        TotalSplit(s.reserved, e.upload, Unwritten(s.staged));
        SameUnwritten(t.reserved, s.staged, t.staged);
      } else {
        UnstageKeepsDisk(lim, s, t, e.upload);
      }
    }
  }

  lemma StepKeepsDisk(lim: Limits, s: Store, e: Event)
    requires Honours(s, e) && WritesReserved(s, e) && Consistent(s) && DiskSafe(lim, s)
    ensures DiskSafe(lim, Next(lim, s, e))
  {
    match e
    case Create(_, _, _, _, _) => CreateKeepsDisk(lim, s, e);
    case Write(_, _, _) => WriteKeepsDisk(lim, s, e);
    case Commit(_, _, _, _) => CommitKeepsDisk(lim, s, e);
    case Terminate(upload, _) =>
      if upload in s.staged && s.staged[upload].written < s.staged[upload].size {
        UnstageKeepsDisk(lim, s, Next(lim, s, e), upload);
      }
    case Prune(_) => TotalSubmap(Next(lim, s, e).reserved, s.reserved, Unwritten(s.staged));
    case _ =>
  }

  lemma StepKeepsConsistent(lim: Limits, s: Store, e: Event)
    requires Honours(s, e) && Consistent(s)
    ensures Consistent(Next(lim, s, e))
  {
  }

  // ---------------------------------------------------------------------
  // Whole runs
  // ---------------------------------------------------------------------

  /** Every interleaving of honoured events keeps every user within the quota and every day within the daily limit. */
  lemma {:induction false} EveryRunIsLimited(lim: Limits, start: Store, trace: seq<Event>)
    requires Limited(lim, start) && HonoursAll(lim, start, trace)
    ensures Limited(lim, After(lim, start, trace))
  {
    if trace != [] {
      var n := |trace| - 1;
      var s := After(lim, start, trace[..n]);
      EveryRunIsLimited(lim, start, trace[..n]);
      StepKeepsConsistent(lim, s, trace[n]);
      forall user {
        StepKeepsUser(lim, s, trace[n], user);
      }
    }
  }

  /** If writes go to uploads with a reservation, the disk reserve is kept too. */
  lemma {:induction false} EveryRunIsSafe(lim: Limits, start: Store, trace: seq<Event>)
    requires Safe(lim, start) && HonoursAll(lim, start, trace) && AllWritesReserved(lim, start, trace)
    ensures Safe(lim, After(lim, start, trace))
  {
    EveryRunIsLimited(lim, start, trace);
    if trace != [] {
      var n := |trace| - 1;
      EveryRunIsSafe(lim, start, trace[..n]);
      StepKeepsDisk(lim, After(lim, start, trace[..n]), trace[n]);
    }
  }

  /** A fresh server with room on its disk is safe. */
  lemma EmptyServerIsSafe(lim: Limits, free: int)
    requires free >= lim.minFreeBytes
    ensures Safe(lim, Store(map[], map[], map[], {}, map[], free, 0))
  {
  }

  lemma OthersAndOwn(reserved: map<string, Reservation>, user: string, upload: string)
    requires upload in reserved && reserved[upload].user == user
    ensures Total(reserved, ReservedByOthers(user, upload)) + reserved[upload].size == Total(reserved, ReservedBy(user))
  {
    TotalReweigh(reserved, upload, ReservedByOthers(user, upload), ReservedBy(user));
  }

  /**
   After any run, at any later instant, neither quota re-check at finish turns
   away an upload of its owner's that still holds its reservation; and if the
   disk reserve was kept as well, the finish check accepts it.
   */
  lemma FinishNeverRefused(lim: Limits, start: Store, trace: seq<Event>, upload: string, now: int)
    requires Limited(lim, start) && HonoursAll(lim, start, trace)
    requires var s := After(lim, start, trace); upload in s.staged && upload in s.reserved && now >= s.clock
    ensures var s := After(lim, start, trace);
            var reply := FinishReply(lim, s, upload, s.staged[upload].user, now);
            && reply != UserQuotaExceeded && reply != DailyQuotaExceeded
            && (DiskSafe(lim, start) && AllWritesReserved(lim, start, trace) ==> reply == Accepted)
  {
    var s := After(lim, start, trace);
    EveryRunIsLimited(lim, start, trace);
    QuotasAccept(lim, s, upload, now);
    if DiskSafe(lim, start) && AllWritesReserved(lim, start, trace) {
      EveryRunIsSafe(lim, start, trace);
    }
  }

  lemma QuotasAccept(lim: Limits, s: Store, upload: string, now: int)
    requires Limited(lim, s) && upload in s.staged && upload in s.reserved && now >= s.clock
    ensures FinishReply(lim, s, upload, s.staged[upload].user, now) == if s.free < lim.minFreeBytes then DiskReserveReached else Accepted
  {
    var user := s.staged[upload].user;
    OthersAndOwn(s.reserved, user, upload);
    TodayShrinks(s.rows, user, s.clock, now);
    assert WithinLimits(lim, s, user);
  }

  // ---------------------------------------------------------------------
  // Why the reservation must outlive the media processing
  // ---------------------------------------------------------------------

  const TIGHT := Limits(10, 10, 10, 0, 5)

  /** "a" passes its finish check, then its reservation expires during media processing. */
  const LOST_RESERVATION := [
    Create("a", "u", Some(10), true, 0), Write("a", 10, 0), BeginFinish("a", "u", 0), Prune(6),
    Create("b", "u", Some(10), true, 6), Commit("a", "row", true, 6)
  ]

  const START := Store(map[], map[], map[], {}, map[], 100, 0)
  const ADMITTED := Store(map[], map["a" := Reservation("u", 10, 0)], map["a" := Upload("u", 10, 0)], {},
                          map["u" := RateLimiter.Entry(1, 0)], 100, 0)
  const WRITTEN := ADMITTED.(staged := map["a" := Upload("u", 10, 10)], free := 90)
  const CHECKED := WRITTEN.(finishing := {"a"})
  const EXPIRED := CHECKED.(reserved := map[], clock := 6)
  const REFILLED := EXPIRED.(reserved := map["b" := Reservation("u", 10, 6)],
                             staged := map["a" := Upload("u", 10, 10), "b" := Upload("u", 10, 0)],
                             creates := map["u" := RateLimiter.Entry(2, 0)])
  const OVERFULL := REFILLED.(rows := map["row" := Row("u", 10, 6)], finishing := {},
                              staged := map["b" := Upload("u", 10, 0)])

  ghost predicate Leads(k: nat, s: Store)
    requires k <= |LOST_RESERVATION|
  {
    After(TIGHT, START, LOST_RESERVATION[..k]) == s && (k < 6 ==> HonoursAll(TIGHT, START, LOST_RESERVATION[..k]))
  }

  lemma OneStep(k: nat, s: Store, t: Store)
    requires k < |LOST_RESERVATION| && Leads(k, s)
    requires Next(TIGHT, s, LOST_RESERVATION[k]) == t && (k < 5 ==> Honours(s, LOST_RESERVATION[k]))
    ensures Leads(k + 1, t)
  {
    assert LOST_RESERVATION[..k + 1][..k] == LOST_RESERVATION[..k];
  }

  lemma UpToTheCheck()
    ensures Leads(3, CHECKED)
  {
    assert Leads(0, START);
    hide Leads;
    OneStep(0, START, ADMITTED);
    OneStep(1, ADMITTED, WRITTEN);
    OthersAndOwn(WRITTEN.reserved, "u", "a");
    TotalInsert(map[], "a", Reservation("u", 10, 0), ReservedBy("u"));
    OneStep(2, WRITTEN, CHECKED);
  }

  lemma UpToTheCommit()
    ensures Leads(5, REFILLED) && Leads(6, OVERFULL)
  {
    UpToTheCheck();
    hide Leads;
    OneStep(3, CHECKED, EXPIRED);
    assert REFILLED.staged == EXPIRED.staged["b" := Upload("u", 10, 0)];
    OneStep(4, EXPIRED, REFILLED);
    assert OVERFULL.staged == REFILLED.staged - {"a"} && REFILLED.reserved - {"a"} == REFILLED.reserved;
    OneStep(5, REFILLED, OVERFULL);
  }

  /**
   The assumption on commits is needed: every event before the commit honours
   it, the commit alone does not, and 20 bytes end up held against a quota of 10.
   */
  lemma LostReservationExceedsQuota()
    ensures Safe(TIGHT, START)
    ensures HonoursAll(TIGHT, START, LOST_RESERVATION[..5])
    ensures !WithinQuota(TIGHT, After(TIGHT, START, LOST_RESERVATION), "u")
  {
    EmptyServerIsSafe(TIGHT, 100);
    UpToTheCommit();
    assert LOST_RESERVATION[..6] == LOST_RESERVATION;
    TotalInsert(map[], "row", Row("u", 10, 6), RowsOf("u"));
    TotalInsert(map[], "b", Reservation("u", 10, 6), ReservedBy("u"));
  }
}

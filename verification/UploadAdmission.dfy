/**
 Admission control for uploads (packages/server/src/routes/files.ts, lines
 29-30, 65-85 and 182-462).

 A create reserves the declared size; a finish is checked again, then awaits
 media processing, then commits an attachment row and gives the reservation
 back. Every synchronous stretch of a handler is one atomic event here, so the
 runs below interleave creates, partial writes, finish checks, commits,
 terminations, row deletions and pruner ticks in any order.
 */
module UploadAdmission {
  import opened Totals
  import RateLimiter

  const DAY := 86_400_000
  const MAX_SAFE_INTEGER := 0x1F_FFFF_FFFF_FFFF

  datatype Limits = Limits(maxSize: int, maxUserBytes: nat, maxDailyBytes: nat, minFreeBytes: int, expirationMs: nat)

  /** A row of `attachments`. */
  datatype Row = Row(user: string, size: nat, createdAt: int)

  /** An entry of `pendingUploadReservations`. */
  datatype Reservation = Reservation(user: string, size: nat, createdAt: int)

  /** A file in the staging directory, with the owner and length its metadata records. */
  datatype Upload = Upload(user: string, size: nat, written: nat)

  datatype Reply =
    | Accepted
    | TooManyRequests
    | FileTooLarge
    | LengthRequired
    | UserQuotaExceeded
    | DailyQuotaExceeded
    | DiskReserveReached
    | FilenameRequired
    | OwnershipMismatch

  datatype Store = Store(
    rows: map<string, Row>,
    reserved: map<string, Reservation>,
    staged: map<string, Upload>,
    finishing: set<string>,  // uploads past the finish check, awaiting media processing
    creates: RateLimiter.Counts,
    free: int,
    clock: int
  )

  // ---------------------------------------------------------------------
  // The sums the handlers take
  // ---------------------------------------------------------------------

  ghost function RowsSince(user: string, since: int): (string, Row) -> nat {
    (id, row: Row) => if row.user == user && row.createdAt >= since then row.size else 0
  }

  ghost function RowsOf(user: string): (string, Row) -> nat {
    (id, row: Row) => if row.user == user then row.size else 0
  }

  /** Rows created in the day that starts at `from`, both ends included. */
  ghost function RowsDuring(user: string, from: int): (string, Row) -> nat {
    (id, row: Row) => if row.user == user && from <= row.createdAt <= from + DAY then row.size else 0
  }

  ghost function ReservedBy(user: string): (string, Reservation) -> nat {
    (id, r: Reservation) => if r.user == user then r.size else 0
  }

  function OtherBytes(user: string, upload: string, id: string, r: Reservation): nat {
    if r.user == user && id != upload then r.size else 0
  }

  ghost function ReservedByOthers(user: string, upload: string): (string, Reservation) -> nat {
    (id: string, r: Reservation) => OtherBytes(user, upload, id, r)
  }

  ghost function Reserved(): (string, Reservation) -> nat {
    (id, r: Reservation) => r.size
  }

  /** The part of a reservation that is not on disk yet. */
  function UnwrittenBytes(staged: map<string, Upload>, id: string, r: Reservation): nat {
    if id in staged && staged[id].written <= r.size then r.size - staged[id].written else r.size
  }

  ghost function Unwritten(staged: map<string, Upload>): (string, Reservation) -> nat {
    (id: string, r: Reservation) => UnwrittenBytes(staged, id, r)
  }

  // ---------------------------------------------------------------------
  // Events
  // ---------------------------------------------------------------------

  datatype Event =
    | Create(upload: string, user: string, size: Option<int>, named: bool, at: int)
    | Write(upload: string, bytes: nat, at: int)
    | BeginFinish(upload: string, requester: string, at: int)
    | Commit(upload: string, row: string, inserted: bool, at: int)
    | Terminate(upload: string, at: int)
    | DeleteRow(row: string, at: int)
    | Prune(at: int)

  /** What `onUploadCreate` answers, once the rate limiter has let the request through. */
  ghost function CreateReply(lim: Limits, s: Store, user: string, size: Option<int>, named: bool, now: int): Reply {
    if size.Some? && size.value > lim.maxSize then FileTooLarge
    else if size.None? || size.value > MAX_SAFE_INTEGER || size.value < 0 then LengthRequired
    else if Total(s.rows, RowsOf(user)) + Total(s.reserved, ReservedBy(user)) + size.value > lim.maxUserBytes then
      UserQuotaExceeded
    else if Total(s.rows, RowsSince(user, now - DAY)) + Total(s.reserved, ReservedBy(user)) + size.value > lim.maxDailyBytes then
      DailyQuotaExceeded
    else if s.free - Total(s.reserved, Reserved()) - size.value < lim.minFreeBytes then DiskReserveReached
    else if !named then FilenameRequired
    else Accepted
  }

  /** What the synchronous first half of `onUploadFinish` decides. */
  ghost function FinishReply(lim: Limits, s: Store, upload: string, requester: string, now: int): Reply
    requires upload in s.staged
  {
    var Upload(user, size, _) := s.staged[upload];
    var others := Total(s.reserved, ReservedByOthers(user, upload));
    if user != requester then OwnershipMismatch
    else if Total(s.rows, RowsOf(user)) + others + size > lim.maxUserBytes then UserQuotaExceeded
    else if Total(s.rows, RowsSince(user, now - DAY)) + others + size > lim.maxDailyBytes then DailyQuotaExceeded
    else if s.free < lim.minFreeBytes then DiskReserveReached
    else Accepted
  }

  ghost function AfterCreate(lim: Limits, s: Store, e: Event): Store
    requires e.Create?
  {
    var (creates, granted) := RateLimiter.Admit(RateLimiter.UPLOAD_CREATE, s.creates, e.user, e.at);
    var checked := s.(creates := creates, clock := e.at);
    if granted && CreateReply(lim, s, e.user, e.size, e.named, e.at).Accepted? then
      checked.(reserved := s.reserved[e.upload := Reservation(e.user, e.size.value, e.at)],
               staged := s.staged[e.upload := Upload(e.user, e.size.value, 0)])
    else checked
  }

  /** The rename is the commit point; a failed insert deletes the file and keeps the reservation. */
  ghost function AfterCommit(s: Store, e: Event): Store
    requires e.Commit?
  {
    var done := s.(finishing := s.finishing - {e.upload}, clock := e.at);
    if e.upload !in s.finishing then s.(clock := e.at)
    else if e.upload !in s.staged then done
    else
      var Upload(user, size, written) := s.staged[e.upload];
      var renamed := done.(staged := s.staged - {e.upload});
      if e.inserted then
        renamed.(rows := s.rows[e.row := Row(user, size, e.at)], reserved := s.reserved - {e.upload})
      else
        renamed.(free := s.free + written)
  }

  ghost function Next(lim: Limits, s: Store, e: Event): Store {
    match e
    case Create(_, _, _, _, _) => AfterCreate(lim, s, e)
    case Write(upload, bytes, at) =>
      if upload in s.staged && s.staged[upload].written + bytes <= s.staged[upload].size then
        var file := s.staged[upload];
        s.(staged := s.staged[upload := file.(written := file.written + bytes)], free := s.free - bytes, clock := at)
      else s.(clock := at)
    case BeginFinish(upload, requester, at) =>
      if upload in s.staged && s.staged[upload].written == s.staged[upload].size
         && FinishReply(lim, s, upload, requester, at).Accepted?
      then s.(finishing := s.finishing + {upload}, clock := at)
      else s.(clock := at)
    case Commit(_, _, _, _) => AfterCommit(s, e)
    case Terminate(upload, at) =>
      if upload in s.staged && s.staged[upload].written < s.staged[upload].size then
        s.(staged := s.staged - {upload}, free := s.free + s.staged[upload].written, clock := at)
      else s.(clock := at)
    case DeleteRow(row, at) =>
      if row in s.rows then s.(rows := s.rows - {row}, free := s.free + s.rows[row].size, clock := at)
      else s.(clock := at)
    case Prune(at) =>
      s.(reserved := Unexpired(lim, s.reserved, at),
         creates := RateLimiter.Fresh(RateLimiter.UPLOAD_CREATE, s.creates, at), clock := at)
  }

  function Unexpired(lim: Limits, reserved: map<string, Reservation>, now: int): map<string, Reservation> {
    map id | id in reserved && now - reserved[id].createdAt <= lim.expirationMs :: reserved[id]
  }

  ghost function After(lim: Limits, start: Store, trace: seq<Event>): Store {
    if trace == [] then start
    else Next(lim, After(lim, start, trace[..|trace| - 1]), trace[|trace| - 1])
  }

  // ---------------------------------------------------------------------
  // The handlers, with the maps and loops they use
  // ---------------------------------------------------------------------

  class UploadServer {
    const lim: Limits
    const limiter: RateLimiter.Limiter
    var rows: map<string, Row>
    var reserved: map<string, Reservation>
    var staged: map<string, Upload>
    var finishing: set<string>
    var free: int
    ghost var clock: int

    ghost function State(): Store
      reads this, limiter
    {
      Store(rows, reserved, staged, finishing, limiter.counts, free, clock)
    }

    constructor (lim: Limits, free: int)
      ensures fresh(limiter) && limiter.rule == RateLimiter.UPLOAD_CREATE
      ensures this.lim == lim && State() == Store(map[], map[], map[], {}, map[], free, 0)
    {
      this.lim, this.free, clock := lim, free, 0;
      rows, reserved, staged, finishing := map[], map[], map[], {};
      limiter := new RateLimiter.Limiter(RateLimiter.UPLOAD_CREATE);
    }

    /** The two sums over the rows of one user: all of them, and those of the last day. */
    method SumRows(user: string, since: int) returns (stored: nat, recent: nat)
      ensures stored == Total(rows, RowsOf(user))
      ensures recent == Total(rows, RowsSince(user, since))
    {
      stored, recent := 0, 0;
      var rest := rows;
      while rest != map[]
        invariant stored + Total(rest, RowsOf(user)) == Total(rows, RowsOf(user))
        invariant recent + Total(rest, RowsSince(user, since)) == Total(rows, RowsSince(user, since))
        decreases |rest|
      {
        var id :| id in rest;
        TotalSplit(rest, id, RowsOf(user));
        TotalSplit(rest, id, RowsSince(user, since));
        if rest[id].user == user {
          stored := stored + rest[id].size;
          if rest[id].createdAt >= since {
            recent := recent + rest[id].size;
          }
        }
        rest := rest - {id};
      }
    }

    method SumReservations(user: string) returns (byUser: nat, total: nat)
      ensures byUser == Total(reserved, ReservedBy(user))
      ensures total == Total(reserved, Reserved())
    {
      byUser, total := 0, 0;
      var rest := reserved;
      while rest != map[]
        invariant byUser + Total(rest, ReservedBy(user)) == Total(reserved, ReservedBy(user))
        invariant total + Total(rest, Reserved()) == Total(reserved, Reserved())
        decreases |rest|
      {
        var id :| id in rest;
        TotalSplit(rest, id, ReservedBy(user));
        TotalSplit(rest, id, Reserved());
        total := total + rest[id].size;
        if rest[id].user == user {
          byUser := byUser + rest[id].size;
        }
        rest := rest - {id};
      }
    }

    method SumOtherReservations(user: string, upload: string) returns (others: nat)
      ensures others == Total(reserved, ReservedByOthers(user, upload))
    {
      others := 0;
      var rest := reserved;
      while rest != map[]
        invariant others + Total(rest, ReservedByOthers(user, upload)) == Total(reserved, ReservedByOthers(user, upload))
        decreases |rest|
      {
        var id :| id in rest;
        TotalSplit(rest, id, ReservedByOthers(user, upload));
        if id != upload && rest[id].user == user {
          others := others + rest[id].size;
        }
        rest := rest - {id};
      }
    }

    method OnUploadCreate(upload: string, user: string, size: Option<int>, named: bool, now: int) returns (reply: Reply)
      requires limiter.rule == RateLimiter.UPLOAD_CREATE
      modifies this, limiter
      ensures State() == Next(lim, old(State()), Create(upload, user, size, named, now))
      ensures reply == if RateLimiter.Admit(limiter.rule, old(limiter.counts), user, now).1
                       then CreateReply(lim, old(State()), user, size, named, now) else TooManyRequests
    {
      clock := now;
      var granted := limiter.Check(user, now);
      if !granted {
        return TooManyRequests;
      }
      if size.Some? && size.value > lim.maxSize {
        return FileTooLarge;
      }
      if size.None? || size.value > MAX_SAFE_INTEGER || size.value < 0 {
        return LengthRequired;
      }
      var stored, uploadedToday := SumRows(user, now - DAY);
      var reservedByUser, reservedTotal := SumReservations(user);
      if stored + reservedByUser + size.value > lim.maxUserBytes {
        return UserQuotaExceeded;
      }
      if uploadedToday + reservedByUser + size.value > lim.maxDailyBytes {
        return DailyQuotaExceeded;
      }
      if free - reservedTotal - size.value < lim.minFreeBytes {
        return DiskReserveReached;
      }
      if !named {
        return FilenameRequired;
      }
      reserved := reserved[upload := Reservation(user, size.value, now)];
      staged := staged[upload := Upload(user, size.value, 0)];
      return Accepted;
    }

    /** `onUploadFinish` up to its first await. */
    method BeginUploadFinish(upload: string, requester: string, now: int) returns (reply: Reply)
      requires upload in staged && staged[upload].written == staged[upload].size
      modifies this
      ensures State() == Next(lim, old(State()), BeginFinish(upload, requester, now))
      ensures reply == FinishReply(lim, old(State()), upload, requester, now)
    {
      clock := now;
      var Upload(user, declaredSize, _) := staged[upload];
      if user != requester {
        return OwnershipMismatch;
      }
      var stored, uploadedToday := SumRows(user, now - DAY);
      var otherReservedByUser := SumOtherReservations(user, upload);
      if stored + otherReservedByUser + declaredSize > lim.maxUserBytes {
        return UserQuotaExceeded;
      }
      if uploadedToday + otherReservedByUser + declaredSize > lim.maxDailyBytes {
        return DailyQuotaExceeded;
      }
      if free < lim.minFreeBytes {
        return DiskReserveReached;
      }
      finishing := finishing + {upload};
      return Accepted;
    }

    /** `onUploadFinish` after its last await: rename, then insert, then release. */
    method CommitUploadFinish(upload: string, row: string, inserted: bool, now: int)
      requires upload in finishing
      modifies this
      ensures State() == Next(lim, old(State()), Commit(upload, row, inserted, now))
    {
      clock := now;
      finishing := finishing - {upload};
      if upload !in staged {
        return;
      }
      var file := staged[upload];
      staged := staged - {upload};
      if inserted {
        rows := rows[row := Row(file.user, file.size, now)];
        reserved := reserved - {upload};
      } else {
        free := free + file.written;
      }
    }

    method PruneStale(now: int)
      requires limiter.rule == RateLimiter.UPLOAD_CREATE
      modifies this, limiter
      ensures State() == Next(lim, old(State()), Prune(now))
    {
      clock := now;
      limiter.Prune(now);
      var todo := reserved.Keys;
      while todo != {}
        invariant todo <= reserved.Keys <= old(reserved).Keys
        invariant State() == old(State()).(reserved := reserved, creates := limiter.counts, clock := now)
        invariant limiter.counts == RateLimiter.Fresh(limiter.rule, old(limiter.counts), now)
        invariant forall id :: id in reserved ==> reserved[id] == old(reserved)[id]
        invariant forall id :: id in old(reserved) - todo ==>
                                 (id in reserved <==> now - old(reserved)[id].createdAt <= lim.expirationMs)
        decreases todo
      {
        var id :| id in todo;
        if now - reserved[id].createdAt > lim.expirationMs {
          reserved := reserved - {id};
        }
        todo := todo - {id};
      }
      assert reserved == Unexpired(lim, old(reserved), now);
    }
  }
}

/**
 What an upload's create and finish are answered, and what each event does to rows,
 reservations, staged files and the disk
 (packages/server/src/routes/files.ts, lines 65-85, 180-267 and 275-445). The bytes
 are counted here from the rows and reservations themselves.
 */
module UploadAnswers {
  import opened Totals
  import opened UploadAdmission
  import opened UploadQuota
  import RateLimiter

  // ---------------------------------------------------------------------
  // Counting bytes
  // ---------------------------------------------------------------------

  ghost function RowBytes(rows: map<string, Row>): nat {
    Total(rows, (id, row: Row) => row.size)
  }

  ghost function ReservedBytes(reserved: map<string, Reservation>): nat {
    Total(reserved, (id, r: Reservation) => r.size)
  }

  function Own(rows: map<string, Row>, user: string): map<string, Row> {
    map id | id in rows && rows[id].user == user :: rows[id]
  }

  /** The user's rows of the last 24 hours. */
  function Recent(rows: map<string, Row>, user: string, now: int): map<string, Row> {
    map id | id in rows && rows[id].user == user && now - 86_400_000 <= rows[id].createdAt :: rows[id]
  }

  function Held(reserved: map<string, Reservation>, user: string): map<string, Reservation> {
    map id | id in reserved && reserved[id].user == user :: reserved[id]
  }

  function HeldOther(reserved: map<string, Reservation>, user: string, upload: string): map<string, Reservation> {
    map id | id in reserved && reserved[id].user == user && id != upload :: reserved[id]
  }

  /** Weighing some entries with nothing is leaving them out. */
  lemma {:induction false} TotalOfPart<V>(m: map<string, V>, part: map<string, V>, weigh: (string, V) -> nat, full: (string, V) -> nat)
    requires forall k :: k in part ==> k in m && part[k] == m[k]
    requires forall k :: k in m ==> weigh(k, m[k]) == if k in part then full(k, m[k]) else 0
    ensures Total(m, weigh) == Total(part, full)
    decreases |m|
  {
    if m == map[] {
      assert part == map[];
    } else {
      var k :| k in m;
      TotalSplit(m, k, weigh);
      if k in part {
        TotalSplit(part, k, full);
      }
      assert k !in part ==> part - {k} == part;
      TotalOfPart(m - {k}, part - {k}, weigh, full);
    }
  }

  lemma SumsAreBytes(s: Store, user: string, upload: string, now: int)
    ensures Total(s.rows, RowsOf(user)) == RowBytes(Own(s.rows, user))
    ensures Total(s.rows, RowsSince(user, now - DAY)) == RowBytes(Recent(s.rows, user, now))
    ensures Total(s.reserved, ReservedBy(user)) == ReservedBytes(Held(s.reserved, user))
    ensures Total(s.reserved, ReservedByOthers(user, upload)) == ReservedBytes(HeldOther(s.reserved, user, upload))
    ensures Total(s.reserved, Reserved()) == ReservedBytes(s.reserved)
  {
    TotalOfPart(s.rows, Own(s.rows, user), RowsOf(user), (id, row: Row) => row.size);
    TotalOfPart(s.rows, Recent(s.rows, user, now), RowsSince(user, now - DAY), (id, row: Row) => row.size);
    TotalOfPart(s.reserved, Held(s.reserved, user), ReservedBy(user), (id, r: Reservation) => r.size);
    TotalOfPart(s.reserved, HeldOther(s.reserved, user, upload), ReservedByOthers(user, upload), (id, r: Reservation) => r.size);
    TotalOfPart(s.reserved, s.reserved, Reserved(), (id, r: Reservation) => r.size);
  }

  // ---------------------------------------------------------------------
  // Creating
  // ---------------------------------------------------------------------

  predicate SizeFits(lim: Limits, size: Option<int>) {
    size.Some? && 0 <= size.value <= 0x1F_FFFF_FFFF_FFFF && size.value <= lim.maxSize
  }

  ghost predicate QuotaFits(lim: Limits, s: Store, user: string, size: int) {
    RowBytes(Own(s.rows, user)) + ReservedBytes(Held(s.reserved, user)) + size <= lim.maxUserBytes
  }

  ghost predicate DayFits(lim: Limits, s: Store, user: string, size: int, now: int) {
    RowBytes(Recent(s.rows, user, now)) + ReservedBytes(Held(s.reserved, user)) + size <= lim.maxDailyBytes
  }

  ghost predicate DiskFits(lim: Limits, s: Store, size: int) {
    s.free - ReservedBytes(s.reserved) - size >= lim.minFreeBytes
  }

  /** A create is accepted exactly when it fits every limit, and each refusal names a limit that it breaks. */
  lemma CreateAcceptedIff(lim: Limits, s: Store, user: string, size: Option<int>, named: bool, now: int)
    ensures var reply := CreateReply(lim, s, user, size, named, now);
            && (reply == Accepted <==>
                  && SizeFits(lim, size) && QuotaFits(lim, s, user, size.value) && DayFits(lim, s, user, size.value, now)
                  && DiskFits(lim, s, size.value) && named)
            && (reply == FileTooLarge ==> size.Some? && size.value > lim.maxSize)
            && (reply == LengthRequired ==> size.None? || size.value < 0 || size.value > 0x1F_FFFF_FFFF_FFFF)
            && (reply == UserQuotaExceeded ==> SizeFits(lim, size) && !QuotaFits(lim, s, user, size.value))
            && (reply == DailyQuotaExceeded ==> SizeFits(lim, size) && !DayFits(lim, s, user, size.value, now))
            && (reply == DiskReserveReached ==> SizeFits(lim, size) && !DiskFits(lim, s, size.value))
            && (reply == FilenameRequired ==> !named)
            && reply != TooManyRequests && reply != OwnershipMismatch
  {
    SumsAreBytes(s, user, "", now);
    hide RowBytes, ReservedBytes, Own, Recent, Held;
  }

  /** Rows older than a day change no answer of the daily limit. */
  lemma OldRowsDoNotCount(lim: Limits, s: Store, user: string, size: Option<int>, named: bool, now: int, stale: string)
    requires stale in s.rows && s.rows[stale].createdAt < now - 86_400_000
    ensures var t := s.(rows := s.rows - {stale});
            && (CreateReply(lim, s, user, size, named, now) == DailyQuotaExceeded ==>
                  CreateReply(lim, t, user, size, named, now) == DailyQuotaExceeded)
            && (CreateReply(lim, t, user, size, named, now) == DailyQuotaExceeded ==>
                  CreateReply(lim, s, user, size, named, now) in {DailyQuotaExceeded, UserQuotaExceeded})
  {
    var t := s.(rows := s.rows - {stale});
    SumsAreBytes(s, user, "", now);
    SumsAreBytes(t, user, "", now);
    assert Recent(t.rows, user, now) == Recent(s.rows, user, now);
    TotalSubmap(t.rows, s.rows, RowsOf(user));
    hide RowBytes, ReservedBytes, Own, Recent, Held, RowsOf, RowsSince, ReservedBy, Reserved, ReservedByOthers;
  }

  /** Another user's rows change no answer. */
  lemma OthersRowsDoNotCount(lim: Limits, s: Store, user: string, size: Option<int>, named: bool, now: int, other: string)
    requires other in s.rows && s.rows[other].user != user
    ensures CreateReply(lim, s.(rows := s.rows - {other}), user, size, named, now) == CreateReply(lim, s, user, size, named, now)
  {
    var t := s.(rows := s.rows - {other});
    SumsAreBytes(s, user, "", now);
    SumsAreBytes(t, user, "", now);
    assert Recent(t.rows, user, now) == Recent(s.rows, user, now) && Own(t.rows, user) == Own(s.rows, user);
    hide RowBytes, ReservedBytes, Own, Recent, Held;
  }

  ghost predicate Admitted(s: Store, user: string, now: int) {
    RateLimiter.Admit(RateLimiter.UPLOAD_CREATE, s.creates, user, now).1
  }

  /** An admitted create that fits is reserved and staged under the user with its size; any other only counts with the limiter. */
  lemma CreateLeaves(lim: Limits, s: Store, e: Event)
    requires e.Create?
    ensures var t := Next(lim, s, e);
            && t.rows == s.rows && t.finishing == s.finishing && t.free == s.free && t.clock == e.at
            && if Admitted(s, e.user, e.at) && CreateReply(lim, s, e.user, e.size, e.named, e.at) == Accepted then
                 && t.reserved == s.reserved[e.upload := Reservation(e.user, e.size.value, e.at)]
                 && t.staged == s.staged[e.upload := Upload(e.user, e.size.value, 0)]
               else t.reserved == s.reserved && t.staged == s.staged
  {
  }

  // ---------------------------------------------------------------------
  // Finishing
  // ---------------------------------------------------------------------

  /** What the user holds once the upload is a row and no longer reserved. */
  ghost predicate FinishFits(lim: Limits, s: Store, upload: string, now: int)
    requires upload in s.staged
  {
    var file := s.staged[upload];
    var others := ReservedBytes(HeldOther(s.reserved, file.user, upload));
    && RowBytes(Own(s.rows, file.user)) + others + file.size <= lim.maxUserBytes
    && RowBytes(Recent(s.rows, file.user, now)) + others + file.size <= lim.maxDailyBytes
  }

  /** The finish check accepts exactly its owner's upload that fits with its own reservation left out, while the disk reserve is there. */
  lemma FinishAcceptedIff(lim: Limits, s: Store, upload: string, requester: string, now: int)
    requires upload in s.staged
    ensures var reply := FinishReply(lim, s, upload, requester, now);
            && (reply == Accepted <==>
                  s.staged[upload].user == requester && FinishFits(lim, s, upload, now) && s.free >= lim.minFreeBytes)
            && (reply == OwnershipMismatch <==> s.staged[upload].user != requester)
            && (reply == UserQuotaExceeded || reply == DailyQuotaExceeded ==> !FinishFits(lim, s, upload, now))
            && (reply == DiskReserveReached ==> s.free < lim.minFreeBytes)
  {
    SumsAreBytes(s, s.staged[upload].user, upload, now);
    hide RowBytes, ReservedBytes, Own, Recent, HeldOther;
  }

  /** The finish check passes the upload on only complete and accepted, and changes nothing else. */
  lemma BeginFinishLeaves(lim: Limits, s: Store, e: Event)
    requires e.BeginFinish?
    ensures Next(lim, s, e) == s.(clock := e.at,
              finishing := if e.upload in s.staged && s.staged[e.upload].written == s.staged[e.upload].size
                              && FinishReply(lim, s, e.upload, e.requester, e.at) == Accepted
                           then s.finishing + {e.upload} else s.finishing)
  {
  }

  /**
   Why the check is taken again: even an upload that has lost its reservation
   stays within the quota and the day, if it commits as soon as it is checked.
   */
  lemma RecheckProtects(lim: Limits, s: Store, upload: string, row: string, now: int)
    requires upload in s.staged && row !in s.rows
    requires FinishReply(lim, s, upload, s.staged[upload].user, now) == Accepted
    ensures var user := s.staged[upload].user;
            var t := Next(lim, s.(finishing := s.finishing + {upload}), Commit(upload, row, true, now));
            WithinQuota(lim, t, user) && WithinToday(lim, t, user)
  {
    var file, user := s.staged[upload], s.staged[upload].user;
    TotalInsert(s.rows, row, Row(user, file.size, now), RowsOf(user));
    TotalInsert(s.rows, row, Row(user, file.size, now), RowsSince(user, now - DAY));
    ReleasedIsOthers(s.reserved, user, upload);
  }

  lemma ReleasedIsOthers(reserved: map<string, Reservation>, user: string, upload: string)
    ensures Total(reserved - {upload}, ReservedBy(user)) == Total(reserved, ReservedByOthers(user, upload))
  {
    var rest := reserved - {upload};
    if upload in reserved {
      TotalSplit(reserved, upload, ReservedByOthers(user, upload));
    } else {
      assert rest == reserved;
    }
    TotalMonotone(rest, ReservedBy(user), ReservedByOthers(user, upload));
    TotalMonotone(rest, ReservedByOthers(user, upload), ReservedBy(user));
  }

  /**
   A commit turns the staged file into a row of its owner and size, dated now, and
   gives the reservation back; a failed insert frees the file's bytes and keeps
   the reservation; a file that is gone leaves everything as it was.
   */
  lemma CommitLeaves(lim: Limits, s: Store, e: Event)
    requires e.Commit?
    ensures var t := Next(lim, s, e);
            && t.creates == s.creates && t.clock == e.at && t.finishing == s.finishing - {e.upload}
            && t.staged == (if e.upload in s.finishing then s.staged - {e.upload} else s.staged)
            && (if e.upload in s.finishing && e.upload in s.staged && e.inserted then
                  && e.row in t.rows && t.rows[e.row].user == s.staged[e.upload].user
                  && t.rows[e.row].size == s.staged[e.upload].size && t.rows[e.row].createdAt == e.at
                  && t.rows - {e.row} == s.rows - {e.row}
                  && t.reserved == s.reserved - {e.upload} && t.free == s.free
                else
                  && t.rows == s.rows && t.reserved == s.reserved
                  && t.free == s.free + if e.upload in s.finishing && e.upload in s.staged then s.staged[e.upload].written else 0)
  {
  }

  /** A pruner tick drops exactly the reservations older than the expiration, and touches no file and no row. */
  lemma PruneLeaves(lim: Limits, s: Store, e: Event, id: string)
    requires e.Prune?
    ensures var t := Next(lim, s, e);
            && t.rows == s.rows && t.staged == s.staged && t.finishing == s.finishing && t.free == s.free
            && (id in t.reserved <==> id in s.reserved && e.at <= s.reserved[id].createdAt + lim.expirationMs)
            && (id in t.reserved ==> t.reserved[id] == s.reserved[id])
            && (id in t.creates <==> id in s.creates && e.at <= s.creates[id].windowStart + 60_000)
            && (id in t.creates ==> t.creates[id] == s.creates[id])
  {
  }

  // ---------------------------------------------------------------------
  // Every byte is accounted for
  // ---------------------------------------------------------------------

  ghost function WrittenBytes(staged: map<string, Upload>): nat {
    Total(staged, (id, file: Upload) => file.written)
  }

  /** Free, staged and stored bytes together. */
  ghost function Capacity(s: Store): int {
    s.free + WrittenBytes(s.staged) + RowBytes(s.rows)
  }

  /** An upload that has passed the finish check is complete. */
  ghost predicate FinishedAreComplete(s: Store) {
    forall id :: id in s.finishing && id in s.staged ==> s.staged[id].written == s.staged[id].size
  }

  lemma StepKeepsComplete(lim: Limits, s: Store, e: Event)
    requires Honours(s, e) && FinishedAreComplete(s)
    ensures FinishedAreComplete(Next(lim, s, e))
  {
  }

  lemma StepKeepsCapacity(lim: Limits, s: Store, e: Event)
    requires Honours(s, e) && Consistent(s) && FinishedAreComplete(s)
    ensures Capacity(Next(lim, s, e)) == Capacity(s)
  {
    hide Capacity, FinishedAreComplete, Honours, Consistent;
    match e
    case Create(_, _, _, _, _) => CreateKeepsCapacity(lim, s, e);
    case Write(_, _, _) => WriteKeepsCapacity(lim, s, e);
    case BeginFinish(_, _, _) => SameCapacity(s, Next(lim, s, e));
    case Commit(_, _, _, _) => CommitKeepsCapacity(lim, s, e);
    case Terminate(_, _) => RemovalKeepsCapacity(lim, s, e);
    case DeleteRow(_, _) => RemovalKeepsCapacity(lim, s, e);
    case Prune(_) => SameCapacity(s, Next(lim, s, e));
  }

  lemma SameCapacity(s: Store, t: Store)
    requires t.rows == s.rows && t.staged == s.staged && t.free == s.free
    ensures Capacity(t) == Capacity(s)
  {
  }

  lemma CreateKeepsCapacity(lim: Limits, s: Store, e: Event)
    requires e.Create? && Honours(s, e)
    ensures Capacity(Next(lim, s, e)) == Capacity(s)
  {
    CreateLeaves(lim, s, e);
    hide Next;
    if Next(lim, s, e).staged != s.staged {
      TotalInsert(s.staged, e.upload, Upload(e.user, e.size.value, 0), (id, file: Upload) => file.written);
    }
  }

  lemma WriteKeepsCapacity(lim: Limits, s: Store, e: Event)
    requires e.Write?
    ensures Capacity(Next(lim, s, e)) == Capacity(s)
  {
    OthersLeave(lim, s, e);
    var t := Next(lim, s, e);
    hide Next;
    if e.upload in s.staged && s.staged[e.upload].written + e.bytes <= s.staged[e.upload].size {
      TotalSplit(s.staged, e.upload, (id, file: Upload) => file.written);
      TotalSplit(t.staged, e.upload, (id, file: Upload) => file.written);
    }
  }

  lemma RemovalKeepsCapacity(lim: Limits, s: Store, e: Event)
    requires e.Terminate? || e.DeleteRow?
    ensures Capacity(Next(lim, s, e)) == Capacity(s)
  {
    if e.Terminate? && e.upload in s.staged {
      TotalSplit(s.staged, e.upload, (id, file: Upload) => file.written);
    } else if e.DeleteRow? && e.row in s.rows {
      TotalSplit(s.rows, e.row, (id, row: Row) => row.size);
    }
  }

  lemma CommitKeepsCapacity(lim: Limits, s: Store, e: Event)
    requires e.Commit? && Honours(s, e) && Consistent(s) && FinishedAreComplete(s)
    ensures Capacity(Next(lim, s, e)) == Capacity(s)
  {
    var written, size := (id: string, file: Upload) => file.written, (id: string, row: Row) => row.size;
    if e.upload in s.finishing && e.upload in s.staged {
      TotalSplit(s.staged, e.upload, written);
      if e.inserted {
        TotalInsert(s.rows, e.row, Row(s.staged[e.upload].user, s.staged[e.upload].size, e.at), size);
      }
    }
  }

  /** Over every run no byte of the disk is lost and none appears: free, staged and stored bytes always add up to the same. */
  lemma {:induction false} EveryRunKeepsCapacity(lim: Limits, start: Store, trace: seq<Event>)
    requires Limited(lim, start) && FinishedAreComplete(start) && HonoursAll(lim, start, trace)
    ensures Capacity(After(lim, start, trace)) == Capacity(start) && FinishedAreComplete(After(lim, start, trace))
  {
    hide Capacity, FinishedAreComplete, Next, Limited;
    if trace != [] {
      var n := |trace| - 1;
      EveryRunKeepsCapacity(lim, start, trace[..n]);
      EveryRunIsLimited(lim, start, trace[..n]);
      LimitedIsConsistent(lim, After(lim, start, trace[..n]));
      StepKeepsCapacity(lim, After(lim, start, trace[..n]), trace[n]);
      StepKeepsComplete(lim, After(lim, start, trace[..n]), trace[n]);
    }
  }

  lemma LimitedIsConsistent(lim: Limits, s: Store)
    requires Limited(lim, s)
    ensures Consistent(s)
  {
  }

  /** Writing needs room in the declared size; terminating needs an incomplete upload; a deleted row gives its bytes back. */
  lemma OthersLeave(lim: Limits, s: Store, e: Event)
    ensures e.Write? ==>
              var fits := e.upload in s.staged && s.staged[e.upload].written + e.bytes <= s.staged[e.upload].size;
              var t := Next(lim, s, e);
              && t.rows == s.rows && t.reserved == s.reserved && t.finishing == s.finishing
              && (!fits ==> t.staged == s.staged && t.free == s.free)
              && (fits ==> t.free == s.free - e.bytes && e.upload in t.staged
                           && t.staged[e.upload].written == s.staged[e.upload].written + e.bytes
                           && t.staged[e.upload].user == s.staged[e.upload].user && t.staged[e.upload].size == s.staged[e.upload].size
                           && t.staged - {e.upload} == s.staged - {e.upload})
    ensures e.Terminate? ==>
              var t := Next(lim, s, e);
              && t.rows == s.rows && t.reserved == s.reserved && t.finishing == s.finishing
              && t.staged == (if e.upload in s.staged && s.staged[e.upload].written < s.staged[e.upload].size then s.staged - {e.upload} else s.staged)
    ensures e.DeleteRow? ==>
              var t := Next(lim, s, e);
              t.rows == s.rows - {e.row} && t.reserved == s.reserved && t.staged == s.staged && t.finishing == s.finishing
  {
  }
}

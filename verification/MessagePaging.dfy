/**
 Paging through a channel's messages
 (packages/server/src/routes/messages.ts, lines 173-258;
 packages/server/src/routes/dm.ts, lines 2248-2357;
 packages/server/src/routes/search.ts, lines 329-430 and 433-530).

 Pages are cut by message id but ordered by creation time. Ids are compared as
 text. ORDER BY leaves the order of equal times open, so a query is a relation
 between a table and the rows it may return.
 */
module MessagePaging {
  import opened Totals

  datatype Row = Row(id: string, channel: string, createdAt: int, author: string)

  // ---------------------------------------------------------------------
  // Ids
  // ---------------------------------------------------------------------

  /** SQLite's binary text order. */
  predicate Less(a: string, b: string) {
    b != [] && (a == [] || a[0] < b[0] || (a[0] == b[0] && Less(a[1..], b[1..])))
  }

  lemma {:induction false} LessIsStrict(a: string, b: string)
    requires Less(a, b)
    ensures a != b && !Less(b, a)
  {
    if a != [] && a[0] == b[0] {
      LessIsStrict(a[1..], b[1..]);
    }
  }

  predicate Decimal(id: string) {
    forall i :: 0 <= i < |id| ==> '0' <= id[i] <= '9'
  }

  function Power10(n: nat): nat {
    if n == 0 then 1 else 10 * Power10(n - 1)
  }

  function Value(id: string): nat
    requires Decimal(id)
  {
    if id == [] then 0 else (id[0] as int - '0' as int) * Power10(|id| - 1) + Value(id[1..])
  }

  lemma {:induction false} ValueFits(id: string)
    requires Decimal(id)
    ensures Value(id) < Power10(|id|)
  {
    if id != [] {
      ValueFits(id[1..]);
      LeadingDigitDecides(id[0] as int - '0' as int, 10, Power10(|id| - 1), Value(id[1..]), 0);
    }
  }

  lemma LeadingDigitDecides(x: nat, y: nat, p: nat, u: nat, v: nat)
    requires x < y && u < p
    ensures x * p + u < y * p + v
  {
    assert (x + 1) * p <= y * p;
    assert (x + 1) * p == x * p + p;
  }

  lemma ValueSplits(id: string)
    requires Decimal(id) && id != []
    ensures Value(id) == (id[0] as int - '0' as int) * Power10(|id| - 1) + Value(id[1..]) && Value(id[1..]) < Power10(|id| - 1)
  {
    ValueFits(id[1..]);
  }

  /** Decimal ids of one length compare as text exactly as they compare as numbers. */
  lemma {:induction false} DecimalIdsCompareAsNumbers(a: string, b: string)
    requires |a| == |b| && Decimal(a) && Decimal(b)
    ensures Less(a, b) <==> Value(a) < Value(b)
  {
    if a != [] {
      DecimalIdsCompareAsNumbers(a[1..], b[1..]);
      ValueSplits(a);
      ValueSplits(b);
      hide Value, Power10;
      var x, y, p := a[0] as int - '0' as int, b[0] as int - '0' as int, Power10(|a| - 1);
      if x < y {
        LeadingDigitDecides(x, y, p, Value(a[1..]), Value(b[1..]));
      } else if y < x {
        LeadingDigitDecides(y, x, p, Value(b[1..]), Value(a[1..]));
      }
    }
  }

  // ---------------------------------------------------------------------
  // A channel's history
  // ---------------------------------------------------------------------

  function Rows(s: seq<Row>): set<Row> {
    set r | r in s
  }

  /** The channel's rows in id order; ids are the primary key. */
  ghost predicate ById(h: seq<Row>) {
    forall i, j :: 0 <= i < j < |h| ==> Less(h[i].id, h[j].id)
  }

  /** Creation times follow the ids strictly. */
  ghost predicate Chronological(h: seq<Row>) {
    forall i, j :: 0 <= i < j < |h| ==> h[i].createdAt < h[j].createdAt
  }

  ghost predicate HistoryOf(h: seq<Row>, table: set<Row>, channel: string) {
    ById(h) && Rows(h) == set r | r in table && r.channel == channel
  }

  lemma ByIdDistinct(h: seq<Row>, i: nat, j: nat)
    requires ById(h) && i < |h| && j < |h|
    ensures Less(h[i].id, h[j].id) <==> i < j
    ensures h[i].id == h[j].id <==> i == j
  {
    if i < j {
      LessIsStrict(h[i].id, h[j].id);
    } else if j < i {
      LessIsStrict(h[j].id, h[i].id);
    } else if Less(h[i].id, h[j].id) {
      LessIsStrict(h[i].id, h[j].id);
    }
  }

  lemma {:induction false} RowsSize(h: seq<Row>)
    requires forall i, j :: 0 <= i < j < |h| ==> h[i] != h[j]
    ensures |Rows(h)| == |h|
  {
    if h != [] {
      var n := |h| - 1;
      RowsSize(h[..n]);
      assert Rows(h) == Rows(h[..n]) + {h[n]} && h[n] !in Rows(h[..n]);
    }
  }

  lemma PrefixSize(h: seq<Row>, lo: nat, hi: nat)
    requires ById(h) && lo <= hi <= |h|
    ensures |Rows(h[lo..hi])| == hi - lo
  {
    forall i, j | 0 <= i < j < hi - lo ensures h[lo..hi][i] != h[lo..hi][j] {
      ByIdDistinct(h, lo + i, lo + j);
    }
    RowsSize(h[lo..hi]);
  }

  // ---------------------------------------------------------------------
  // Queries
  // ---------------------------------------------------------------------

  function Min(a: int, b: int): int {
    if a <= b then a else b
  }

  function Max(a: int, b: int): int {
    if a <= b then b else a
  }

  /** One row may come before another in a result. */
  predicate InOrder(a: Row, b: Row, newestFirst: bool) {
    if newestFirst then a.createdAt >= b.createdAt else a.createdAt <= b.createdAt
  }

  /** ORDER BY created_at LIMIT limit: as many rows as allowed, in order, nothing left out that comes strictly earlier. */
  ghost predicate Answers(rows: set<Row>, limit: nat, newestFirst: bool, result: seq<Row>) {
    && |result| == Min(limit, |rows|)
    && Rows(result) <= rows
    && (forall i, j :: 0 <= i < j < |result| ==> result[i] != result[j] && InOrder(result[i], result[j], newestFirst))
    && (forall i, r :: 0 <= i < |result| && r in rows && r !in result ==> InOrder(result[i], r, newestFirst))
  }

  function Older(table: set<Row>, channel: string, before: Option<string>): set<Row> {
    set r | r in table && r.channel == channel && (before.None? || before.value == "" || Less(r.id, before.value))
  }

  function UpTo(table: set<Row>, channel: string, id: string): set<Row> {
    set r | r in table && r.channel == channel && !Less(id, r.id)
  }

  function Newer(table: set<Row>, channel: string, id: string): set<Row> {
    set r | r in table && r.channel == channel && Less(id, r.id)
  }

  lemma {:induction false} TotalOrder(a: string, b: string)
    ensures Less(a, b) || a == b || Less(b, a)
  {
    if a != [] && b != [] && a[0] == b[0] {
      TotalOrder(a[1..], b[1..]);
      assert a == [a[0]] + a[1..] && b == [b[0]] + b[1..];
    }
  }

  /** Cutting by id cuts the history in two. */
  lemma CutAtId(h: seq<Row>, table: set<Row>, channel: string, k: nat)
    requires HistoryOf(h, table, channel) && k < |h|
    ensures h[k].id != "" ==> Older(table, channel, Some(h[k].id)) == Rows(h[..k])
    ensures UpTo(table, channel, h[k].id) == Rows(h[..k + 1])
    ensures Newer(table, channel, h[k].id) == Rows(h[k + 1..])
  {
    forall r | r in Rows(h) ensures exists i :: 0 <= i < |h| && h[i] == r && (Less(r.id, h[k].id) <==> i < k) && (Less(h[k].id, r.id) <==> k < i) {
      var i :| 0 <= i < |h| && h[i] == r;
      ByIdDistinct(h, i, k);
      ByIdDistinct(h, k, i);
    }
    forall i | 0 <= i < |h| ensures h[i] in Rows(h) && (Less(h[i].id, h[k].id) <==> i < k) && (Less(h[k].id, h[i].id) <==> k < i) {
      ByIdDistinct(h, i, k);
      ByIdDistinct(h, k, i);
    }
  }

  function Reversed(s: seq<Row>): (r: seq<Row>)
    ensures |r| == |s|
    ensures forall i :: 0 <= i < |s| ==> r[i] == s[|s| - 1 - i]
  {
    seq(|s|, i requires 0 <= i < |s| => s[|s| - 1 - i])
  }

  /** In a chronological history the query's j-th row is the j-th newest. */
  lemma {:induction false} NthNewest(h: seq<Row>, limit: nat, result: seq<Row>, j: nat)
    requires ById(h) && Chronological(h) && Answers(Rows(h), limit, true, result) && j < |result|
    ensures |result| <= |h| && result[j] == h[|h| - 1 - j]
  {
    assert h[0..|h|] == h;
    PrefixSize(h, 0, |h|);
    forall q | |h| - 1 - j < q < |h| ensures result[|h| - 1 - q] == h[q] {
      NthNewest(h, limit, result, |h| - 1 - q);
    }
    assert result[j] in Rows(result);
    var m :| 0 <= m < |h| && h[m] == result[j];
    var best := h[|h| - 1 - j];
    assert m <= |h| - 1 - j;
    forall i | 0 <= i < j ensures result[i] != best {
      assert result[|h| - 1 - (|h| - 1 - i)] == h[|h| - 1 - i];
      ByIdDistinct(h, |h| - 1 - i, |h| - 1 - j);
    }
    if best in result {
      var i :| 0 <= i < |result| && result[i] == best;
    }
  }

  lemma {:induction false} NthOldest(h: seq<Row>, limit: nat, result: seq<Row>, j: nat)
    requires ById(h) && Chronological(h) && Answers(Rows(h), limit, false, result) && j < |result|
    ensures |result| <= |h| && result[j] == h[j]
  {
    assert h[0..|h|] == h;
    PrefixSize(h, 0, |h|);
    forall q | 0 <= q < j ensures result[q] == h[q] {
      NthOldest(h, limit, result, q);
    }
    assert result[j] in Rows(result);
    var m :| 0 <= m < |h| && h[m] == result[j];
    assert m >= j;
    forall i | 0 <= i < j ensures result[i] != h[j] {
      ByIdDistinct(h, i, j);
    }
    if h[j] in result {
      var i :| 0 <= i < |result| && result[i] == h[j];
    }
  }

  /** With ids and times in agreement, a page is the newest rows of the history cut so far. */
  lemma PageIsSuffix(h: seq<Row>, limit: nat, result: seq<Row>)
    requires ById(h) && Chronological(h) && Answers(Rows(h), limit, true, result)
    ensures Reversed(result) == h[Max(0, |h| - limit)..]
  {
    assert h[0..|h|] == h;
    PrefixSize(h, 0, |h|);
    forall j | 0 <= j < |result| ensures result[j] == h[|h| - 1 - j] {
      NthNewest(h, limit, result, j);
    }
  }

  lemma RestIsPrefix(h: seq<Row>, limit: nat, result: seq<Row>)
    requires ById(h) && Chronological(h) && Answers(Rows(h), limit, false, result)
    ensures result == h[..Min(limit, |h|)]
  {
    assert h[0..|h|] == h;
    PrefixSize(h, 0, |h|);
    forall j | 0 <= j < |result| ensures result[j] == h[j] {
      NthOldest(h, limit, result, j);
    }
  }

  // ---------------------------------------------------------------------
  // The handlers
  // ---------------------------------------------------------------------

  /** Number(limit) || 50, clamped to 1..100. */
  function Limit(requested: Option<int>): (limit: nat)
    ensures 1 <= limit <= 100
  {
    var n := if requested.None? || requested.value == 0 then 50 else requested.value;
    Min(Max(n, 1), 100)
  }

  /** Rows whose author row is missing are dropped. */
  function Known(users: set<string>, rows: seq<Row>): seq<Row> {
    if rows == [] then []
    else
      var before, last := Known(users, rows[..|rows| - 1]), rows[|rows| - 1];
      if last.author in users then before + [last] else before
  }

  lemma {:induction false} AllKnown(users: set<string>, rows: seq<Row>)
    requires forall r :: r in rows ==> r.author in users
    ensures Known(users, rows) == rows
  {
    if rows != [] {
      AllKnown(users, rows[..|rows| - 1]);
    }
  }

  /** `Number(limit) || 50`, told case by case. */
  lemma LimitIs(n: int)
    ensures Limit(None) == 50 && Limit(Some(0)) == 50
    ensures n < 0 ==> Limit(Some(n)) == 1
    ensures 1 <= n <= 100 ==> Limit(Some(n)) == n
    ensures n > 100 ==> Limit(Some(n)) == 100
  {
  }

  /** `at` picks the rows of `part` out of `whole`, in order. */
  ghost predicate Picks(at: seq<nat>, part: seq<Row>, whole: seq<Row>) {
    && |at| == |part|
    && (forall i :: 0 <= i < |at| ==> at[i] < |whole| && part[i] == whole[at[i]])
    && (forall i, j :: 0 <= i < j < |at| ==> at[i] < at[j])
  }

  lemma PickMore(at: seq<nat>, part: seq<Row>, rows: seq<Row>, n: nat)
    requires n + 1 == |rows| && Picks(at, part, rows[..n])
    ensures Picks(at, part, rows) && Picks(at + [n], part + [rows[n]], rows)
    ensures forall i :: (i in at ==> i < n) && (i in at + [n] <==> i in at || i == n)
  {
  }

  /** Exactly the rows with a known author are left, in order. */
  lemma {:induction false} KnownIsFiltered(users: set<string>, rows: seq<Row>) returns (at: seq<nat>)
    ensures Picks(at, Known(users, rows), rows)
    ensures forall i :: 0 <= i < |rows| ==> (i in at <==> rows[i].author in users)
  {
    at := [];
    if rows != [] {
      var n := |rows| - 1;
      at := KnownIsFiltered(users, rows[..n]);
      PickMore(at, Known(users, rows[..n]), rows, n);
      hide Picks;
      if rows[n].author in users {
        at := at + [n];
      }
    }
  }

  predicate FirstOfId(rows: seq<Row>, i: nat)
    requires i < |rows|
  {
    forall j :: 0 <= j < i ==> rows[j].id != rows[i].id
  }

  lemma FirstOfIdIff(rows: seq<Row>, n: nat)
    requires n < |rows|
    ensures FirstOfId(rows, n) <==> rows[n].id !in Ids(rows[..n])
    ensures forall i: nat :: i < n ==> (FirstOfId(rows, i) <==> FirstOfId(rows[..n], i))
  {
    assert forall j :: 0 <= j < n ==> rows[j] in rows[..n];
  }

  /** Exactly the first row of each id is left, in order. */
  lemma {:induction false} UniqueIsFirsts(rows: seq<Row>) returns (at: seq<nat>)
    ensures Picks(at, Unique(rows), rows)
    ensures forall i :: 0 <= i < |rows| ==> (i in at <==> FirstOfId(rows, i))
  {
    at := [];
    if rows != [] {
      var n := |rows| - 1;
      at := UniqueIsFirsts(rows[..n]);
      PickMore(at, Unique(rows[..n]), rows, n);
      FirstOfIdIff(rows, n);
      hide Picks, FirstOfId;
      if rows[n].id !in Ids(rows[..n]) {
        at := at + [n];
      }
    }
  }

  lemma EarlierOfTwo(rest: set<Row>, r: Row, m: Row, newestFirst: bool)
    requires forall x :: x in rest ==> InOrder(m, x, newestFirst)
    ensures var best := if InOrder(m, r, newestFirst) then m else r;
            InOrder(best, r, newestFirst) && forall x :: x in rest ==> InOrder(best, x, newestFirst)
  {
  }

  lemma {:induction false} SomeRowIsFirst(rows: set<Row>, newestFirst: bool)
    requires rows != {}
    ensures exists m :: m in rows && forall r :: r in rows ==> InOrder(m, r, newestFirst)
    decreases |rows|
  {
    var r :| r in rows;
    var rest := rows - {r};
    assert forall x :: x in rows ==> x in rest || x == r;
    if rest == {} {
      assert forall x :: x in rows ==> InOrder(r, x, newestFirst);
    } else {
      SomeRowIsFirst(rest, newestFirst);
      var m :| m in rest && forall x :: x in rest ==> InOrder(m, x, newestFirst);
      EarlierOfTwo(rest, r, m, newestFirst);
      var best := if InOrder(m, r, newestFirst) then m else r;
      assert best in rows && forall x :: x in rows ==> InOrder(best, x, newestFirst);
    }
  }

  /** The rows taken so far come before every row of `rest`. */
  ghost predicate Taken(rows: set<Row>, rest: set<Row>, newestFirst: bool, result: seq<Row>) {
    && rest <= rows && Rows(result) == rows - rest && |result| == |rows| - |rest|
    && (forall i, j :: 0 <= i < j < |result| ==> result[i] != result[j] && InOrder(result[i], result[j], newestFirst))
    && (forall i, r :: 0 <= i < |result| && r in rest ==> InOrder(result[i], r, newestFirst))
  }

  lemma TakeOne(rows: set<Row>, rest: set<Row>, newestFirst: bool, result: seq<Row>, m: Row)
    requires Taken(rows, rest, newestFirst, result) && m in rest
    requires forall r :: r in rest ==> InOrder(m, r, newestFirst)
    ensures Taken(rows, rest - {m}, newestFirst, result + [m])
  {
    var more := result + [m];
    assert Rows(more) == Rows(result) + {m};
    forall i, j | 0 <= i < j < |more| ensures more[i] != more[j] && InOrder(more[i], more[j], newestFirst) {
      assert result[i] in Rows(result);
    }
  }

  lemma TakenAnswers(rows: set<Row>, rest: set<Row>, newestFirst: bool, result: seq<Row>, limit: nat)
    requires Taken(rows, rest, newestFirst, result) && |result| == Min(limit, |rows|)
    ensures Answers(rows, limit, newestFirst, result)
  {
    forall r | r in rows && r !in result ensures r in rest {
      assert r !in Rows(result);
    }
  }

  /** The query engine: takes an earliest remaining row until the limit is reached. */
  method Select(rows: set<Row>, limit: nat, newestFirst: bool) returns (result: seq<Row>)
    ensures Answers(rows, limit, newestFirst, result)
  {
    result := [];
    var rest := rows;
    while |result| < limit && rest != {}
      invariant Taken(rows, rest, newestFirst, result) && |result| <= limit
      decreases |rest|
    {
      SomeRowIsFirst(rest, newestFirst);
      var m :| m in rest && forall r :: r in rest ==> InOrder(m, r, newestFirst);
      TakeOne(rows, rest, newestFirst, result, m);
      result := result + [m];
      rest := rest - {m};
    }
    TakenAnswers(rows, rest, newestFirst, result, limit);
  }

  /** GET messages, for channels and direct messages alike. */
  method GetMessages(table: set<Row>, users: set<string>, channel: string, before: Option<string>, requested: Option<int>)
    returns (page: seq<Row>)
    ensures exists result :: Answers(Older(table, channel, before), Limit(requested), true, result)
                             && page == Known(users, Reversed(result))
  {
    var rows := Select(Older(table, channel, before), Limit(requested), true);
    page := Known(users, Reversed(rows));
  }

  /** First occurrences only. */
  function Unique(rows: seq<Row>): seq<Row> {
    if rows == [] then []
    else
      var n := |rows| - 1;
      if rows[n].id in Ids(rows[..n]) then Unique(rows[..n]) else Unique(rows[..n]) + [rows[n]]
  }

  function Ids(rows: seq<Row>): set<string> {
    set r | r in rows :: r.id
  }

  lemma {:induction false} DistinctIsUnique(rows: seq<Row>)
    requires forall i, j :: 0 <= i < j < |rows| ==> rows[i].id != rows[j].id
    ensures Unique(rows) == rows
  {
    if rows != [] {
      DistinctIsUnique(rows[..|rows| - 1]);
    }
  }

  method Deduplicate(rows: seq<Row>) returns (unique: seq<Row>)
    ensures unique == Unique(rows)
  {
    var seen: set<string> := {};
    unique := [];
    for i := 0 to |rows|
      invariant seen == Ids(rows[..i]) && unique == Unique(rows[..i])
    {
      assert rows[..i + 1][..i] == rows[..i];
      if rows[i].id !in seen {
        seen := seen + {rows[i].id};
        unique := unique + [rows[i]];
      }
      assert rows[..i + 1] == rows[..i] + [rows[i]];
    }
    assert rows[..|rows|] == rows;
  }

  /** GET messages/around: None when the target is not in the channel. */
  method GetAround(table: set<Row>, users: set<string>, channel: string, id: string, requested: Option<int>)
    returns (found: Option<seq<Row>>)
    ensures found.Some? <==> exists r :: r in table && r.channel == channel && r.id == id
    ensures found.Some? ==> exists upTo, newer ::
              && Answers(UpTo(table, channel, id), Limit(requested) / 2 + 1, true, upTo)
              && Answers(Newer(table, channel, id), Limit(requested) / 2, false, newer)
              && found.value == Known(users, Unique(Reversed(upTo) + newer))
  {
    var half := Limit(requested) / 2;
    if !exists r :: r in table && r.channel == channel && r.id == id {
      return None;
    }
    var upTo := Select(UpTo(table, channel, id), half + 1, true);
    var newer := Select(Newer(table, channel, id), half, false);
    var unique := Deduplicate(Reversed(upTo) + newer);
    found := Some(Known(users, unique));
  }

  /**
   Around a message: a contiguous slice of the history that holds the target,
   with min(half + 1, available) messages at or before it and min(half,
   available) after it.
   */
  lemma AroundIsSlice(h: seq<Row>, table: set<Row>, channel: string, users: set<string>, k: nat, half: nat,
                      upTo: seq<Row>, newer: seq<Row>)
    requires HistoryOf(h, table, channel) && Chronological(h) && k < |h|
    requires forall r :: r in h ==> r.author in users
    requires Answers(UpTo(table, channel, h[k].id), half + 1, true, upTo)
    requires Answers(Newer(table, channel, h[k].id), half, false, newer)
    ensures var slice := Known(users, Unique(Reversed(upTo) + newer));
            && slice == h[Max(0, k - half)..Min(|h|, k + 1 + half)]
            && |upTo| == Min(half + 1, k + 1) && |newer| == Min(half, |h| - 1 - k)
  {
    CutAtId(h, table, channel, k);
    BothHalves(h, k, half, upTo, newer);
    var lo, hi := Max(0, k - half), Min(|h|, k + 1 + half);
    SliceIsUnique(h, lo, hi);
    AllKnown(users, h[lo..hi]);
  }

  lemma SliceIsUnique(h: seq<Row>, lo: nat, hi: nat)
    requires ById(h) && lo <= hi <= |h|
    ensures Unique(h[lo..hi]) == h[lo..hi]
  {
    forall i, j | 0 <= i < j < hi - lo ensures h[lo..hi][i].id != h[lo..hi][j].id {
      ByIdDistinct(h, lo + i, lo + j);
    }
    DistinctIsUnique(h[lo..hi]);
  }

  lemma UpToHalf(h: seq<Row>, k: nat, half: nat, upTo: seq<Row>)
    requires ById(h) && Chronological(h) && k < |h|
    requires Answers(Rows(h[..k + 1]), half + 1, true, upTo)
    ensures Reversed(upTo) == h[..k + 1][Max(0, k - half)..]
  {
    PageIsSuffix(h[..k + 1], half + 1, upTo);
  }

  lemma NewerHalf(h: seq<Row>, k: nat, half: nat, newer: seq<Row>)
    requires ById(h) && Chronological(h) && k < |h|
    requires Answers(Rows(h[k + 1..]), half, false, newer)
    ensures newer == h[k + 1..][..Min(half, |h| - 1 - k)]
  {
    RestIsPrefix(h[k + 1..], half, newer);
  }

  lemma BothHalves(h: seq<Row>, k: nat, half: nat, upTo: seq<Row>, newer: seq<Row>)
    requires ById(h) && Chronological(h) && k < |h|
    requires Answers(Rows(h[..k + 1]), half + 1, true, upTo)
    requires Answers(Rows(h[k + 1..]), half, false, newer)
    ensures Reversed(upTo) + newer == h[Max(0, k - half)..Min(|h|, k + 1 + half)]
    ensures |upTo| == Min(half + 1, k + 1) && |newer| == Min(half, |h| - 1 - k)
  {
    UpToHalf(h, k, half, upTo);
    NewerHalf(h, k, half, newer);
    hide Answers, ById, Chronological, Rows;
    SlicesMeet(h, Max(0, k - half), k + 1, Min(half, |h| - 1 - k));
  }

  lemma SlicesMeet(h: seq<Row>, lo: nat, mid: nat, more: nat)
    requires lo <= mid && mid + more <= |h|
    ensures h[..mid][lo..] + h[mid..][..more] == h[lo..mid + more]
  {
  }

  // ---------------------------------------------------------------------
  // Reading a whole channel backwards
  // ---------------------------------------------------------------------

  /** `page` may answer the query for the rows before the cursor; `h` holds the whole channel in id order. */
  ghost predicate LegalPage(h: seq<Row>, cursor: nat, limit: nat, page: seq<Row>)
    requires cursor <= |h|
  {
    exists result :: Answers(Rows(h[..cursor]), limit, true, result) && page == Reversed(result)
  }

  /** Where the next cursor stands: at the page's first message. */
  ghost predicate CursorAt(h: seq<Row>, page: seq<Row>, next: nat) {
    page != [] && next < |h| && h[next] == page[0]
  }

  /** A reading from `cursor` back to an empty page that collects `all`, in order. */
  ghost predicate Reads(h: seq<Row>, cursor: nat, limit: nat, pages: seq<seq<Row>>, all: seq<Row>)
    requires cursor <= |h|
    decreases |pages|
  {
    && pages != []
    && LegalPage(h, cursor, limit, pages[0])
    && if pages[0] == [] then |pages| == 1 && all == []
       else exists next, rest :: CursorAt(h, pages[0], next) && Reads(h, next, limit, pages[1..], rest) && all == rest + pages[0]
  }

  lemma LegalPageIsSlice(h: seq<Row>, cursor: nat, limit: nat, page: seq<Row>)
    requires ById(h) && Chronological(h) && cursor <= |h| && LegalPage(h, cursor, limit, page)
    ensures page == h[Max(0, cursor - limit)..cursor]
  {
    var result :| Answers(Rows(h[..cursor]), limit, true, result) && page == Reversed(result);
    PageIsSuffix(h[..cursor], limit, result);
    assert h[..cursor][Max(0, cursor - limit)..] == h[Max(0, cursor - limit)..cursor];
  }

  /** With ids and times in agreement, every reading visits every message exactly once, in order. */
  lemma {:induction false} ReadingIsExact(h: seq<Row>, cursor: nat, limit: nat, pages: seq<seq<Row>>, all: seq<Row>)
    requires ById(h) && Chronological(h) && cursor <= |h| && limit >= 1
    requires Reads(h, cursor, limit, pages, all)
    ensures all == h[..cursor]
    decreases |pages|
  {
    hide LegalPage, Chronological;
    LegalPageIsSlice(h, cursor, limit, pages[0]);
    var lo := Max(0, cursor - limit);
    if pages[0] != [] {
      var next, rest :| CursorAt(h, pages[0], next) && Reads(h, next, limit, pages[1..], rest) && all == rest + pages[0];
      ByIdDistinct(h, next, lo);
      ReadingIsExact(h, next, limit, pages[1..], rest);
      assert h[..cursor] == h[..lo] + h[lo..cursor];
    }
  }

  /** Every page the handler returns is a legal page, and its first id is the next cursor. */
  lemma HandlerPagesAreLegal(h: seq<Row>, table: set<Row>, channel: string, users: set<string>, cursor: nat, before: Option<string>,
                             limit: nat, result: seq<Row>)
    requires HistoryOf(h, table, channel) && cursor <= |h|
    requires forall r :: r in h ==> r.author in users && r.id != ""
    requires if cursor == |h| then before == None else before == Some(h[cursor].id)
    requires Answers(Older(table, channel, before), limit, true, result)
    ensures LegalPage(h, cursor, limit, Known(users, Reversed(result)))
  {
    if cursor < |h| {
      assert h[cursor] in h;
      CutAtId(h, table, channel, cursor);
    } else {
      assert h[..cursor] == h;
      assert Older(table, channel, None) == Rows(h);
    }
    assert Older(table, channel, before) == Rows(h[..cursor]);
    forall r | r in Reversed(result) ensures r in h {
      var i :| 0 <= i < |result| && Reversed(result)[i] == r;
      assert result[|result| - 1 - i] in Rows(result);
      assert r in Rows(h[..cursor]);
    }
    AllKnown(users, Reversed(result));
  }

  lemma {:induction false} AnswerExists(rows: set<Row>, rest: set<Row>, limit: nat, newestFirst: bool, taken: seq<Row>) returns (result: seq<Row>)
    requires Taken(rows, rest, newestFirst, taken) && |taken| <= limit
    ensures Answers(rows, limit, newestFirst, result)
    decreases |rest|
  {
    if |taken| == limit || rest == {} {
      TakenAnswers(rows, rest, newestFirst, taken, limit);
      result := taken;
    } else {
      SomeRowIsFirst(rest, newestFirst);
      var m :| m in rest && forall r :: r in rest ==> InOrder(m, r, newestFirst);
      TakeOne(rows, rest, newestFirst, taken, m);
      result := AnswerExists(rows, rest - {m}, limit, newestFirst, taken + [m]);
    }
  }

  lemma PageExists(h: seq<Row>, cursor: nat, limit: nat) returns (page: seq<Row>)
    requires cursor <= |h|
    ensures LegalPage(h, cursor, limit, page)
  {
    var rows := Rows(h[..cursor]);
    var result := AnswerExists(rows, rows, limit, true, []);
    page := Reversed(result);
  }

  /** A page holds rows before the cursor, as many as the limit and the history allow. */
  lemma PageFits(h: seq<Row>, cursor: nat, limit: nat, page: seq<Row>)
    requires ById(h) && cursor <= |h| && LegalPage(h, cursor, limit, page)
    ensures |page| == Min(limit, cursor)
    ensures forall k :: 0 <= k < |page| ==> page[k] in Rows(h[..cursor])
  {
    var result :| Answers(Rows(h[..cursor]), limit, true, result) && page == Reversed(result);
    assert h[0..cursor] == h[..cursor];
    PrefixSize(h, 0, cursor);
    forall k | 0 <= k < |page| ensures page[k] in Rows(h[..cursor]) {
      assert result[|page| - 1 - k] in Rows(result);
    }
  }

  /** Whatever page the database returns, the reading can go on to its end. */
  lemma {:induction false} ReadingOn(h: seq<Row>, cursor: nat, limit: nat, page: seq<Row>) returns (pages: seq<seq<Row>>, all: seq<Row>)
    requires ById(h) && cursor <= |h| && limit >= 1 && LegalPage(h, cursor, limit, page)
    ensures Reads(h, cursor, limit, pages, all)
    ensures |page| <= |all| && all[|all| - |page|..] == page
    decreases cursor
  {
    PageFits(h, cursor, limit, page);
    if page == [] {
      return [[]], [];
    }
    assert page[0] in Rows(h[..cursor]);
    var next :| 0 <= next < cursor && h[..cursor][next] == page[0];
    assert CursorAt(h, page, next);
    var more := PageExists(h, next, limit);
    var restPages, rest := ReadingOn(h, next, limit, more);
    pages, all := [page] + restPages, rest + page;
    assert pages[1..] == restPages;
  }

  /** A page that is not the slice before the cursor spoils the reading. */
  lemma OddPage(h: seq<Row>, cursor: nat, limit: nat, page: seq<Row>) returns (pages: seq<seq<Row>>, all: seq<Row>)
    requires ById(h) && cursor <= |h| && limit >= 1 && LegalPage(h, cursor, limit, page)
    requires page != h[Max(0, cursor - limit)..cursor]
    ensures Reads(h, cursor, limit, pages, all) && all != h[..cursor]
  {
    PageFits(h, cursor, limit, page);
    pages, all := ReadingOn(h, cursor, limit, page);
    assert h[..cursor][cursor - |page|..] == h[cursor - |page|..cursor];
  }

  /** Rows with the same times answer the same query, as long as what is left out is no newer. */
  lemma AnotherAnswer(rows: set<Row>, limit: nat, result: seq<Row>, again: seq<Row>)
    requires Answers(rows, limit, true, result) && |again| == |result| && Rows(again) <= rows
    requires forall m :: 0 <= m < |result| ==> again[m].createdAt == result[m].createdAt
    requires forall x, y :: 0 <= x < y < |again| ==> again[x] != again[y]
    requires forall m, r :: 0 <= m < |again| && r in rows && r !in again ==> again[m].createdAt >= r.createdAt
    ensures Answers(rows, limit, true, again)
  {
  }

  lemma SameMembers(s: seq<Row>)
    ensures forall r :: r in Reversed(s) <==> r in s
  {
    forall r | r in s ensures r in Reversed(s) {
      var k :| 0 <= k < |s| && s[k] == r;
      assert Reversed(s)[|s| - 1 - k] == r;
    }
  }

  lemma SliceAnswers(h: seq<Row>, cursor: nat, limit: nat, lo: nat)
    requires lo <= cursor <= |h| && LegalPage(h, cursor, limit, h[lo..cursor])
    ensures Answers(Rows(h[..cursor]), limit, true, Reversed(h[lo..cursor]))
  {
    hide Answers;
    var result :| Answers(Rows(h[..cursor]), limit, true, result) && h[lo..cursor] == Reversed(result);
    assert Reversed(Reversed(result)) == result;
  }

  /** When the answer is the slice before the cursor, nothing before a row of the slice is newer. */
  lemma SliceInOrder(h: seq<Row>, cursor: nat, limit: nat, lo: nat, i: nat, j: nat)
    requires ById(h) && lo <= cursor <= |h| && Answers(Rows(h[..cursor]), limit, true, Reversed(h[lo..cursor]))
    requires i < j && lo <= j < cursor
    ensures h[i].createdAt <= h[j].createdAt
  {
    var result := Reversed(h[lo..cursor]);
    assert result[cursor - 1 - j] == h[j];
    if i >= lo {
      assert result[cursor - 1 - i] == h[i];
    } else {
      assert h[..cursor][i] in Rows(h[..cursor]);
      SameMembers(h[lo..cursor]);
      NotInSlice(h, i, lo, cursor);
    }
  }

  lemma NotInSlice(h: seq<Row>, i: nat, lo: nat, hi: nat)
    requires ById(h) && i < lo <= hi <= |h|
    ensures h[i] !in h[lo..hi]
  {
    forall k | 0 <= k < hi - lo ensures h[lo..hi][k] != h[i] {
      ByIdDistinct(h, i, lo + k);
    }
  }

  /** The index with i and j exchanged. */
  function Exchanged(i: nat, j: nat, k: nat): nat {
    if k == j then i else if k == i then j else k
  }

  /** The slice, newest first, with h[i] and h[j] exchanged: swapped in the page, or h[j] replaced by an earlier row. */
  function Choice(h: seq<Row>, cursor: nat, lo: nat, i: nat, j: nat): (rows: seq<Row>)
    requires lo <= cursor <= |h| && i < cursor && j < cursor
    ensures |rows| == cursor - lo
    ensures forall m :: 0 <= m < |rows| ==> rows[m] == h[Exchanged(i, j, cursor - 1 - m)]
  {
    seq(cursor - lo, m requires 0 <= m < cursor - lo => h[Exchanged(i, j, cursor - 1 - m)])
  }

  /** Nothing before a row of the slice is newer than it. */
  ghost predicate SliceIsNewest(h: seq<Row>, cursor: nat, lo: nat)
    requires lo <= cursor <= |h|
  {
    forall x, y :: 0 <= x < y && lo <= y < cursor ==> h[x].createdAt <= h[y].createdAt
  }

  /** Rows outside the new choice are no newer than any row of the slice. */
  lemma OutsideIsOlder(h: seq<Row>, cursor: nat, lo: nat, i: nat, j: nat, r: Row, m: nat)
    requires lo <= j < cursor <= |h| && i < j && h[i].createdAt == h[j].createdAt && lo <= m < cursor
    requires SliceIsNewest(h, cursor, lo)
    requires r in Rows(h[..cursor]) && r !in Choice(h, cursor, lo, i, j)
    ensures h[m].createdAt >= r.createdAt
  {
    var k :| 0 <= k < cursor && h[..cursor][k] == r;
    var place := Exchanged(i, j, k);
    assert lo <= place ==> Choice(h, cursor, lo, i, j)[cursor - 1 - place] == h[k];
    assert h[k].createdAt == h[place].createdAt;
  }

  lemma ChoiceTimes(h: seq<Row>, cursor: nat, lo: nat, i: nat, j: nat)
    requires lo <= j < cursor <= |h| && i < j && h[i].createdAt == h[j].createdAt
    ensures forall m :: 0 <= m < cursor - lo ==> Choice(h, cursor, lo, i, j)[m].createdAt == h[cursor - 1 - m].createdAt
    ensures forall m :: 0 <= m < cursor - lo ==> Reversed(h[lo..cursor])[m] == h[cursor - 1 - m]
  {
  }

  lemma ChoiceIsDistinct(h: seq<Row>, cursor: nat, lo: nat, i: nat, j: nat)
    requires ById(h) && lo <= j < cursor <= |h| && i < j
    ensures var rows := Choice(h, cursor, lo, i, j); forall x, y :: 0 <= x < y < |rows| ==> rows[x] != rows[y]
  {
    forall x, y | 0 <= x < y < cursor - lo ensures Choice(h, cursor, lo, i, j)[x] != Choice(h, cursor, lo, i, j)[y] {
      ByIdDistinct(h, Exchanged(i, j, cursor - 1 - x), Exchanged(i, j, cursor - 1 - y));
    }
  }

  lemma ChoiceIsWithin(h: seq<Row>, cursor: nat, lo: nat, i: nat, j: nat)
    requires lo <= j < cursor <= |h| && i < j
    ensures Rows(Choice(h, cursor, lo, i, j)) <= Rows(h[..cursor])
  {
  }

  lemma ChoiceAnswers(h: seq<Row>, cursor: nat, limit: nat, lo: nat, i: nat, j: nat)
    requires ById(h) && lo <= j < cursor <= |h| && i < j && h[i].createdAt == h[j].createdAt
    requires SliceIsNewest(h, cursor, lo)
    requires Answers(Rows(h[..cursor]), limit, true, Reversed(h[lo..cursor]))
    ensures Answers(Rows(h[..cursor]), limit, true, Choice(h, cursor, lo, i, j))
  {
    hide Answers, Rows, ById, SliceIsNewest, Exchanged;
    ChoiceTimes(h, cursor, lo, i, j);
    ChoiceIsDistinct(h, cursor, lo, i, j);
    ChoiceIsWithin(h, cursor, lo, i, j);
    var again := Choice(h, cursor, lo, i, j);
    forall m, r | 0 <= m < |again| && r in Rows(h[..cursor]) && r !in again ensures again[m].createdAt >= r.createdAt {
      OutsideIsOlder(h, cursor, lo, i, j, r, cursor - 1 - m);
    }
    AnotherAnswer(Rows(h[..cursor]), limit, Reversed(h[lo..cursor]), again);
  }

  /** A disagreement that reaches into the page gives the database another choice. */
  lemma OtherPage(h: seq<Row>, cursor: nat, limit: nat, lo: nat) returns (page: seq<Row>)
    requires ById(h) && lo <= cursor <= |h| && LegalPage(h, cursor, limit, h[lo..cursor])
    requires Chronological(h[..lo]) && !Chronological(h[..cursor])
    ensures LegalPage(h, cursor, limit, page) && page != h[lo..cursor]
  {
    var i: nat, j: nat :| i < j < cursor && h[..cursor][i].createdAt >= h[..cursor][j].createdAt;
    assert forall k :: 0 <= k < lo ==> h[..lo][k] == h[..cursor][k];
    assert lo <= j;
    hide Chronological;
    SliceAnswers(h, cursor, limit, lo);
    hide Answers;
    forall i, j | 0 <= i < j && lo <= j < cursor ensures h[i].createdAt <= h[j].createdAt {
      SliceInOrder(h, cursor, limit, lo, i, j);
    }
    assert SliceIsNewest(h, cursor, lo);
    ChoiceAnswers(h, cursor, limit, lo, i, j);
    page := Reversed(Choice(h, cursor, lo, i, j));
    ByIdDistinct(h, i, j);
    assert page[j - lo] == h[i] && h[lo..cursor][j - lo] == h[j];
  }

  /** When ids and times disagree before the cursor, some reading goes wrong, whatever the limit. */
  lemma {:induction false} SomeReadingGoesWrong(h: seq<Row>, cursor: nat, limit: nat) returns (pages: seq<seq<Row>>, all: seq<Row>)
    requires ById(h) && cursor <= |h| && limit >= 1 && !Chronological(h[..cursor])
    ensures Reads(h, cursor, limit, pages, all) && all != h[..cursor]
    decreases cursor
  {
    var lo := Max(0, cursor - limit);
    var slice := h[lo..cursor];
    var page := PageExists(h, cursor, limit);
    if page != slice {
      pages, all := OddPage(h, cursor, limit, page);
    } else if Chronological(h[..lo]) {
      page := OtherPage(h, cursor, limit, lo);
      pages, all := OddPage(h, cursor, limit, page);
    } else {
      hide LegalPage, ById, Chronological;
      var restPages, rest := SomeReadingGoesWrong(h, lo, limit);
      pages, all := [slice] + restPages, rest + slice;
      assert pages[1..] == restPages && CursorAt(h, slice, lo);
      assert |rest| == lo ==> all[..lo] == rest;
      assert h[..cursor][..lo] == h[..lo];
    }
  }

  /** Every reading of the channel with this limit ends up with the whole history. */
  ghost predicate Exact(h: seq<Row>, limit: nat) {
    forall pages, all :: Reads(h, |h|, limit, pages, all) ==> all == h
  }

  /** There is always a reading to the end. */
  lemma ReadingExists(h: seq<Row>, limit: nat)
    requires ById(h) && limit >= 1
    ensures exists pages, all :: Reads(h, |h|, limit, pages, all)
  {
    var page := PageExists(h, |h|, limit);
    var pages, all := ReadingOn(h, |h|, limit, page);
  }

  /**
   Whatever the limit, reading by the `before` cursor is exact for every order the
   database may give equal times, exactly when creation times follow the ids
   strictly.
   */
  lemma PagingIsExactIff(h: seq<Row>, limit: nat)
    requires ById(h) && limit >= 1
    ensures Exact(h, limit) <==> Chronological(h)
  {
    assert h[..|h|] == h;
    if Chronological(h) {
      forall pages, all | Reads(h, |h|, limit, pages, all) ensures all == h {
        ReadingIsExact(h, |h|, limit, pages, all);
      }
    } else {
      var pages, all := SomeReadingGoesWrong(h, |h|, limit);
    }
  }
}

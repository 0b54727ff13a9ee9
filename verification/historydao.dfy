/** `SmsHistoryDao`: the eight statements Room runs against `sms_history`,
    modelled as snapshot functions over the table's rows.

    The table's `id` column is `INTEGER PRIMARY KEY AUTOINCREMENT` (the
    entity's `autoGenerate = true`), and Room binds the id through
    `nullif(?, 0)`: a record whose id is 0 is numbered by SQLite, one with
    any other id keeps it. AUTOINCREMENT numbers a new row one past the
    largest id the table has ever held, which SQLite remembers in
    `sqlite_sequence`; that counter survives deletes, so ids are never
    handed out twice. `@Insert` uses `OR ABORT`, so an id that is already
    present raises a constraint error and changes nothing. */
module HistoryDao {
  import opened Types
  import opened History

  /** The default `limit` of `getRecentHistory`. */
  const DefaultRecentLimit: int32 := 50

  /** The table: its rows in insertion order, and the `sqlite_sequence`
      entry, the largest id ever stored. */
  datatype Store = Store(rows: seq<SmsHistory>, sequence: int64)

  /** A freshly created table. */
  const Empty: Store := Store([], 0)

  /** The result of `insert`: the new table and the id SQLite returned, or
      the exception Room raises. */
  datatype InsertOutcome =
    | Inserted(store: Store, id: int64)
    | ConstraintViolation   // the id is already in the table
    | DatabaseFull          // no id is left above the largest one used

  predicate HasId(rows: seq<SmsHistory>, id: int)
  {
    exists i :: 0 <= i < |rows| && rows[i].id == id
  }

  predicate UniqueIds(rows: seq<SmsHistory>)
  {
    forall i, j :: 0 <= i < j < |rows| ==> rows[i].id != rows[j].id
  }

  /** What every reachable table satisfies: ids are unique and none exceeds
      the sequence counter, which never goes below its initial 0. */
  predicate Valid(s: Store)
  {
    UniqueIds(s.rows) && 0 <= s.sequence && forall i :: 0 <= i < |s.rows| ==> s.rows[i].id <= s.sequence
  }

  function Max(a: int, b: int): int
  {
    if a < b then b else a
  }

  function Min(a: int, b: int): int
  {
    if a < b then a else b
  }

  /** The largest id in the table, or 0 for a table without positive ids. */
  function MaxId(rows: seq<SmsHistory>): (m: int64)
    ensures 0 <= m
    ensures forall i :: 0 <= i < |rows| ==> rows[i].id <= m
    ensures m == 0 || HasId(rows, m)
  {
    if rows == [] then 0
    else
      var m' := MaxId(rows[1..]);
      if rows[0].id > m' then rows[0].id else m'
  }

  /** The id AUTOINCREMENT chooses for the next numbered row. */
  function NextId(s: Store): (n: int)
    ensures s.sequence < n && forall i :: 0 <= i < |s.rows| ==> s.rows[i].id < n
  {
    Max(s.sequence, MaxId(s.rows)) + 1
  }

  // ---------------------------------------------------------------- insert

  /** `insert(smsHistory)`: appends one row and returns its id. */
  function Insert(s: Store, h: SmsHistory): (o: InsertOutcome)
    // a numbered row gets an id above every id the table holds or has held
    ensures h.id == Unassigned && o.Inserted? ==>
      s.sequence < o.id && forall i :: 0 <= i < |s.rows| ==> s.rows[i].id < o.id
    ensures h.id == Unassigned ==> (o.Inserted? <==> NextId(s) <= MaxInt64)
    ensures h.id == Unassigned ==> !o.ConstraintViolation?
    // an explicit id is kept, and rejected when already present
    ensures h.id != Unassigned ==> (o.Inserted? <==> !HasId(s.rows, h.id))
    ensures h.id != Unassigned ==> !o.DatabaseFull?
    ensures h.id != Unassigned && o.Inserted? ==> o.id == h.id
    // exactly one row is added, after the unchanged old ones
    ensures o.Inserted? ==> !HasId(s.rows, o.id)
    ensures o.Inserted? ==> o.store.rows == s.rows + [WithId(h, o.id)]
    ensures o.Inserted? ==> o.store.sequence == Max(s.sequence, o.id)
  {
    if h.id == Unassigned then
      var next := NextId(s);
      if next > MaxInt64 then DatabaseFull
      else Inserted(Store(s.rows + [WithId(h, next)], next), next)
    else if HasId(s.rows, h.id) then ConstraintViolation
    else Inserted(Store(s.rows + [WithId(h, h.id)], Max(s.sequence, h.id)), h.id)
  }

  /** A fresh table is valid, and its first numbered row gets id 1. */
  lemma FirstInsert(h: SmsHistory)
    requires h.id == Unassigned
    ensures Valid(Empty)
    ensures Insert(Empty, h) == Inserted(Store([WithId(h, 1)], 1), 1)
  {
  }

  // ------------------------------------------------------------- ordering

  /** `ORDER BY forwardedAt DESC`: forwarding times never increase. */
  predicate SortedDesc(rs: seq<SmsHistory>)
  {
    forall i, j :: 0 <= i < j < |rs| ==> rs[i].forwardedAt >= rs[j].forwardedAt
  }

  /** `rs` is one of the orders the query may return for `rows`: each row
      exactly once, newest forwarding first. Ties may come in any order. */
  predicate IsHistoryOrder(rs: seq<SmsHistory>, rows: seq<SmsHistory>)
  {
    SortedDesc(rs) && multiset(rs) == multiset(rows)
  }

  /** No row of `rs` was forwarded after `top`. */
  predicate AtMost(rs: seq<SmsHistory>, top: int)
  {
    forall k :: 0 <= k < |rs| ==> rs[k].forwardedAt <= top
  }

  /** Bounds carry over between sequences holding the same rows. */
  lemma AtMostPermutation(rs: seq<SmsHistory>, qs: seq<SmsHistory>, top: int)
    requires multiset(rs) <= multiset(qs) && AtMost(qs, top)
    ensures AtMost(rs, top)
  {
    forall k | 0 <= k < |rs|
      ensures rs[k].forwardedAt <= top
    {
      assert rs[k] in multiset(qs);
    }
  }

  lemma SortedCons(x: SmsHistory, rs: seq<SmsHistory>)
    requires SortedDesc(rs) && AtMost(rs, x.forwardedAt)
    ensures SortedDesc([x] + rs)
  {
  }

  /** Putting the newest row in front of a sorted order of the others. */
  lemma OrderCons(x: SmsHistory, tail: seq<SmsHistory>, h: SmsHistory, rest: seq<SmsHistory>)
    requires IsHistoryOrder(tail, [h] + rest)
    requires h.forwardedAt <= x.forwardedAt && AtMost(rest, x.forwardedAt)
    ensures IsHistoryOrder([x] + tail, [h] + ([x] + rest))
  {
    assert AtMost([h] + rest, x.forwardedAt);
    AtMostPermutation(tail, [h] + rest, x.forwardedAt);
    SortedCons(x, tail);
    calc {
      multiset([x] + tail);
      multiset{x} + multiset([h] + rest);
      multiset([h] + ([x] + rest));
    }
  }

  function InsertSorted(h: SmsHistory, rs: seq<SmsHistory>): (r: seq<SmsHistory>)
    requires SortedDesc(rs)
    ensures IsHistoryOrder(r, [h] + rs)
  {
    if rs == [] || h.forwardedAt >= rs[0].forwardedAt then
      SortedCons(h, rs);
      [h] + rs
    else
      assert rs == [rs[0]] + rs[1..];
      var tail := InsertSorted(h, rs[1..]);
      OrderCons(rs[0], tail, h, rs[1..]);
      [rs[0]] + tail
  }

  /** A sort by descending `forwardedAt`, standing in for SQLite's. */
  function SortDesc(rows: seq<SmsHistory>): (r: seq<SmsHistory>)
    ensures IsHistoryOrder(r, rows)
  {
    if rows == [] then []
    else
      assert rows == [rows[0]] + rows[1..];
      InsertSorted(rows[0], SortDesc(rows[1..]))
  }

  // ------------------------------------------------------------ selection

  /** The rows satisfying `keep`, in their original order. */
  function Keep(rows: seq<SmsHistory>, keep: SmsHistory -> bool): (r: seq<SmsHistory>)
    ensures forall x :: multiset(r)[x] == if keep(x) then multiset(rows)[x] else 0
    ensures forall i :: 0 <= i < |r| ==> keep(r[i])
  {
    if rows == [] then []
    else
      assert rows == [rows[0]] + rows[1..];
      (if keep(rows[0]) then [rows[0]] else []) + Keep(rows[1..], keep)
  }

  /** `WHERE status = :status`. */
  function WithStatus(rows: seq<SmsHistory>, status: string): (r: seq<SmsHistory>)
    ensures forall x :: multiset(r)[x] == if x.status == status then multiset(rows)[x] else 0
    ensures forall i :: 0 <= i < |r| ==> r[i].status == status
  {
    Keep(rows, (h: SmsHistory) => h.status == status)
  }

  /** `COUNT(*) ... WHERE status = :status`. */
  function Count(rows: seq<SmsHistory>, status: string): (c: nat)
    ensures c == |WithStatus(rows, status)|
  {
    if rows == [] then 0
    else
      assert rows == [rows[0]] + rows[1..];
      (if rows[0].status == status then 1 else 0) + Count(rows[1..], status)
  }

  // --------------------------------------------------------------- queries

  /** `getAllHistory()`: every row once, newest forwarding first. */
  function GetAllHistory(s: Store): (r: seq<SmsHistory>)
    ensures IsHistoryOrder(r, s.rows)
    ensures |r| == |s.rows|
  {
    SortDesc(s.rows)
  }

  /** `getRecentHistory(limit)`: the first `limit` rows of that order; a
      negative limit is no limit, as in SQLite. */
  function GetRecentHistory(s: Store, limit: int32 := DefaultRecentLimit): (r: seq<SmsHistory>)
    ensures |r| == if limit < 0 then |s.rows| else Min(limit, |s.rows|)
    ensures r <= GetAllHistory(s)
    ensures SortedDesc(r)
    ensures multiset(r) <= multiset(s.rows)
  {
    var all := GetAllHistory(s);
    var r := if limit < 0 then all else all[..Min(limit, |all|)];
    assert all == r + all[|r|..];
    assert multiset(all) == multiset(r) + multiset(all[|r|..]);
    r
  }

  /** `getHistoryByStatus(status)`: exactly the rows with that status,
      newest forwarding first. */
  function GetHistoryByStatus(s: Store, status: string): (r: seq<SmsHistory>)
    ensures SortedDesc(r)
    ensures forall i :: 0 <= i < |r| ==> r[i].status == status
    ensures forall x :: multiset(r)[x] == if x.status == status then multiset(s.rows)[x] else 0
  {
    SortDesc(WithStatus(s.rows, status))
  }

  /** `getSuccessCount()`: the number of rows `getHistoryByStatus("success")` lists. */
  function GetSuccessCount(s: Store): (c: nat)
    ensures c == |GetHistoryByStatus(s, StatusSuccess)|
  {
    Count(s.rows, StatusSuccess)
  }

  /** `getFailedCount()`: the number of rows `getHistoryByStatus("failed")` lists. */
  function GetFailedCount(s: Store): (c: nat)
    ensures c == |GetHistoryByStatus(s, StatusFailed)|
  {
    Count(s.rows, StatusFailed)
  }

  // --------------------------------------------------------------- deletes

  /** `deleteOlderThan(timestamp)`: removes the rows forwarded strictly
      before the cutoff and keeps the others, unchanged and in order. */
  function DeleteOlderThan(s: Store, timestamp: int64): (r: Store)
    ensures forall x ::
      multiset(r.rows)[x] == if x.forwardedAt >= timestamp then multiset(s.rows)[x] else 0
    ensures forall i :: 0 <= i < |r.rows| ==> r.rows[i].forwardedAt >= timestamp
    ensures r.sequence == s.sequence
  {
    Store(Keep(s.rows, (h: SmsHistory) => h.forwardedAt >= timestamp), s.sequence)
  }

  /** `deleteAll()`: empties the table; the sequence counter stays. */
  function DeleteAll(s: Store): (r: Store)
    ensures r.rows == [] && r.sequence == s.sequence
  {
    Store([], s.sequence)
  }

  // ------------------------------------------------------------- properties

  /** An insert keeps ids unique and below the sequence counter. */
  lemma InsertKeepsValid(s: Store, h: SmsHistory)
    requires Valid(s) && Insert(s, h).Inserted?
    ensures Valid(Insert(s, h).store)
  {
    var o := Insert(s, h);
    var rows := o.store.rows;
    forall i, j | 0 <= i < j < |rows|
      ensures rows[i].id != rows[j].id
    {
      if j == |s.rows| {
        assert rows[j].id == o.id && rows[i] == s.rows[i];
      }
    }
  }

  /** Deleting rows keeps the table valid. */
  lemma DeleteOlderThanKeepsValid(s: Store, timestamp: int64)
    requires Valid(s)
    ensures Valid(DeleteOlderThan(s, timestamp))
  {
    var rows := DeleteOlderThan(s, timestamp).rows;
    forall i | 0 <= i < |rows|
      ensures HasId(s.rows, rows[i].id) && rows[i].id <= s.sequence
    {
      assert rows[i] in multiset(s.rows);
    }
    forall i, j | 0 <= i < j < |rows|
      ensures rows[i].id != rows[j].id
    {
      KeptRowsDistinct(s.rows, rows, i, j);
    }
  }

  /** Two positions of a selection come from two positions of the table. */
  lemma KeptRowsDistinct(rows: seq<SmsHistory>, kept: seq<SmsHistory>, i: int, j: int)
    requires UniqueIds(rows) && multiset(kept) <= multiset(rows)
    requires 0 <= i < j < |kept|
    ensures kept[i].id != kept[j].id
  {
    if kept[i].id == kept[j].id {
      assert kept[i] in multiset(rows) && kept[j] in multiset(rows);
      var a :| 0 <= a < |rows| && rows[a] == kept[i];
      var b :| 0 <= b < |rows| && rows[b] == kept[j];
      assert a == b;
      assert kept == kept[..i] + [kept[i]] + kept[i+1..j] + [kept[j]] + kept[j+1..];
      assert multiset(kept)[rows[a]] >= 2;
      UniqueIdsSingle(rows, a);
    }
  }

  /** With unique ids a row occurs once in the table. */
  lemma {:induction false} UniqueIdsSingle(rows: seq<SmsHistory>, a: int)
    requires UniqueIds(rows) && 0 <= a < |rows|
    ensures multiset(rows)[rows[a]] == 1
  {
    var x := rows[a];
    assert rows == rows[..a] + [x] + rows[a+1..];
    forall k | 0 <= k < |rows| && k != a
      ensures rows[k] != x
    {
      if k < a { assert rows[k].id != rows[a].id; } else { assert rows[a].id != rows[k].id; }
    }
    assert x !in multiset(rows[..a]);
    assert x !in multiset(rows[a+1..]);
  }

  /** A prefix of a sorted order of `rows` holds their newest rows. */
  lemma PrefixNewest(rows: seq<SmsHistory>, all: seq<SmsHistory>, r: seq<SmsHistory>)
    requires IsHistoryOrder(all, rows) && r <= all
    ensures forall x: SmsHistory, i :: x in multiset(rows) - multiset(r) && 0 <= i < |r| ==> x.forwardedAt <= r[i].forwardedAt
  {
    var rest := all[|r|..];
    assert all == r + rest;
    assert multiset(rows) - multiset(r) == multiset(rest);
    forall x: SmsHistory, i | x in multiset(rest) && 0 <= i < |r|
      ensures x.forwardedAt <= r[i].forwardedAt
    {
      var j :| 0 <= j < |rest| && rest[j] == x;
      assert all[|r| + j] == x && all[i] == r[i];
    }
  }

  /** The recent list holds the newest rows: no row it leaves out was
      forwarded later than any row it lists. */
  lemma RecentIsNewest(s: Store, limit: int32)
    ensures forall x: SmsHistory, i :: x in multiset(s.rows) - multiset(GetRecentHistory(s, limit)) && 0 <= i < |GetRecentHistory(s, limit)| ==>
      x.forwardedAt <= GetRecentHistory(s, limit)[i].forwardedAt
  {
    PrefixNewest(s.rows, GetAllHistory(s), GetRecentHistory(s, limit));
  }

  /** Two different statuses together count at most every row. */
  lemma {:induction false} CountsDisjoint(rows: seq<SmsHistory>, a: string, b: string)
    requires a != b
    ensures Count(rows, a) + Count(rows, b) <= |rows|
  {
    if rows != [] {
      CountsDisjoint(rows[1..], a, b);
    }
  }

  /** The success and failed counts never exceed the number of rows. */
  lemma CountsBound(s: Store)
    ensures GetSuccessCount(s) + GetFailedCount(s) <= |s.rows|
  {
    CountsDisjoint(s.rows, StatusSuccess, StatusFailed);
  }

  /** When every row carries one of the three documented statuses, each row
      is counted under exactly one of them. */
  lemma {:induction false} CountsPartition(rows: seq<SmsHistory>)
    requires forall i :: 0 <= i < |rows| ==> IsDocumentedStatus(rows[i].status)
    ensures Count(rows, StatusSuccess) + Count(rows, StatusFailed) + Count(rows, StatusPending) == |rows|
  {
    if rows != [] {
      assert IsDocumentedStatus(rows[0].status);
      CountsPartition(rows[1..]);
    }
  }

  /** With documented statuses only, the rows neither counted as `success`
      nor as `failed` are exactly the ones listed as `pending`. */
  lemma StatusCountsAddUp(s: Store)
    requires forall i :: 0 <= i < |s.rows| ==> IsDocumentedStatus(s.rows[i].status)
    ensures GetSuccessCount(s) + GetFailedCount(s) + |GetHistoryByStatus(s, StatusPending)| == |s.rows|
  {
    CountsPartition(s.rows);
    var pending := WithStatus(s.rows, StatusPending);
    assert |GetHistoryByStatus(s, StatusPending)| == |pending| by {
      assert multiset(SortDesc(pending)) == multiset(pending);
      assert |multiset(SortDesc(pending))| == |multiset(pending)|;
    }
  }

  /** Appending a row adds one to its own status's count and nothing to the others. */
  lemma {:induction false} CountAppend(rows: seq<SmsHistory>, h: SmsHistory, status: string)
    ensures Count(rows + [h], status) == Count(rows, status) + (if h.status == status then 1 else 0)
  {
    if rows != [] {
      assert (rows + [h])[1..] == rows[1..] + [h];
      CountAppend(rows[1..], h, status);
    }
  }

  /** Each insert moves the success or failed count only when the record
      has that status; a `"pending"` record moves neither. */
  lemma InsertCounts(s: Store, h: SmsHistory)
    requires Insert(s, h).Inserted?
    ensures GetSuccessCount(Insert(s, h).store) == GetSuccessCount(s) + (if h.status == StatusSuccess then 1 else 0)
    ensures GetFailedCount(Insert(s, h).store) == GetFailedCount(s) + (if h.status == StatusFailed then 1 else 0)
    ensures h.status == StatusPending ==>
      GetSuccessCount(Insert(s, h).store) == GetSuccessCount(s) && GetFailedCount(Insert(s, h).store) == GetFailedCount(s)
  {
    var o := Insert(s, h);
    CountAppend(s.rows, WithId(h, o.id), StatusSuccess);
    CountAppend(s.rows, WithId(h, o.id), StatusFailed);
  }

  /** After `deleteAll` every query is empty and both counts are 0, and the
      next numbered row still gets an id above every id handed out before. */
  lemma AfterDeleteAll(s: Store, limit: int32, status: string, h: SmsHistory)
    requires Valid(s)
    ensures GetAllHistory(DeleteAll(s)) == []
    ensures GetRecentHistory(DeleteAll(s), limit) == []
    ensures GetHistoryByStatus(DeleteAll(s), status) == []
    ensures GetSuccessCount(DeleteAll(s)) == 0 && GetFailedCount(DeleteAll(s)) == 0
    ensures h.id == Unassigned && Insert(DeleteAll(s), h).Inserted? ==>
      forall i :: 0 <= i < |s.rows| ==> s.rows[i].id < Insert(DeleteAll(s), h).id
  {
    var e := DeleteAll(s);
    assert |GetAllHistory(e)| == 0;
    assert multiset(GetHistoryByStatus(e, status)) == multiset{};
  }

  // ------------------------------------------------------ sequences of calls

  /** The DAO's writes; it has no update statement. */
  datatype Op = InsertOp(record: SmsHistory) | DeleteOlderThanOp(cutoff: int64) | DeleteAllOp

  /** One write; an aborted insert leaves the table as it was. */
  function Apply(s: Store, op: Op): Store
  {
    match op
    case InsertOp(h) => var o := Insert(s, h); if o.Inserted? then o.store else s
    case DeleteOlderThanOp(t) => DeleteOlderThan(s, t)
    case DeleteAllOp => DeleteAll(s)
  }

  function Run(s: Store, ops: seq<Op>): Store
    decreases |ops|
  {
    if ops == [] then s else Run(Apply(s, ops[0]), ops[1..])
  }

  /** Every write keeps the table valid. */
  lemma ApplyKeepsValid(s: Store, op: Op)
    requires Valid(s)
    ensures Valid(Apply(s, op))
  {
    match op
    case InsertOp(h) => if Insert(s, h).Inserted? { InsertKeepsValid(s, h); }
    case DeleteOlderThanOp(t) => DeleteOlderThanKeepsValid(s, t);
    case DeleteAllOp =>
  }

  lemma {:induction false} RunKeepsValid(s: Store, ops: seq<Op>)
    requires Valid(s)
    ensures Valid(Run(s, ops))
    decreases |ops|
  {
    if ops != [] {
      ApplyKeepsValid(s, ops[0]);
      RunKeepsValid(Apply(s, ops[0]), ops[1..]);
    }
  }

  /** One write: a row afterwards was there before, or is the inserted record. */
  lemma ApplyNoUpdate(s: Store, op: Op)
    ensures forall x :: x in Apply(s, op).rows ==> x in s.rows || (op.InsertOp? && x == WithId(op.record, x.id))
  {
    match op
    case InsertOp(h) =>
    case DeleteOlderThanOp(t) =>
      forall x | x in Apply(s, op).rows
        ensures x in s.rows
      {
        assert x in multiset(DeleteOlderThan(s, t).rows);
      }
    case DeleteAllOp =>
  }

  /** No write changes a stored record: every row after a sequence of writes
      is a row from before them, or one of the inserted records with its id. */
  lemma {:induction false} RecordsNeverChange(s: Store, ops: seq<Op>)
    ensures forall x :: x in Run(s, ops).rows ==>
      x in s.rows || exists i :: 0 <= i < |ops| && ops[i].InsertOp? && x == WithId(ops[i].record, x.id)
    decreases |ops|
  {
    if ops != [] {
      var t := Apply(s, ops[0]);
      ApplyNoUpdate(s, ops[0]);
      RecordsNeverChange(t, ops[1..]);
      forall x | x in Run(s, ops).rows && x !in s.rows
        ensures exists i :: 0 <= i < |ops| && ops[i].InsertOp? && x == WithId(ops[i].record, x.id)
      {
        if x in t.rows {
          assert ops[0].InsertOp? && x == WithId(ops[0].record, x.id);
        } else {
          var i :| 0 <= i < |ops[1..]| && ops[1..][i].InsertOp? && x == WithId(ops[1..][i].record, x.id);
          assert ops[i + 1] == ops[1..][i];
        }
      }
    }
  }

  /** `t` is reachable from `s0` and kept every row of `s0` it still holds
      under that row's id. */
  predicate KeepsIds(s0: Store, t: Store)
  {
    Valid(t) && s0.sequence <= t.sequence &&
    forall i, j :: 0 <= i < |t.rows| && 0 <= j < |s0.rows| && t.rows[i].id == s0.rows[j].id ==> t.rows[i] == s0.rows[j]
  }

  lemma ApplyKeepsIds(s0: Store, t: Store, op: Op)
    requires Valid(s0) && KeepsIds(s0, t)
    requires op.InsertOp? ==> op.record.id == Unassigned
    ensures KeepsIds(s0, Apply(t, op))
  {
    ApplyKeepsValid(t, op);
    var u := Apply(t, op);
    match op
    case InsertOp(h) =>
    case DeleteOlderThanOp(c) =>
      forall i, j | 0 <= i < |u.rows| && 0 <= j < |s0.rows| && u.rows[i].id == s0.rows[j].id
        ensures u.rows[i] == s0.rows[j]
      {
        assert u.rows[i] in multiset(t.rows);
      }
    case DeleteAllOp =>
  }

  lemma {:induction false} RunKeepsIds(s0: Store, t: Store, ops: seq<Op>)
    requires Valid(s0) && KeepsIds(s0, t)
    requires forall i :: 0 <= i < |ops| && ops[i].InsertOp? ==> ops[i].record.id == Unassigned
    ensures KeepsIds(s0, Run(t, ops))
    decreases |ops|
  {
    if ops != [] {
      ApplyKeepsIds(s0, t, ops[0]);
      RunKeepsIds(s0, Apply(t, ops[0]), ops[1..]);
    }
  }

  /** When every insert lets the table number the row, an id never comes
      back with different contents: a row that shares an id with a row of
      the starting table is that row, even across `deleteAll`. */
  lemma IdsNeverReused(s: Store, ops: seq<Op>)
    requires Valid(s)
    requires forall i :: 0 <= i < |ops| && ops[i].InsertOp? ==> ops[i].record.id == Unassigned
    ensures Valid(Run(s, ops))
    ensures forall i, j :: 0 <= i < |Run(s, ops).rows| && 0 <= j < |s.rows| && Run(s, ops).rows[i].id == s.rows[j].id ==>
      Run(s, ops).rows[i] == s.rows[j]
  {
    assert KeepsIds(s, s);
    RunKeepsIds(s, s, ops);
  }
}

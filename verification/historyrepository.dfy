/** `HistoryRepository`: a forwarding layer over the DAO. It holds nothing
    but the DAO, so its value is the table the DAO reads and writes. */
module HistoryRepository {
  import opened Types
  import opened History
  import HistoryDao

  /** The default `limit` of the repository's `getRecentHistory`. */
  const DefaultRecentLimit: int32 := 50

  datatype Repository = Repository(dao: HistoryDao.Store)

  function GetAllHistory(repo: Repository): (r: seq<SmsHistory>)
    ensures r == HistoryDao.GetAllHistory(repo.dao)
    ensures HistoryDao.IsHistoryOrder(r, repo.dao.rows)
  {
    HistoryDao.GetAllHistory(repo.dao)
  }

  /** Called without an argument it asks the DAO for the 50 newest rows. */
  function GetRecentHistory(repo: Repository, limit: int32 := DefaultRecentLimit): (r: seq<SmsHistory>)
    ensures r == HistoryDao.GetRecentHistory(repo.dao, limit)
    ensures 0 <= limit ==> |r| == HistoryDao.Min(limit, |repo.dao.rows|)
  {
    HistoryDao.GetRecentHistory(repo.dao, limit)
  }

  function GetHistoryByStatus(repo: Repository, status: string): (r: seq<SmsHistory>)
    ensures r == HistoryDao.GetHistoryByStatus(repo.dao, status)
    ensures forall i :: 0 <= i < |r| ==> r[i].status == status
  {
    HistoryDao.GetHistoryByStatus(repo.dao, status)
  }

  function GetSuccessCount(repo: Repository): (c: nat)
    ensures c == HistoryDao.GetSuccessCount(repo.dao)
    ensures c == |GetHistoryByStatus(repo, StatusSuccess)|
  {
    HistoryDao.GetSuccessCount(repo.dao)
  }

  function GetFailedCount(repo: Repository): (c: nat)
    ensures c == HistoryDao.GetFailedCount(repo.dao)
    ensures c == |GetHistoryByStatus(repo, StatusFailed)|
  {
    HistoryDao.GetFailedCount(repo.dao)
  }

  /** The result of the repository's `insert`: the repository over the new
      table and the DAO's id, or the DAO's exception passed on. */
  datatype InsertResult = Inserted(repo: Repository, id: int64) | Failed(error: HistoryDao.InsertOutcome)

  function Insert(repo: Repository, h: SmsHistory): (r: InsertResult)
    ensures r.Inserted? <==> HistoryDao.Insert(repo.dao, h).Inserted?
    ensures r.Inserted? ==> r.id == HistoryDao.Insert(repo.dao, h).id && r.repo.dao == HistoryDao.Insert(repo.dao, h).store
    ensures r.Failed? ==> r.error == HistoryDao.Insert(repo.dao, h)
    ensures r.Inserted? ==> r.repo.dao.rows == repo.dao.rows + [WithId(h, r.id)]
  {
    var o := HistoryDao.Insert(repo.dao, h);
    if o.Inserted? then Inserted(Repository(o.store), o.id) else Failed(o)
  }

  function DeleteOlderThan(repo: Repository, timestamp: int64): (r: Repository)
    ensures r.dao == HistoryDao.DeleteOlderThan(repo.dao, timestamp)
    ensures forall i :: 0 <= i < |r.dao.rows| ==> r.dao.rows[i].forwardedAt >= timestamp
  {
    Repository(HistoryDao.DeleteOlderThan(repo.dao, timestamp))
  }

  function DeleteAll(repo: Repository): (r: Repository)
    ensures r.dao == HistoryDao.DeleteAll(repo.dao)
    ensures r.dao.rows == []
  {
    Repository(HistoryDao.DeleteAll(repo.dao))
  }

  /** The repository's default and the DAO's default agree: both ask for the
      50 newest rows. */
  lemma DefaultRecentLimitAgrees(repo: Repository)
    ensures GetRecentHistory(repo) == HistoryDao.GetRecentHistory(repo.dao)
    ensures |GetRecentHistory(repo)| == HistoryDao.Min(50, |repo.dao.rows|)
  {
  }

  /** Repository calls and DAO calls lead to the same tables: a sequence of
      writes through the repository ends where the DAO's own run ends. */
  function Run(repo: Repository, ops: seq<HistoryDao.Op>): (r: Repository)
    ensures r.dao == HistoryDao.Run(repo.dao, ops)
    decreases |ops|
  {
    if ops == [] then repo
    else
      var next := match ops[0]
        case InsertOp(h) => (var o := Insert(repo, h); if o.Inserted? then o.repo else repo)
        case DeleteOlderThanOp(t) => DeleteOlderThan(repo, t)
        case DeleteAllOp => DeleteAll(repo);
      Run(next, ops[1..])
  }
}

/**
 The change log over whole runs: rows only advance, a batch pushed again is inert, and
 draining the log is exact.
 */
module Changelog {
  import opened Record
  import opened Merge
  import opened Sql
  import opened Sync

  // ---- the store's own steps ---------------------------------------------------------

  /** One committed statement by anyone. `Write` names the account the record is filed under. */
  datatype Op =
    | Write(account: Text, env: Envelope)
    | Share(owner: Text, group: Text, user: Text, wrapped: Text)
    | Unshare(owner: Text, group: Text, user: Text)

  function Apply(db: Db, op: Op): Db {
    match op
    case Write(account, env) => PutEnvelope(db, account, env).0
    case Share(owner, group, user, wrapped) => PutShare(db, owner, group, user, wrapped)
    case Unshare(owner, group, user) => DeleteShare(db, owner, group, user)
  }

  function ApplyAll(db: Db, ops: seq<Op>): Db {
    if ops == [] then db else Apply(ApplyAll(db, ops[..|ops| - 1]), ops[|ops| - 1])
  }

  /** Rows never vanish, and one that changed now has a strictly newer clock and number. */
  ghost predicate Advances(before: map<RecordKey, Envelope>, after: map<RecordKey, Envelope>) {
    forall k | k in before ::
      k in after && (after[k] == before[k]
                     || (Loses(before[k], after[k]) && before[k].seqNo < after[k].seqNo))
  }

  lemma AdvancesTwice(a: map<RecordKey, Envelope>, b: map<RecordKey, Envelope>, c: map<RecordKey, Envelope>)
    requires Advances(a, b) && Advances(b, c)
    ensures Advances(a, c)
  {
    forall k | k in a
      ensures k in c && (c[k] == a[k] || (Loses(a[k], c[k]) && a[k].seqNo < c[k].seqNo))
    {
      ResolveIsAStrictTotalOrder(ClockOf(a[k]), ClockOf(b[k]), ClockOf(c[k]));
    }
  }

  lemma CommitAdvances(db: Db, op: Op)
    ensures Advances(db.records, Apply(db, op).records) && db.next <= Apply(db, op).next
  {}

  /** So a deleted record comes back to life only through a strictly newer write. */
  lemma {:induction false} RowsOnlyAdvance(db: Db, ops: seq<Op>)
    ensures Advances(db.records, ApplyAll(db, ops).records)
    ensures db.next <= ApplyAll(db, ops).next
  {
    hide Apply;
    if ops != [] {
      var before := ApplyAll(db, ops[..|ops| - 1]);
      CommitAdvances(before, ops[|ops| - 1]);
      RowsOnlyAdvance(db, ops[..|ops| - 1]);
      AdvancesTwice(db.records, before.records, Apply(before, ops[|ops| - 1]).records);
    }
  }

  lemma TombstonesStayDead(db: Db, ops: seq<Op>, k: RecordKey)
    requires k in db.records && db.records[k].IsTombstone()
    ensures var after := ApplyAll(db, ops).records;
            && k in after
            && (!after[k].IsTombstone() ==> Loses(db.records[k], after[k]))
  {
    RowsOnlyAdvance(db, ops);
  }

  // ---- replaying a batch --------------------------------------------------------------

  /** Every record of the batch that the server would store has been weighed against its row. */
  ghost predicate Processed(db: Db, cfg: Config, caller: Text, batch: seq<Envelope>, now: int) {
    forall i | 0 <= i < |batch| && Storable(db.shares, cfg, caller, batch[i], now) ::
      !Wins(db.records, StorageAccount(db.shares, caller, batch[i]), batch[i])
  }

  lemma ProcessedStays(db: Db, later: Db, cfg: Config, caller: Text, batch: seq<Envelope>, now: int)
    requires Processed(db, cfg, caller, batch, now)
    requires Advances(db.records, later.records) && later.shares == db.shares
    ensures Processed(later, cfg, caller, batch, now)
  {
    forall i | 0 <= i < |batch| && Storable(db.shares, cfg, caller, batch[i], now)
      ensures !Wins(later.records, StorageAccount(db.shares, caller, batch[i]), batch[i])
    {
      var k := KeyFor(StorageAccount(db.shares, caller, batch[i]), batch[i]);
      ResolveIsAStrictTotalOrder(ClockOf(db.records[k]), ClockOf(later.records[k]), ClockOf(batch[i]));
    }
  }

  lemma RecordAdvances(db: Db, cfg: Config, caller: Text, env: Envelope, now: int)
    ensures var after := PushRecord(db, cfg, caller, env, now).0;
            && Advances(db.records, after.records) && after.shares == db.shares
            && (Storable(db.shares, cfg, caller, env, now) ==>
                  !Wins(after.records, StorageAccount(db.shares, caller, env), env))
  {
    ResolveIsAStrictTotalOrder(ClockOf(env), ClockOf(env), ClockOf(env));
  }

  lemma {:induction false} PushProcesses(db: Db, cfg: Config, caller: Text, batch: seq<Envelope>, now: int)
    ensures var after := PushEach(db, cfg, caller, batch, now).0;
            && Processed(after, cfg, caller, batch, now)
            && Advances(db.records, after.records) && after.shares == db.shares
  {
    hide PushRecord, Wins, Storable, StorageAccount;
    if batch != [] {
      var rest, last := batch[..|batch| - 1], batch[|batch| - 1];
      var before := PushEach(db, cfg, caller, rest, now).0;
      PushProcesses(db, cfg, caller, rest, now);
      RecordAdvances(before, cfg, caller, last, now);
      var after := PushRecord(before, cfg, caller, last, now).0;
      AdvancesTwice(db.records, before.records, after.records);
      ProcessedStays(before, after, cfg, caller, rest, now);
      assert forall i | 0 <= i < |rest| :: batch[i] == rest[i];
    }
  }

  lemma {:induction false} ProcessedBatchIsInert(db: Db, cfg: Config, caller: Text, batch: seq<Envelope>, now: int)
    requires Processed(db, cfg, caller, batch, now)
    ensures var (after, vs) := PushEach(db, cfg, caller, batch, now);
            after.records == db.records && after.shares == db.shares && AcceptedOf(vs) == []
  {
    if batch != [] {
      var rest, last := batch[..|batch| - 1], batch[|batch| - 1];
      assert forall i | 0 <= i < |rest| :: batch[i] == rest[i];
      ProcessedBatchIsInert(db, cfg, caller, rest, now);
      var (before, vs) := PushEach(db, cfg, caller, rest, now);
      SplitOneMore(vs, PushRecord(before, cfg, caller, last, now).1);
    }
  }

  /**
   A batch pushed again, any amount of other writing later, is accepted nowhere and changes
   no row: the retry after a lost response is safe.
   */
  lemma {:induction false} ReplayIsInert(db: Db, cfg: Config, caller: Text, batch: seq<Envelope>,
                                         now: int, between: seq<Op>)
    requires forall op | op in between :: op.Write?
    ensures var later := ApplyAll(PushEach(db, cfg, caller, batch, now).0, between);
            var (after, vs) := PushEach(later, cfg, caller, batch, now);
            after.records == later.records && AcceptedOf(vs) == []
  {
    var pushed := PushEach(db, cfg, caller, batch, now).0;
    PushProcesses(db, cfg, caller, batch, now);
    RowsOnlyAdvance(pushed, between);
    WritesKeepShares(pushed, between);
    ProcessedStays(pushed, ApplyAll(pushed, between), cfg, caller, batch, now);
    ProcessedBatchIsInert(ApplyAll(pushed, between), cfg, caller, batch, now);
  }

  lemma {:induction false} WritesKeepShares(db: Db, ops: seq<Op>)
    requires forall op | op in ops :: op.Write?
    ensures ApplyAll(db, ops).shares == db.shares
  {
    if ops != [] {
      assert ops[|ops| - 1] in ops;
      WritesKeepShares(db, ops[..|ops| - 1]);
    }
  }

  // ---- draining -----------------------------------------------------------------------

  lemma EmptyOrHasOne(s: seq<RecordKey>)
    ensures s == [] || exists k :: k in s
  {
    if s != [] { assert s[0] in s; }
  }

  lemma AllButLast(records: map<RecordKey, Envelope>, s: seq<RecordKey>)
    requires Ascending(records, s) && s != []
    ensures Ascending(records, s[..|s| - 1])
    ensures forall k :: k in s[..|s| - 1] <==> k in s && k != s[|s| - 1]
  {
    forall k | k in s && k != s[|s| - 1] ensures k in s[..|s| - 1] {
      var i :| 0 <= i < |s| && s[i] == k;
      assert s[..|s| - 1][i] == k;
    }
  }

  lemma LastIsGreatest(records: map<RecordKey, Envelope>, s: seq<RecordKey>, k: RecordKey)
    requires Ascending(records, s) && k in s
    ensures k == s[|s| - 1] || records[k].seqNo < records[s[|s| - 1]].seqNo
  {
    var i :| 0 <= i < |s| && s[i] == k;
  }

  lemma {:induction false} AscendingIsUnique(records: map<RecordKey, Envelope>, a: seq<RecordKey>, b: seq<RecordKey>)
    requires Ascending(records, a) && Ascending(records, b) && forall k :: k in a <==> k in b
    ensures a == b
  {
    if a == [] {
      EmptyOrHasOne(b);
    } else {
      var x := a[|a| - 1];
      assert x in b;
      LastIsGreatest(records, b, x);
      LastIsGreatest(records, a, b[|b| - 1]);
      assert b[|b| - 1] == x;
      AllButLast(records, a);
      AllButLast(records, b);
      var a', b' := a[..|a| - 1], b[..|b| - 1];
      forall k | k in a' ensures k in b' { assert k in b; }
      forall k | k in b' ensures k in a' { assert k in a; }
      AscendingIsUnique(records, a', b');
      assert a == a[..|a| - 1] + [x] && b == b[..|b| - 1] + [x];
    }
  }

  lemma CutAscending(records: map<RecordKey, Envelope>, s: seq<RecordKey>, n: nat)
    requires Ascending(records, s) && 0 < n <= |s|
    ensures Ascending(records, s[n..])
    ensures forall k :: k in s[n..] <==> k in s && records[k].seqNo > records[s[n - 1]].seqNo
  {
    forall k | k in s && records[k].seqNo > records[s[n - 1]].seqNo ensures k in s[n..] {
      var i :| 0 <= i < |s| && s[i] == k;
      assert s[n..][i - n] == k;
    }
  }

  lemma LogAscends(db: Db, viewer: Text, cursor: int)
    ensures Ascending(db.records, Log(db, viewer, cursor))
    ensures |Log(db, viewer, cursor)| == |VisibleAbove(db, viewer, cursor)|
  {
    BySeqAscends(db.records, VisibleAbove(db, viewer, cursor));
  }

  /** The log after a number in the log is what stood behind it. */
  lemma LogAfter(db: Db, viewer: Text, cursor: int, n: nat)
    requires 0 < n <= |Log(db, viewer, cursor)|
    ensures var log := Log(db, viewer, cursor);
            && cursor < db.records[log[n - 1]].seqNo
            && Log(db, viewer, db.records[log[n - 1]].seqNo) == log[n..]
  {
    var log := Log(db, viewer, cursor);
    var last := db.records[log[n - 1]].seqNo;
    LogAscends(db, viewer, cursor);
    LogAscends(db, viewer, last);
    CutAscending(db.records, log, n);
    assert log[n - 1] in log;
    assert forall k :: k in VisibleAbove(db, viewer, last)
                       <==> k in VisibleAbove(db, viewer, cursor) && db.records[k].seqNo > last;
    AscendingIsUnique(db.records, log[n..], Log(db, viewer, last));
  }

  /** What a page holds, followed by the log after the page's cursor, is the whole log. */
  lemma PageSplitsTheLog(db: Db, viewer: Text, cursor: int, limit: nat)
    requires limit >= 1
    ensures var log := Log(db, viewer, cursor);
            var page := PageOf(db, viewer, cursor, limit);
            && log == First(log, limit) + Log(db, viewer, page.cursor)
            && cursor <= page.cursor
            && (page.more <==> Log(db, viewer, page.cursor) != [])
  {
    var log := Log(db, viewer, cursor);
    if log != [] { LogAfter(db, viewer, cursor, |First(log, limit)|); }
  }

  /** A page is as full as it can be, ends at its last row, and says `more` exactly when a row is left out. */
  lemma PageIsFull(db: Db, viewer: Text, cursor: int, limit: nat)
    ensures var page, n := PageOf(db, viewer, cursor, limit), |VisibleAbove(db, viewer, cursor)|;
            && |page.envelopes| == (if n < limit then n else limit)
            && (page.more <==> n > limit)
            && page.cursor == if page.envelopes == [] then cursor else page.envelopes[|page.envelopes| - 1].seqNo
  {
    LogAscends(db, viewer, cursor);
  }

  /** Pulling page after page until there is no more, on a store nobody is writing to. */
  function Drain(db: Db, viewer: Text, cursor: int, limit: nat): seq<Envelope>
    requires limit >= 1
    decreases |VisibleAbove(db, viewer, cursor)|
  {
    var page := PageOf(db, viewer, cursor, limit);
    if page.more then
      MoreMeansProgress(db, viewer, cursor, limit);
      page.envelopes + Drain(db, viewer, page.cursor, limit)
    else
      page.envelopes
  }

  lemma MoreMeansProgress(db: Db, viewer: Text, cursor: int, limit: nat)
    requires limit >= 1 && PageOf(db, viewer, cursor, limit).more
    ensures |VisibleAbove(db, viewer, PageOf(db, viewer, cursor, limit).cursor)| < |VisibleAbove(db, viewer, cursor)|
  {
    PageSplitsTheLog(db, viewer, cursor, limit);
    LogAscends(db, viewer, cursor);
    LogAscends(db, viewer, PageOf(db, viewer, cursor, limit).cursor);
  }

  /**
   Draining sends every visible row above the cursor exactly once, in strictly increasing
   order, whatever the page size.
   */
  lemma {:induction false} DrainIsExact(db: Db, viewer: Text, cursor: int, limit: nat)
    requires limit >= 1
    ensures Drain(db, viewer, cursor, limit) == Rows(db.records, Log(db, viewer, cursor))
    ensures Ascending(db.records, Log(db, viewer, cursor))
    ensures forall k :: k in Log(db, viewer, cursor) <==> k in VisibleAbove(db, viewer, cursor)
    decreases |VisibleAbove(db, viewer, cursor)|
  {
    PageSplitsTheLog(db, viewer, cursor, limit);
    LogAscends(db, viewer, cursor);
    var page := PageOf(db, viewer, cursor, limit);
    var log, sent := Log(db, viewer, cursor), First(Log(db, viewer, cursor), limit);
    assert page.envelopes == Rows(db.records, sent);
    if page.more {
      MoreMeansProgress(db, viewer, cursor, limit);
      DrainIsExact(db, viewer, page.cursor, limit);
      RowsOfConcat(db.records, sent, Log(db, viewer, page.cursor));
    }
  }

  lemma RowsOfConcat(records: map<RecordKey, Envelope>, a: seq<RecordKey>, b: seq<RecordKey>)
    requires forall k | k in a + b :: k in records
    requires forall k | k in a :: k in records
    requires forall k | k in b :: k in records
    ensures Rows(records, a + b) == Rows(records, a) + Rows(records, b)
  {}
}

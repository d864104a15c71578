/** Push and pull: the request handlers, and the record-at-a-time meaning of a pushed batch. */
module Sync {
  import opened Record
  import opened Merge
  import opened Sql
  import opened Store

  datatype Config = Config(maxRecordBytes: nat, maxPage: nat)

  datatype RejectReason = ImplausibleClock | NotAMember | Stale | TooLarge
  datatype Accepted = Accepted(id: Text, kind: string, seqNo: nat)
  datatype Rejected = Rejected(id: Text, kind: string, reason: RejectReason)
  datatype Verdict = Took(ok: Accepted) | Refused(no: Rejected)

  datatype PushResponse = PushResponse(accepted: seq<Accepted>, rejected: seq<Rejected>, cursor: nat)
  datatype Page = Page(envelopes: seq<Envelope>, cursor: int, more: bool)

  // ---- pull -------------------------------------------------------------------------

  /** A page: the oldest `limit` rows of the log, and the number of the last one sent. */
  function PageOf(db: Db, viewer: Text, cursor: int, limit: nat): Page {
    var log := Log(db, viewer, cursor);
    var sent := First(log, limit);
    Page(Rows(db.records, sent),
         if sent == [] then cursor else db.records[sent[|sent| - 1]].seqNo,
         |log| > limit)
  }

  /** One row beyond the page tells whether there is more, and is then dropped. */
  lemma FetchingOneMore(records: map<RecordKey, Envelope>, log: seq<RecordKey>, limit: nat)
    requires forall k | k in log :: k in records
    ensures var fetched := Rows(records, First(log, limit + 1));
            && (|fetched| > limit <==> |log| > limit)
            && First(fetched, limit) == Rows(records, First(log, limit))
  {}

  /** Asks for one row more than a page holds, and sends it to nobody. */
  method Pull(store: SqliteStore, cfg: Config, caller: Text, cursor: int) returns (page: Page)
    requires store.Valid()
    ensures page == PageOf(store.Contents(), caller, cursor, cfg.maxPage)
  {
    FetchingOneMore(store.records, Log(store.Contents(), caller, cursor), cfg.maxPage);
    hide Log, WellFormed, SqliteStore.Valid;
    var limit := cfg.maxPage;
    var envelopes := store.Pull(caller, cursor, limit + 1);
    var more := |envelopes| > limit;
    if more {
      envelopes := envelopes[..limit];
    }
    var last := if |envelopes| > 0 then envelopes[|envelopes| - 1].seqNo else cursor;
    page := Page(envelopes, last, more);
  }

  // ---- push -------------------------------------------------------------------------

  /** What can be refused on sight. */
  function Refuse(env: Envelope, now: int, cfg: Config): Option<RejectReason> {
    if !ClockIsPlausible(env.updatedAt, now) then Some(ImplausibleClock)
    else if |env.ciphertext| > cfg.maxRecordBytes then Some(TooLarge)
    else None
  }

  /** A record under a group key is filed under the group's owner, whoever pushes it. */
  function StorageAccount(shares: map<ShareKey, ShareRow>, caller: Text, env: Envelope): Text {
    match env.keyRef
    case Personal => caller
    case InGroup(g) => (match ShareOwner(shares, g) case Some(owner) => owner case None => caller)
  }

  predicate MayWrite(shares: map<ShareKey, ShareRow>, caller: Text, env: Envelope) {
    env.keyRef.InGroup? ==> CanWriteGroup(shares, caller, env.keyRef.groupId)
  }

  function Refusal(env: Envelope, reason: RejectReason): Verdict {
    Refused(Rejected(env.id, AsStr(env.kind), reason))
  }

  /** One record pushed alone, every question asked of the store afresh. */
  function PushRecord(db: Db, cfg: Config, caller: Text, env: Envelope, now: int): (Db, Verdict) {
    match Refuse(env, now, cfg)
    case Some(reason) => (db, Refusal(env, reason))
    case None =>
      if !MayWrite(db.shares, caller, env) then (db, Refusal(env, NotAMember))
      else
        var (after, taken) := PutEnvelope(db, StorageAccount(db.shares, caller, env), env);
        match taken
        case Some(n) => (after, Took(Accepted(env.id, AsStr(env.kind), n)))
        case None => (after, Refusal(env, Stale))
  }

  /** The batch as that many separate pushes at the same `now`. */
  function PushEach(db: Db, cfg: Config, caller: Text, batch: seq<Envelope>, now: int): (r: (Db, seq<Verdict>))
    ensures |r.1| == |batch|
  {
    if batch == [] then (db, []) else
      var (before, verdicts) := PushEach(db, cfg, caller, batch[..|batch| - 1], now);
      var (after, verdict) := PushRecord(before, cfg, caller, batch[|batch| - 1], now);
      (after, verdicts + [verdict])
  }

  function AcceptedOf(vs: seq<Verdict>): seq<Accepted> {
    if vs == [] then [] else
      var earlier := AcceptedOf(vs[..|vs| - 1]);
      if vs[|vs| - 1].Took? then earlier + [vs[|vs| - 1].ok] else earlier
  }

  function RejectedOf(vs: seq<Verdict>): seq<Rejected> {
    if vs == [] then [] else
      var earlier := RejectedOf(vs[..|vs| - 1]);
      if vs[|vs| - 1].Refused? then earlier + [vs[|vs| - 1].no] else earlier
  }

  lemma SplitOneMore(vs: seq<Verdict>, v: Verdict)
    ensures AcceptedOf(vs + [v]) == if v.Took? then AcceptedOf(vs) + [v.ok] else AcceptedOf(vs)
    ensures RejectedOf(vs + [v]) == if v.Refused? then RejectedOf(vs) + [v.no] else RejectedOf(vs)
  {
    assert (vs + [v])[..|vs|] == vs;
  }

  lemma PushOneMore(db: Db, cfg: Config, caller: Text, batch: seq<Envelope>, now: int, i: nat)
    requires i < |batch|
    ensures var done := PushEach(db, cfg, caller, batch[..i], now);
            var step := PushRecord(done.0, cfg, caller, batch[i], now);
            PushEach(db, cfg, caller, batch[..i + 1], now) == (step.0, done.1 + [step.1])
  {
    assert batch[..i + 1][..i] == batch[..i];
  }

  lemma {:induction false} PushKeepsShares(db: Db, cfg: Config, caller: Text, batch: seq<Envelope>, now: int)
    ensures PushEach(db, cfg, caller, batch, now).0.shares == db.shares
  {
    if batch != [] { PushKeepsShares(db, cfg, caller, batch[..|batch| - 1], now); }
  }

  ghost predicate CachesAgree(shares: map<ShareKey, ShareRow>, caller: Text,
                              writable: map<Text, bool>, owners: map<Text, Option<Text>>)
  {
    && (forall g | g in writable :: writable[g] == CanWriteGroup(shares, caller, g))
    && (forall g | g in owners :: owners[g] == ShareOwner(shares, g))
  }

  /**
   Whose account a record is to be filed under, or `None` when the caller is no member of
   its group. Each group is asked about at most once in a batch.
   */
  method Route(store: SqliteStore, caller: Text, env: Envelope,
               knownWritable: map<Text, bool>, knownOwners: map<Text, Option<Text>>)
    returns (account: Option<Text>, writable: map<Text, bool>, owners: map<Text, Option<Text>>)
    requires CachesAgree(store.shares, caller, knownWritable, knownOwners)
    ensures account == if MayWrite(store.shares, caller, env)
                       then Some(StorageAccount(store.shares, caller, env)) else None
    ensures CachesAgree(store.shares, caller, writable, owners)
  {
    writable, owners := knownWritable, knownOwners;
    if env.keyRef.Personal? {
      return Some(caller), writable, owners;
    }
    var group := env.keyRef.groupId;
    if group !in writable {
      var known := store.CanWriteGroup(caller, group);
      writable := writable[group := known];
    }
    if !writable[group] {
      return None, writable, owners;
    }
    if group !in owners {
      var known := store.ShareOwner(group);
      owners := owners[group := known];
    }
    account := Some(if owners[group].Some? then owners[group].value else caller);
  }

  /** The body of the handler's loop: one record, with the answers cached so far in the batch. */
  method PushOne(store: SqliteStore, cfg: Config, caller: Text, env: Envelope, now: int,
                 knownWritable: map<Text, bool>, knownOwners: map<Text, Option<Text>>)
    returns (verdict: Verdict, writable: map<Text, bool>, owners: map<Text, Option<Text>>)
    requires CachesAgree(store.shares, caller, knownWritable, knownOwners)
    requires store.Valid()
    modifies store
    ensures store.Valid()
    ensures (store.Contents(), verdict) == PushRecord(old(store.Contents()), cfg, caller, env, now)
    ensures store.shares == old(store.shares) && CachesAgree(store.shares, caller, writable, owners)
  {
    writable, owners := knownWritable, knownOwners;
    var refused := Refuse(env, now, cfg);
    if refused.Some? {
      return Refusal(env, refused.value), writable, owners;
    }
    var account;
    account, writable, owners := Route(store, caller, env, writable, owners);
    if account.None? {
      return Refusal(env, NotAMember), writable, owners;
    }
    var taken := store.PutEnvelope(account.value, env);
    if taken.Some? {
      verdict := Took(Accepted(env.id, AsStr(env.kind), taken.value));
    } else {
      verdict := Refusal(env, Stale);
    }
  }

  /**
   The handler, with its two per-batch caches. It answers, and leaves the tables, exactly
   as if each record had been pushed by itself with nothing cached.
   */
  method Push(store: SqliteStore, cfg: Config, caller: Text, batch: seq<Envelope>, now: int)
    returns (response: PushResponse)
    requires store.Valid()
    modifies store
    ensures store.Valid()
    ensures var (after, verdicts) := PushEach(old(store.Contents()), cfg, caller, batch, now);
            && store.Contents() == after
            && response == PushResponse(AcceptedOf(verdicts), RejectedOf(verdicts), after.next)
  {
    var accepted, rejected := [], [];
    var writable: map<Text, bool> := map[];
    var owners: map<Text, Option<Text>> := map[];
    ghost var start, verdicts: seq<Verdict> := store.Contents(), [];
    assert AcceptedOf([]) == [] && RejectedOf([]) == [];
    assert CachesAgree(store.shares, caller, writable, owners);
    assert PushEach(start, cfg, caller, batch[..0], now) == (start, []);
    hide PushRecord, PushEach, AcceptedOf, RejectedOf, CachesAgree, WellFormed;
    hide SqliteStore.Valid, SqliteStore.Contents;

    for i := 0 to |batch|
      invariant store.Valid() && CachesAgree(store.shares, caller, writable, owners)
      invariant (store.Contents(), verdicts) == PushEach(start, cfg, caller, batch[..i], now)
      invariant accepted == AcceptedOf(verdicts) && rejected == RejectedOf(verdicts)
    {
      PushOneMore(start, cfg, caller, batch, now, i);
      var verdict;
      verdict, writable, owners := PushOne(store, cfg, caller, batch[i], now, writable, owners);
      SplitOneMore(verdicts, verdict);
      verdicts := verdicts + [verdict];
      match verdict
      case Took(a) => accepted := accepted + [a];
      case Refused(r) => rejected := rejected + [r];
    }

    assert batch[..|batch|] == batch;
    var cursor := store.MaxSeq(caller);
    response := PushResponse(accepted, rejected, cursor);
  }

  // ---- what a batch's verdicts say --------------------------------------------------

  predicate Names(v: Verdict, env: Envelope) {
    match v
    case Took(a) => a.id == env.id && a.kind == AsStr(env.kind)
    case Refused(r) => r.id == env.id && r.kind == AsStr(env.kind)
  }

  /** The batch positions of the verdicts of one sort, in order. */
  function Positions(vs: seq<Verdict>, took: bool): (r: seq<nat>)
    ensures forall j | 0 <= j < |r| :: r[j] < |vs| && vs[r[j]].Took? == took
    ensures forall i | 0 <= i < |vs| && vs[i].Took? == took :: i in r
    ensures forall a, b | 0 <= a < b < |r| :: r[a] < r[b]
  {
    if vs == [] then [] else
      var earlier := Positions(vs[..|vs| - 1], took);
      if vs[|vs| - 1].Took? == took then earlier + [|vs| - 1] else earlier
  }

  lemma {:induction false} AcceptedInBatchOrder(vs: seq<Verdict>)
    ensures var at := Positions(vs, true);
            && |AcceptedOf(vs)| == |at|
            && (forall j | 0 <= j < |at| :: vs[at[j]] == Took(AcceptedOf(vs)[j]))
  {
    if vs != [] { AcceptedInBatchOrder(vs[..|vs| - 1]); }
  }

  lemma {:induction false} RejectedInBatchOrder(vs: seq<Verdict>)
    ensures var at := Positions(vs, false);
            && |RejectedOf(vs)| == |at|
            && (forall j | 0 <= j < |at| :: vs[at[j]] == Refused(RejectedOf(vs)[j]))
  {
    if vs != [] { RejectedInBatchOrder(vs[..|vs| - 1]); }
  }

  lemma {:induction false} PositionsPartition(vs: seq<Verdict>)
    ensures |Positions(vs, true)| + |Positions(vs, false)| == |vs|
  {
    if vs != [] { PositionsPartition(vs[..|vs| - 1]); }
  }

  lemma VerdictNamesTheRecord(db: Db, cfg: Config, caller: Text, env: Envelope, now: int)
    ensures Names(PushRecord(db, cfg, caller, env, now).1, env)
  {}

  lemma {:induction false} VerdictsNameTheBatch(db: Db, cfg: Config, caller: Text, batch: seq<Envelope>, now: int)
    ensures forall i | 0 <= i < |batch| :: Names(PushEach(db, cfg, caller, batch, now).1[i], batch[i])
  {
    hide PushRecord, Names;
    if batch != [] {
      var rest := batch[..|batch| - 1];
      VerdictsNameTheBatch(db, cfg, caller, rest, now);
      VerdictNamesTheRecord(PushEach(db, cfg, caller, rest, now).0, cfg, caller, batch[|batch| - 1], now);
    }
  }

  /**
   Every pushed record is named by exactly one verdict, at its own place in the batch, and
   each list holds its verdicts in batch order.
   */
  lemma {:induction false} EveryRecordGetsOneVerdict(db: Db, cfg: Config, caller: Text, batch: seq<Envelope>, now: int)
    ensures var vs := PushEach(db, cfg, caller, batch, now).1;
            var took, refused := Positions(vs, true), Positions(vs, false);
            && (forall i | 0 <= i < |batch| :: Names(vs[i], batch[i]))
            && |AcceptedOf(vs)| == |took| && |RejectedOf(vs)| == |refused| && |took| + |refused| == |batch|
            && (forall j | 0 <= j < |took| :: vs[took[j]] == Took(AcceptedOf(vs)[j]))
            && (forall j | 0 <= j < |refused| :: vs[refused[j]] == Refused(RejectedOf(vs)[j]))
  {
    var vs := PushEach(db, cfg, caller, batch, now).1;
    VerdictsNameTheBatch(db, cfg, caller, batch, now);
    AcceptedInBatchOrder(vs);
    RejectedInBatchOrder(vs);
    PositionsPartition(vs);
  }

  lemma AcceptedNumberIsTheNext(db: Db, cfg: Config, caller: Text, env: Envelope, now: int)
    ensures var (after, verdict) := PushRecord(db, cfg, caller, env, now);
            && db.next <= after.next
            && (verdict.Took? ==> verdict.ok.seqNo == after.next == db.next + 1)
  {}

  /** Numbers above `low`, up to `high`, strictly increasing. */
  ghost predicate Increasing(accepted: seq<Accepted>, low: int, high: int) {
    && (forall i | 0 <= i < |accepted| :: low < accepted[i].seqNo <= high)
    && (forall i, j | 0 <= i < j < |accepted| :: accepted[i].seqNo < accepted[j].seqNo)
  }

  lemma IncreasingOneMore(accepted: seq<Accepted>, low: int, high: int, a: Accepted)
    requires Increasing(accepted, low, high) && low <= high < a.seqNo
    ensures Increasing(accepted + [a], low, a.seqNo)
  {}

  /** Accepted numbers are new, strictly increase, and are at most the cursor sent back. */
  lemma {:induction false} AcceptedNumbersIncrease(db: Db, cfg: Config, caller: Text, batch: seq<Envelope>, now: int)
    ensures var (after, vs) := PushEach(db, cfg, caller, batch, now);
            db.next <= after.next && Increasing(AcceptedOf(vs), db.next, after.next)
  {
    if batch != [] {
      var rest, last := batch[..|batch| - 1], batch[|batch| - 1];
      var (before, vs) := PushEach(db, cfg, caller, rest, now);
      var (after, verdict) := PushRecord(before, cfg, caller, last, now);
      assert PushEach(db, cfg, caller, batch, now) == (after, vs + [verdict]);
      AcceptedNumbersIncrease(db, cfg, caller, rest, now);
      AcceptedNumberIsTheNext(before, cfg, caller, last, now);
      SplitOneMore(vs, verdict);
      hide PushRecord, PushEach, AcceptedOf;
      if verdict.Took? { IncreasingOneMore(AcceptedOf(vs), db.next, before.next, verdict.ok); }
    }
  }

  predicate Storable(shares: map<ShareKey, ShareRow>, cfg: Config, caller: Text, env: Envelope, now: int) {
    Refuse(env, now, cfg).None? && MayWrite(shares, caller, env)
  }

  function Storables(shares: map<ShareKey, ShareRow>, cfg: Config, caller: Text, batch: seq<Envelope>,
                     now: int): seq<Envelope> {
    if batch == [] then [] else
      var last := batch[|batch| - 1];
      var earlier := Storables(shares, cfg, caller, batch[..|batch| - 1], now);
      if Storable(shares, cfg, caller, last, now) then earlier + [last] else earlier
  }

  /** One bad clock does not block, delay or renumber anything else in the same push. */
  lemma {:induction false} RefusedRecordsLeaveNoTrace(db: Db, cfg: Config, caller: Text, batch: seq<Envelope>, now: int)
    ensures var kept := Storables(db.shares, cfg, caller, batch, now);
            && PushEach(db, cfg, caller, batch, now).0 == PushEach(db, cfg, caller, kept, now).0
            && AcceptedOf(PushEach(db, cfg, caller, batch, now).1)
                 == AcceptedOf(PushEach(db, cfg, caller, kept, now).1)
  {
    if batch != [] {
      var rest := batch[..|batch| - 1];
      var last := batch[|batch| - 1];
      RefusedRecordsLeaveNoTrace(db, cfg, caller, rest, now);
      PushKeepsShares(db, cfg, caller, rest, now);
      var keptRest := Storables(db.shares, cfg, caller, rest, now);
      var (before, vs) := PushEach(db, cfg, caller, rest, now);
      var (_, keptVs) := PushEach(db, cfg, caller, keptRest, now);
      SplitOneMore(vs, PushRecord(before, cfg, caller, last, now).1);
      if Storable(db.shares, cfg, caller, last, now) {
        var kept := keptRest + [last];
        assert kept[..|kept| - 1] == keptRest;
        SplitOneMore(keptVs, PushRecord(before, cfg, caller, last, now).1);
      } else {
        assert Storables(db.shares, cfg, caller, batch, now) == keptRest;
      }
    }
  }
}

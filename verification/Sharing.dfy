/** Shared groups: who owns one, where its records are filed, and whom they reach. */
module Sharing {
  import opened Record
  import opened Merge
  import opened Sql
  import opened Store
  import opened Sync
  import opened Changelog

  // ---- the handlers -------------------------------------------------------------------

  datatype ShareOutcome = Done | AlreadyYours | NotFound

  method Create(store: SqliteStore, accounts: set<Text>, caller: Text, group: Text, user: Text, wrapped: Text)
    returns (outcome: ShareOutcome)
    requires store.Valid()
    modifies store
    ensures store.Valid()
    ensures outcome == if user == caller then AlreadyYours else if user !in accounts then NotFound else Done
    ensures store.Contents() == if outcome == Done then PutShare(old(store.Contents()), caller, group, user, wrapped)
                                else old(store.Contents())
    ensures outcome == Done ==>
              var s := ShareKey(group, user);
              s in store.shares && store.shares[s].wrapped == wrapped
              && store.shares[s].owner == if s in old(store.shares) then old(store.shares)[s].owner else caller
  {
    if user == caller {
      return AlreadyYours;
    }
    if user !in accounts {
      return NotFound;
    }
    store.PutShare(caller, group, user, wrapped);
    outcome := Done;
  }

  /** Only the owner a row names can take it away: a member removes nobody. */
  method Remove(store: SqliteStore, caller: Text, group: Text, user: Text)
    requires store.Valid()
    modifies store
    ensures store.Valid()
    ensures store.Contents() == DeleteShare(old(store.Contents()), caller, group, user)
    ensures forall s | s in old(store.shares) && old(store.shares)[s].owner != caller :: s in store.shares
  {
    store.DeleteShare(caller, group, user);
  }

  // ---- one owner per group --------------------------------------------------------------

  ghost predicate SingleOwner(shares: map<ShareKey, ShareRow>) {
    forall s, t | s in shares && t in shares && s.group == t.group :: shares[s].owner == shares[t].owner
  }

  lemma OwnerOfAnyShare(shares: map<ShareKey, ShareRow>, s: ShareKey)
    requires SingleOwner(shares) && s in shares
    ensures ShareOwner(shares, s.group) == Some(shares[s].owner)
  {
    assert s in SharesOf(shares, s.group);
  }

  /** What keeps one owner: the group is the caller's, or nobody's yet, or the row, with its owner, is there. */
  predicate OwnerGuard(shares: map<ShareKey, ShareRow>, owner: Text, group: Text, user: Text) {
    || ShareKey(group, user) in shares
    || SharesOf(shares, group) == {}
    || ShareOwner(shares, group) == Some(owner)
  }

  /** Sharing does not itself check ownership; this is exactly when it keeps groups single-owned. */
  lemma SharingKeepsOneOwnerIff(db: Db, owner: Text, group: Text, user: Text, wrapped: Text)
    requires SingleOwner(db.shares)
    ensures SingleOwner(PutShare(db, owner, group, user, wrapped).shares) <==> OwnerGuard(db.shares, owner, group, user)
  {
    var after := PutShare(db, owner, group, user, wrapped).shares;
    if SharesOf(db.shares, group) != {} {
      var s := FirstShare(db.shares, group);
      OwnerOfAnyShare(db.shares, s);
      assert s in after && ShareKey(group, user) in after;
    }
    if OwnerGuard(db.shares, owner, group, user) {
      forall s, t | s in after && t in after && s.group == t.group ensures after[s].owner == after[t].owner {
        if s in db.shares { OwnerOfAnyShare(db.shares, s); } else { assert s == ShareKey(group, user); }
        if t in db.shares { OwnerOfAnyShare(db.shares, t); } else { assert t == ShareKey(group, user); }
        assert s in db.shares && s.group == group ==> s in SharesOf(db.shares, group);
        assert t in db.shares && t.group == group ==> t in SharesOf(db.shares, group);
      }
    }
  }

  lemma RevokingKeepsOneOwner(db: Db, owner: Text, group: Text, user: Text)
    requires SingleOwner(db.shares)
    ensures SingleOwner(DeleteShare(db, owner, group, user).shares)
  {}

  // ---- runs of pushes and share changes --------------------------------------------------

  datatype Act =
    | Pushed(caller: Text, env: Envelope, now: int)
    | Shared(owner: Text, group: Text, user: Text, wrapped: Text)
    | Revoked(owner: Text, group: Text, user: Text)

  function Do(cfg: Config, db: Db, act: Act): Db {
    match act
    case Pushed(caller, env, now) => PushRecord(db, cfg, caller, env, now).0
    case Shared(owner, group, user, wrapped) => PutShare(db, owner, group, user, wrapped)
    case Revoked(owner, group, user) => DeleteShare(db, owner, group, user)
  }

  function DoAll(cfg: Config, db: Db, acts: seq<Act>): Db {
    if acts == [] then db else Do(cfg, DoAll(cfg, db, acts[..|acts| - 1]), acts[|acts| - 1])
  }

  /** What the handler itself makes sure of: nobody shares with itself. */
  predicate Handled(acts: seq<Act>) { forall a | a in acts && a.Shared? :: a.owner != a.user }

  lemma OneMoreAct(cfg: Config, db: Db, acts: seq<Act>, act: Act)
    ensures DoAll(cfg, db, acts + [act]) == Do(cfg, DoAll(cfg, db, acts), act)
  {
    assert (acts + [act])[..|acts|] == acts;
  }

  const OWNER: Text := [1]
  const MEMBER: Text := [2]
  const GROUP: Text := [3]
  const OUTSIDER: Text := [4]
  const FRIEND: Text := [5]

  const MEMBERSHIP := ShareKey(GROUP, MEMBER)
  const FRIENDSHIP := ShareKey(GROUP, FRIEND)
  const THEIRS := Envelope([7], Host, InGroup(GROUP), Some(GROUP), None, 0, 1, [1], None, [], [], 0)

  /** The owner shares with a member and pushes a record. */
  function OneShare(): seq<Act> { [Shared(OWNER, GROUP, MEMBER, []), Pushed(OWNER, THEIRS, 1)] }

  /** And then the outsider shares the same id. */
  function TwoOwners(): seq<Act> { OneShare() + [Shared(OUTSIDER, GROUP, FRIEND, [])] }

  lemma OneShareOneRow(cfg: Config)
    ensures var db := DoAll(cfg, EMPTY, OneShare());
            && db.shares == map[MEMBERSHIP := ShareRow(OWNER, [])]
            && db.records == map[RecordKey(OWNER, Host, [7]) := THEIRS.(seqNo := 1)]
  {
    var a1, a2 := Shared(OWNER, GROUP, MEMBER, []), Pushed(OWNER, THEIRS, 1);
    OneMoreAct(cfg, EMPTY, [], a1);
    OneMoreAct(cfg, EMPTY, [a1], a2);
    assert [] + [a1] == [a1] && [a1] + [a2] == [a1, a2] && DoAll(cfg, EMPTY, []) == EMPTY;
    hide DoAll;
    var db := DoAll(cfg, EMPTY, [a1]);
    assert db.records == map[] && db.shares == map[MEMBERSHIP := ShareRow(OWNER, [])];
    assert MEMBERSHIP in SharesOf(db.shares, GROUP) && CanWriteGroup(db.shares, OWNER, GROUP);
    assert StorageAccount(db.shares, OWNER, THEIRS) == OWNER;
  }

  /** Two accounts sharing under one group id leave it with two owners: the handler lets them. */
  lemma AGroupCanGetTwoOwners(cfg: Config)
    ensures Handled(TwoOwners())
    ensures var db := DoAll(cfg, EMPTY, TwoOwners());
            && db.shares == map[MEMBERSHIP := ShareRow(OWNER, []), FRIENDSHIP := ShareRow(OUTSIDER, [])]
            && db.records == map[RecordKey(OWNER, Host, [7]) := THEIRS.(seqNo := 1)]
            && !SingleOwner(db.shares)
  {
    OneShareOneRow(cfg);
    OneMoreAct(cfg, EMPTY, OneShare(), Shared(OUTSIDER, GROUP, FRIEND, []));
    hide DoAll;
    assert OWNER[0] != MEMBER[0] && OUTSIDER[0] != FRIEND[0] && MEMBER[0] != FRIEND[0] && OWNER[0] != OUTSIDER[0];
    var shares := DoAll(cfg, EMPTY, TwoOwners()).shares;
    assert MEMBERSHIP in shares && FRIENDSHIP in shares;
  }

  // ---- whose wrapped key a member is handed ---------------------------------------------------

  /** Every share that `act` leaves with another wrapped key is the acting account's own. */
  ghost predicate RewrapsItsOwn(cfg: Config, db: Db, act: Act) {
    forall s | s in db.shares && s in Do(cfg, db, act).shares
               && Do(cfg, db, act).shares[s].wrapped != db.shares[s].wrapped ::
      act.Shared? && db.shares[s].owner == act.owner
  }

  /**
   A stored wrapped key is replaced only by sharing the same group with the same member again,
   which the row's owner survives; and only the owner's is replaced by the owner, in one step, if
   and only if the step is not another account sharing with that member a different key.
   */
  lemma RewrapsItsOwnIff(cfg: Config, db: Db, act: Act)
    ensures RewrapsItsOwn(cfg, db, act)
       <==> (act.Shared? && ShareKey(act.group, act.user) in db.shares ==>
               || db.shares[ShareKey(act.group, act.user)].owner == act.owner
               || db.shares[ShareKey(act.group, act.user)].wrapped == act.wrapped)
    ensures forall s | s in db.shares && s in Do(cfg, db, act).shares ::
              && Do(cfg, db, act).shares[s].owner == db.shares[s].owner
              && Do(cfg, db, act).shares[s].wrapped
                 == if act.Shared? && ShareKey(act.group, act.user) == s then act.wrapped else db.shares[s].wrapped
  {
    if act.Pushed? { PushLeavesShares(db, cfg, act.caller, act.env, act.now); }
    if act.Shared? {
      var s := ShareKey(act.group, act.user);
      assert s in Do(cfg, db, act).shares;
    }
  }

  /** And the handler lets anyone: an outsider, sharing the owner's group with its member, replaces the key. */
  lemma AnOutsiderRewraps(cfg: Config)
    ensures var acts := OneShare() + [Shared(OUTSIDER, GROUP, MEMBER, [9])];
            Handled(acts) && DoAll(cfg, EMPTY, acts).shares == map[MEMBERSHIP := ShareRow(OWNER, [9])]
  {
    OneShareOneRow(cfg);
    OneMoreAct(cfg, EMPTY, OneShare(), Shared(OUTSIDER, GROUP, MEMBER, [9]));
    hide DoAll;
    assert OWNER[0] != MEMBER[0] && OUTSIDER[0] != MEMBER[0];
  }

  /** Only the group's owner shares it further. */
  ghost predicate Guarded(cfg: Config, db: Db, acts: seq<Act>) {
    acts == [] ||
    var before, last := acts[..|acts| - 1], acts[|acts| - 1];
    && Guarded(cfg, db, before)
    && (last.Shared? ==> OwnerGuard(DoAll(cfg, db, before).shares, last.owner, last.group, last.user))
  }

  /** The group has at least one member at every point of the run. */
  ghost predicate StaysShared(cfg: Config, db: Db, acts: seq<Act>, group: Text) {
    && SharesOf(DoAll(cfg, db, acts).shares, group) != {}
    && (acts != [] ==> StaysShared(cfg, db, acts[..|acts| - 1], group))
  }

  lemma PushLeavesShares(db: Db, cfg: Config, caller: Text, env: Envelope, now: int)
    ensures PushRecord(db, cfg, caller, env, now).0.shares == db.shares
  {}

  lemma SharingKeepsTheOwner(db: Db, act: Act, group: Text, cfg: Config)
    requires SingleOwner(db.shares) && !act.Pushed?
    requires act.Shared? ==> OwnerGuard(db.shares, act.owner, act.group, act.user)
    requires SharesOf(db.shares, group) != {} && SharesOf(Do(cfg, db, act).shares, group) != {}
    ensures SingleOwner(Do(cfg, db, act).shares)
    ensures ShareOwner(Do(cfg, db, act).shares, group) == ShareOwner(db.shares, group)
  {
    var after := Do(cfg, db, act).shares;
    match act {
      case Shared(owner, g, user, wrapped) => SharingKeepsOneOwnerIff(db, owner, g, user, wrapped);
      case Revoked(owner, g, user) => RevokingKeepsOneOwner(db, owner, g, user);
    }
    var before, now := FirstShare(db.shares, group), FirstShare(after, group);
    if now in db.shares {
      OwnerOfAnyShare(db.shares, now);
    } else {
      assert before in after;
      OwnerOfAnyShare(after, before);
    }
  }

  lemma SingleOwnerStays(db: Db, act: Act, cfg: Config)
    requires SingleOwner(db.shares)
    requires act.Shared? ==> OwnerGuard(db.shares, act.owner, act.group, act.user)
    ensures SingleOwner(Do(cfg, db, act).shares)
  {
    match act
    case Pushed(caller, env, now) => PushLeavesShares(db, cfg, caller, env, now);
    case Shared(owner, g, user, wrapped) => SharingKeepsOneOwnerIff(db, owner, g, user, wrapped);
    case Revoked(owner, g, user) => RevokingKeepsOneOwner(db, owner, g, user);
  }

  lemma {:induction false} OneOwnerThroughout(cfg: Config, db: Db, acts: seq<Act>)
    requires SingleOwner(db.shares) && Guarded(cfg, db, acts)
    ensures SingleOwner(DoAll(cfg, db, acts).shares)
  {
    if acts != [] {
      OneOwnerThroughout(cfg, db, acts[..|acts| - 1]);
      SingleOwnerStays(DoAll(cfg, db, acts[..|acts| - 1]), acts[|acts| - 1], cfg);
    }
  }

  lemma {:induction false} OwnerIsConstant(cfg: Config, db: Db, acts: seq<Act>, group: Text)
    requires SingleOwner(db.shares) && Guarded(cfg, db, acts) && StaysShared(cfg, db, acts, group)
    ensures ShareOwner(DoAll(cfg, db, acts).shares, group) == ShareOwner(db.shares, group)
  {
    if acts != [] {
      var rest, last := acts[..|acts| - 1], acts[|acts| - 1];
      var before := DoAll(cfg, db, rest);
      OwnerIsConstant(cfg, db, rest, group);
      OneOwnerThroughout(cfg, db, rest);
      assert StaysShared(cfg, db, rest, group);
      if last.Pushed? {
        PushLeavesShares(before, cfg, last.caller, last.env, last.now);
      } else {
        SharingKeepsTheOwner(before, last, group, cfg);
      }
    }
  }

  /** The push changes the owner's row of that record, or nothing; only owner and members get that far. */
  ghost predicate LandsWith(owner: Text, before: Db, caller: Text, env: Envelope, after: Db, verdict: Verdict)
    requires env.keyRef.InGroup?
  {
    match verdict
    case Took(a) =>
      && after.records == before.records[RecordKey(owner, env.kind, env.id) := env.(seqNo := a.seqNo)]
      && (caller == owner || ShareKey(env.keyRef.groupId, caller) in before.shares)
    case Refused(_) => after.records == before.records
  }

  lemma GroupPushLandsWithOwner(db: Db, cfg: Config, caller: Text, env: Envelope, now: int)
    requires env.keyRef.InGroup? && SingleOwner(db.shares) && SharesOf(db.shares, env.keyRef.groupId) != {}
    ensures var (after, verdict) := PushRecord(db, cfg, caller, env, now);
            LandsWith(ShareOwner(db.shares, env.keyRef.groupId).value, db, caller, env, after, verdict)
  {
    var group := env.keyRef.groupId;
    if CanWriteGroup(db.shares, caller, group) {
      var s :| s in db.shares && s.group == group && (db.shares[s].owner == caller || s.user == caller);
      OwnerOfAnyShare(db.shares, s);
      assert s == ShareKey(group, s.user);
    }
  }

  /**
   While a group stays shared, every push under its key - by the owner or by any member, at
   any time - lands on the one row filed under its owner, and touches no other.
   */
  lemma {:induction false} SharedRecordsHaveOneRow(cfg: Config, db: Db, acts: seq<Act>, caller: Text,
                                                   env: Envelope, now: int)
    requires env.keyRef.InGroup?
    requires SingleOwner(db.shares) && Guarded(cfg, db, acts) && StaysShared(cfg, db, acts, env.keyRef.groupId)
    ensures var owner := ShareOwner(db.shares, env.keyRef.groupId);
            var before := DoAll(cfg, db, acts);
            var (after, verdict) := PushRecord(before, cfg, caller, env, now);
            owner.Some? && LandsWith(owner.value, before, caller, env, after, verdict)
  {
    OwnerIsConstant(cfg, db, acts, env.keyRef.groupId);
    OneOwnerThroughout(cfg, db, acts);
    SharedFromTheStart(cfg, db, acts, env.keyRef.groupId);
    hide LandsWith, PushRecord;
    GroupPushLandsWithOwner(DoAll(cfg, db, acts), cfg, caller, env, now);
  }

  lemma {:induction false} SharedFromTheStart(cfg: Config, db: Db, acts: seq<Act>, group: Text)
    requires StaysShared(cfg, db, acts, group)
    ensures SharesOf(db.shares, group) != {}
  {
    if acts != [] { SharedFromTheStart(cfg, db, acts[..|acts| - 1], group); }
  }

  // ---- whose rows a push can reach --------------------------------------------------------

  predicate Changed(before: Db, after: Db, k: RecordKey) {
    k in after.records && (k !in before.records || before.records[k] != after.records[k])
  }

  /** `owner` itself let `member` into the group. */
  predicate GrantedBy(shares: map<ShareKey, ShareRow>, owner: Text, group: Text, member: Text) {
    var s := ShareKey(group, member);
    s in shares && shares[s].owner == owner
  }

  /** Whoever is named in a row of the group is the account its records go to, or was let in by it. */
  ghost predicate WellGranted(shares: map<ShareKey, ShareRow>, group: Text) {
    forall s | s in SharesOf(shares, group) ::
      var holder := ShareOwner(shares, group).value;
      && (s.user == holder || shares[s].owner == holder)
      && (shares[s].owner == holder || GrantedBy(shares, holder, group, shares[s].owner))
  }

  /** No record pushed under the group's key touches the row of an account that did not let the caller in. */
  ghost predicate PushesStayHome(db: Db, cfg: Config, group: Text) {
    forall caller, env: Envelope, now, k: RecordKey |
      env.keyRef == InGroup(group) && k.account != caller && Changed(db, PushRecord(db, cfg, caller, env, now).0, k) ::
      GrantedBy(db.shares, k.account, group, caller)
  }

  lemma SingleOwnerGrantsWell(shares: map<ShareKey, ShareRow>, group: Text)
    requires SingleOwner(shares)
    ensures WellGranted(shares, group)
  {
    forall s | s in SharesOf(shares, group) ensures shares[s].owner == ShareOwner(shares, group).value {
      OwnerOfAnyShare(shares, s);
    }
  }

  /** Whoever may write the group can push a record that changes a row, and only its holder's. */
  lemma SomePushLands(db: Db, cfg: Config, caller: Text, group: Text) returns (env: Envelope, now: int, k: RecordKey)
    requires CanWriteGroup(db.shares, caller, group)
    ensures env.keyRef == InGroup(group) && k == KeyFor(StorageAccount(db.shares, caller, env), env)
    ensures Changed(db, PushRecord(db, cfg, caller, env, now).0, k)
  {
    env := Envelope([], Host, InGroup(group), Some(group), None, 0, 0, [], None, [], [], 0);
    k := KeyFor(StorageAccount(db.shares, caller, env), env);
    now := if k in db.records then db.records[k].updatedAt + 1 else 0;
    env := env.(updatedAt := now);
  }

  /** A pushed record changes at most one row: the one it is filed as. */
  lemma PushChangesItsRow(db: Db, cfg: Config, caller: Text, env: Envelope, now: int, k: RecordKey)
    requires Changed(db, PushRecord(db, cfg, caller, env, now).0, k)
    ensures MayWrite(db.shares, caller, env) && k == KeyFor(StorageAccount(db.shares, caller, env), env)
  {}

  /**
   Pushes under a group's key reach only the caller's own rows and those of the account that let
   the caller into the group, if and only if everyone named in the group's shares is the account
   its records go to or was let in by it.
   */
  lemma PushesStayHomeIff(db: Db, cfg: Config, group: Text)
    ensures PushesStayHome(db, cfg, group) <==> WellGranted(db.shares, group)
  {
    if WellGranted(db.shares, group) {
      forall caller, env: Envelope, now, k: RecordKey |
        env.keyRef == InGroup(group) && k.account != caller && Changed(db, PushRecord(db, cfg, caller, env, now).0, k)
        ensures GrantedBy(db.shares, k.account, group, caller)
      {
        PushStaysHome(db, cfg, caller, env, now, k);
      }
    }
    if PushesStayHome(db, cfg, group) {
      forall s | s in SharesOf(db.shares, group)
        ensures var holder := ShareOwner(db.shares, group).value;
                && (s.user == holder || db.shares[s].owner == holder)
                && (db.shares[s].owner == holder || GrantedBy(db.shares, holder, group, db.shares[s].owner))
      {
        var env, now, k := SomePushLands(db, cfg, s.user, group);
        assert s == ShareKey(group, s.user);
        env, now, k := SomePushLands(db, cfg, db.shares[s].owner, group);
      }
    }
  }

  lemma PushStaysHome(db: Db, cfg: Config, caller: Text, env: Envelope, now: int, k: RecordKey)
    requires env.keyRef.InGroup? && WellGranted(db.shares, env.keyRef.groupId) && k.account != caller
    requires Changed(db, PushRecord(db, cfg, caller, env, now).0, k)
    ensures GrantedBy(db.shares, k.account, env.keyRef.groupId, caller)
  {
    var group := env.keyRef.groupId;
    PushChangesItsRow(db, cfg, caller, env, now, k);
    assert FirstShare(db.shares, group) in SharesOf(db.shares, group);
    var s :| s in db.shares && s.group == group && (db.shares[s].owner == caller || s.user == caller);
    assert s in SharesOf(db.shares, group) && s == ShareKey(group, s.user);
  }

  /** One of the batch's groups is one `owner` let the caller into. */
  ghost predicate GrantedInBatch(shares: map<ShareKey, ShareRow>, owner: Text, batch: seq<Envelope>, caller: Text) {
    exists env | env in batch :: env.keyRef.InGroup? && GrantedBy(shares, owner, env.keyRef.groupId, caller)
  }

  /** A batch changes another account's row only if that account let the caller into one of its groups. */
  lemma {:induction false} PushReachesOnlySharers(db: Db, cfg: Config, caller: Text, batch: seq<Envelope>, now: int,
                                                  k: RecordKey)
    requires forall env | env in batch && env.keyRef.InGroup? :: WellGranted(db.shares, env.keyRef.groupId)
    requires k.account != caller && Changed(db, PushEach(db, cfg, caller, batch, now).0, k)
    ensures GrantedInBatch(db.shares, k.account, batch, caller)
  {
    hide PushRecord, WellGranted, GrantedBy;
    var rest, last := batch[..|batch| - 1], batch[|batch| - 1];
    assert last in batch && forall env | env in rest :: env in batch;
    var before := PushEach(db, cfg, caller, rest, now).0;
    PushKeepsShares(db, cfg, caller, rest, now);
    if Changed(before, PushRecord(before, cfg, caller, last, now).0, k) {
      PushChangesItsRow(before, cfg, caller, last, now, k);
      PushStaysHome(before, cfg, caller, last, now, k);
    } else {
      PushReachesOnlySharers(db, cfg, caller, rest, now, k);
    }
  }

  ghost predicate BatchesStayHome(db: Db, cfg: Config) {
    forall caller, batch, now, k: RecordKey |
      k.account != caller && Changed(db, PushEach(db, cfg, caller, batch, now).0, k) ::
      GrantedInBatch(db.shares, k.account, batch, caller)
  }

  /** Nobody's rows can be reached by an account it let into none of the groups pushed to, iff every group is so. */
  lemma BatchesStayHomeIff(db: Db, cfg: Config)
    ensures BatchesStayHome(db, cfg) <==> forall group :: WellGranted(db.shares, group)
  {
    if forall group :: WellGranted(db.shares, group) {
      forall caller, batch, now, k: RecordKey |
        k.account != caller && Changed(db, PushEach(db, cfg, caller, batch, now).0, k)
        ensures GrantedInBatch(db.shares, k.account, batch, caller)
      {
        PushReachesOnlySharers(db, cfg, caller, batch, now, k);
      }
    }
    if BatchesStayHome(db, cfg) {
      hide PushRecord, WellGranted, GrantedBy, Changed;
      forall group ensures WellGranted(db.shares, group) {
        forall caller, env: Envelope, now, k: RecordKey |
          env.keyRef == InGroup(group) && k.account != caller && Changed(db, PushRecord(db, cfg, caller, env, now).0, k)
          ensures GrantedBy(db.shares, k.account, group, caller)
        {
          var batch := [env];
          assert batch[..0] == [] && PushEach(db, cfg, caller, [], now).0 == db;
          assert PushEach(db, cfg, caller, batch, now).0 == PushRecord(db, cfg, caller, env, now).0;
          assert GrantedInBatch(db.shares, k.account, batch, caller);
        }
        PushesStayHomeIff(db, cfg, group);
      }
    }
  }

  lemma OutsiderGoesToTheOwner(shares: map<ShareKey, ShareRow>, env: Envelope)
    requires shares == map[MEMBERSHIP := ShareRow(OWNER, []), FRIENDSHIP := ShareRow(OUTSIDER, [])]
    requires env.keyRef == InGroup(GROUP)
    ensures MayWrite(shares, OUTSIDER, env) && StorageAccount(shares, OUTSIDER, env) == OWNER
    ensures forall group :: !GrantedBy(shares, OWNER, group, OUTSIDER)
  {
    assert MEMBER[0] < FRIEND[0] && OUTSIDER[0] != MEMBER[0] && OUTSIDER[0] != FRIEND[0];
    assert Below(MEMBER, FRIEND) && !Below(FRIEND, MEMBER);
    assert MEMBERSHIP in SharesOf(shares, GROUP) && FRIENDSHIP in SharesOf(shares, GROUP);
    assert FirstShare(shares, GROUP) == MEMBERSHIP;
    assert FRIENDSHIP in shares && shares[FRIENDSHIP].owner == OUTSIDER;
  }

  /**
   And an outsider can reach in: sharing a group id that is already another's with anybody at all
   makes it a writer of the group, whose records still go to the first owner's rows.
   */
  lemma AnOutsiderOverwrites(cfg: Config) returns (env: Envelope, k: RecordKey)
    ensures Handled(TwoOwners()) && k.account == OWNER
    ensures var before := DoAll(cfg, EMPTY, TwoOwners());
            var (after, verdict) := PushRecord(before, cfg, OUTSIDER, env, 2);
            && k in before.records && Changed(before, after, k) && verdict.Took?
            && forall group :: !GrantedBy(before.shares, OWNER, group, OUTSIDER)
  {
    env, k := THEIRS.(updatedAt := 2), RecordKey(OWNER, Host, [7]);
    AGroupCanGetTwoOwners(cfg);
    OutsiderGoesToTheOwner(DoAll(cfg, EMPTY, TwoOwners()).shares, env);
    hide DoAll, MayWrite, StorageAccount, GrantedBy, SingleOwner, Handled;
  }

  // ---- exactly when a shared record keeps its one row ----------------------------------------

  /** Whatever is pushed under the group's key, by anyone, changes rows of `holder` only. */
  ghost predicate LandsOnlyWith(db: Db, cfg: Config, group: Text, holder: Text) {
    forall caller, env: Envelope, now, k: RecordKey |
      env.keyRef == InGroup(group) && Changed(db, PushRecord(db, cfg, caller, env, now).0, k) ::
      k.account == holder
  }

  lemma LandsOnlyWithIff(db: Db, cfg: Config, group: Text, holder: Text)
    requires SharesOf(db.shares, group) != {}
    ensures LandsOnlyWith(db, cfg, group, holder) <==> ShareOwner(db.shares, group) == Some(holder)
  {
    if LandsOnlyWith(db, cfg, group, holder) {
      var s := FirstShare(db.shares, group);
      var env, now, k := SomePushLands(db, cfg, db.shares[s].owner, group);
    } else {
      var caller, env: Envelope, now, k: RecordKey :|
        env.keyRef == InGroup(group) && Changed(db, PushRecord(db, cfg, caller, env, now).0, k) && k.account != holder;
      PushChangesItsRow(db, cfg, caller, env, now, k);
    }
  }

  /** Records go by the row with the least member id: `act` leaves the owner of that row the same. */
  ghost predicate HolderGuard(shares: map<ShareKey, ShareRow>, act: Act, group: Text)
    requires SharesOf(shares, group) != {}
  {
    var first := FirstShare(shares, group);
    var holder := shares[first].owner;
    match act
    case Pushed(_, _, _) => true
    case Shared(owner, g, user, _) =>
      g == group ==> ShareKey(g, user) in shares || owner == holder || Below(first.user, user)
    case Revoked(owner, g, user) =>
      ShareKey(g, user) == first && owner == holder ==>
        exists next :: IsFirstUser(SharesOf(shares, group) - {first}, next) && shares[next].owner == holder
  }

  lemma FirstShareIs(shares: map<ShareKey, ShareRow>, group: Text, s: ShareKey)
    requires IsFirstUser(SharesOf(shares, group), s)
    ensures FirstShare(shares, group) == s
  {
    FirstUserIsUnique(SharesOf(shares, group));
    assert IsFirstUser(SharesOf(shares, group), FirstShare(shares, group));
  }

  lemma ShareKeepsHolderIff(db: Db, owner: Text, group: Text, user: Text, wrapped: Text)
    requires SharesOf(db.shares, group) != {}
    ensures var first := FirstShare(db.shares, group);
            ShareOwner(PutShare(db, owner, group, user, wrapped).shares, group) == ShareOwner(db.shares, group)
            <==> ShareKey(group, user) in db.shares || owner == db.shares[first].owner || Below(first.user, user)
  {
    var s, first := ShareKey(group, user), FirstShare(db.shares, group);
    var after := PutShare(db, owner, group, user, wrapped).shares;
    BelowIsAStrictTotalOrder(first.user, user, user);
    assert IsFirstUser(SharesOf(db.shares, group), first);
    assert SharesOf(after, group) == SharesOf(db.shares, group) + {s};
    if s in db.shares || Below(first.user, user) {
      FirstShareIs(after, group, first);
    } else {
      forall o | o in SharesOf(db.shares, group) ensures Below(user, o.user) {
        BelowIsAStrictTotalOrder(user, first.user, o.user);
      }
      FirstShareIs(after, group, s);
    }
  }

  lemma RevokingKeepsHolderIff(db: Db, owner: Text, group: Text, user: Text)
    requires SharesOf(db.shares, group) != {}
    requires SharesOf(DeleteShare(db, owner, group, user).shares, group) != {}
    ensures var first := FirstShare(db.shares, group);
            var holder := db.shares[first].owner;
            ShareOwner(DeleteShare(db, owner, group, user).shares, group) == Some(holder)
            <==> (ShareKey(group, user) == first && owner == holder ==>
                    exists next :: IsFirstUser(SharesOf(db.shares, group) - {first}, next)
                                   && db.shares[next].owner == holder)
  {
    var s, first := ShareKey(group, user), FirstShare(db.shares, group);
    var after := DeleteShare(db, owner, group, user).shares;
    assert IsFirstUser(SharesOf(db.shares, group), first);
    if s == first && owner == db.shares[first].owner {
      assert SharesOf(after, group) == SharesOf(db.shares, group) - {first};
      var next := FirstShare(after, group);
      assert IsFirstUser(SharesOf(after, group), next);
      FirstUserIsUnique(SharesOf(after, group));
    } else {
      assert SharesOf(after, group) <= SharesOf(db.shares, group) && first in SharesOf(after, group);
      FirstShareIs(after, group, first);
    }
  }

  lemma HolderStaysIff(cfg: Config, db: Db, act: Act, group: Text)
    requires SharesOf(db.shares, group) != {} && SharesOf(Do(cfg, db, act).shares, group) != {}
    ensures ShareOwner(Do(cfg, db, act).shares, group) == ShareOwner(db.shares, group)
       <==> HolderGuard(db.shares, act, group)
  {
    match act
    case Pushed(caller, env, now) => PushLeavesShares(db, cfg, caller, env, now);
    case Shared(owner, g, user, wrapped) =>
      if g == group {
        ShareKeepsHolderIff(db, owner, group, user, wrapped);
      } else {
        SameShares(db.shares, Do(cfg, db, act).shares, group);
      }
    case Revoked(owner, g, user) =>
      if g == group {
        RevokingKeepsHolderIff(db, owner, group, user);
      } else {
        SameShares(db.shares, Do(cfg, db, act).shares, group);
      }
  }

  lemma SameShares(before: map<ShareKey, ShareRow>, after: map<ShareKey, ShareRow>, group: Text)
    requires SharesOf(before, group) != {} && SharesOf(after, group) == SharesOf(before, group)
    requires forall s | s in SharesOf(before, group) :: after[s] == before[s]
    ensures ShareOwner(after, group) == ShareOwner(before, group)
  {
    assert IsFirstUser(SharesOf(before, group), FirstShare(before, group));
    FirstShareIs(after, group, FirstShare(before, group));
  }

  /** At every point of the run every push under the group's key lands with `holder`. */
  ghost predicate OneRow(cfg: Config, db: Db, acts: seq<Act>, group: Text, holder: Text) {
    && LandsOnlyWith(DoAll(cfg, db, acts), cfg, group, holder)
    && (acts != [] ==> OneRow(cfg, db, acts[..|acts| - 1], group, holder))
  }

  ghost predicate HolderGuarded(cfg: Config, db: Db, acts: seq<Act>, group: Text)
    requires StaysShared(cfg, db, acts, group)
  {
    acts == [] ||
    var before, last := acts[..|acts| - 1], acts[|acts| - 1];
    HolderGuarded(cfg, db, before, group) && HolderGuard(DoAll(cfg, db, before).shares, last, group)
  }

  /**
   While a group stays shared - whoever shares it, under however many owners - all pushes under
   its key land on the rows of one account, and so on one row a record, if and only if no share
   or revocation changes the owner of the share with the least member id.
   */
  lemma {:induction false} SharedRecordsKeepOneRowIff(cfg: Config, db: Db, acts: seq<Act>, group: Text, holder: Text)
    requires StaysShared(cfg, db, acts, group) && LandsOnlyWith(db, cfg, group, holder)
    ensures OneRow(cfg, db, acts, group, holder) <==> HolderGuarded(cfg, db, acts, group)
  {
    hide LandsOnlyWith, HolderGuard, Do;
    if acts != [] {
      var rest, last := acts[..|acts| - 1], acts[|acts| - 1];
      var before := DoAll(cfg, db, rest);
      assert StaysShared(cfg, db, rest, group);
      SharedRecordsKeepOneRowIff(cfg, db, rest, group, holder);
      LandsOnlyWithIff(before, cfg, group, holder);
      LandsOnlyWithIff(DoAll(cfg, db, acts), cfg, group, holder);
      HolderStaysIff(cfg, before, last, group);
      assert OneRow(cfg, db, rest, group, holder) ==> LandsOnlyWith(before, cfg, group, holder);
    }
  }

  // ---- whom an accepted write reaches --------------------------------------------------------

  lemma DrainHolds(db: Db, viewer: Text, cursor: int, limit: nat, k: RecordKey)
    requires limit >= 1 && k in VisibleAbove(db, viewer, cursor)
    ensures db.records[k] in Drain(db, viewer, cursor, limit)
  {
    DrainIsExact(db, viewer, cursor, limit);
    var log := Log(db, viewer, cursor);
    var i :| 0 <= i < |log| && log[i] == k;
    assert Rows(db.records, log)[i] == db.records[k];
  }

  /**
   An accepted group write whose plaintext group is its key's group reaches, by draining from
   any earlier cursor at any later time, the account it is filed under and everyone who is
   then a member - unless a newer write has taken its place.
   */
  lemma {:induction false} AcceptedGroupWritesReachEveryone(db: Db, cfg: Config, caller: Text, env: Envelope, now: int,
                                         later: seq<Op>, viewer: Text, cursor: int, limit: nat)
    requires env.keyRef.InGroup? && env.groupId == Some(env.keyRef.groupId) && limit >= 1
    requires PushRecord(db, cfg, caller, env, now).1.Took?
    requires cursor < PushRecord(db, cfg, caller, env, now).1.ok.seqNo
    requires var at := ApplyAll(PushRecord(db, cfg, caller, env, now).0, later);
             viewer == StorageAccount(db.shares, caller, env) || ShareKey(env.keyRef.groupId, viewer) in at.shares
    ensures var (after, verdict) := PushRecord(db, cfg, caller, env, now);
            var at := ApplyAll(after, later);
            var k := KeyFor(StorageAccount(db.shares, caller, env), env);
            && k in at.records
            && (|| env.(seqNo := verdict.ok.seqNo) in Drain(at, viewer, cursor, limit)
                || Loses(env, at.records[k]))
  {
    var (after, verdict) := PushRecord(db, cfg, caller, env, now);
    var k := KeyFor(StorageAccount(db.shares, caller, env), env);
    var at := ApplyAll(after, later);
    RowsOnlyAdvance(after, later);
    assert after.records[k] == env.(seqNo := verdict.ok.seqNo);
    if at.records[k] == after.records[k] {
      DrainHolds(at, viewer, cursor, limit, k);
    }
  }

  /**
   Filing goes by the key's group, visibility by the plaintext one, and the server compares
   them nowhere: a member other than the holder is sent the write exactly when the plaintext
   group is one shared with it.
   */
  lemma MembersAreSentItIff(db: Db, cfg: Config, caller: Text, env: Envelope, now: int, viewer: Text,
                            cursor: int, limit: nat)
    requires PushRecord(db, cfg, caller, env, now).1.Took? && limit >= 1
    requires viewer != StorageAccount(db.shares, caller, env)
    requires cursor < PushRecord(db, cfg, caller, env, now).1.ok.seqNo
    ensures var (after, verdict) := PushRecord(db, cfg, caller, env, now);
            env.(seqNo := verdict.ok.seqNo) in Drain(after, viewer, cursor, limit)
            <==> env.groupId.Some? && ShareKey(env.groupId.value, viewer) in db.shares
  {
    var (after, verdict) := PushRecord(db, cfg, caller, env, now);
    var k := KeyFor(StorageAccount(db.shares, caller, env), env);
    var sent := env.(seqNo := verdict.ok.seqNo);
    assert after.records[k] == sent && after.shares == db.shares;
    if VisibleTo(after.shares, viewer, k, sent) {
      DrainHolds(after, viewer, cursor, limit, k);
    }
    if sent in Drain(after, viewer, cursor, limit) {
      DrainIsExact(after, viewer, cursor, limit);
      var log := Log(after, viewer, cursor);
      var i :| 0 <= i < |log| && after.records[log[i]] == sent;
      if log[i] != k { SeqsDiffer(after.records, log[i], k); }
      assert log[i] in log;
    }
  }

  // ---- clocks set ahead -------------------------------------------------------------------------

  /** No push of the run was served after server time `until`. */
  ghost predicate TimesUpTo(acts: seq<Act>, until: int) {
    forall a | a in acts && a.Pushed? :: a.now <= until
  }

  ghost predicate NoRowBeyond(db: Db, until: int) {
    forall k | k in db.records :: db.records[k].updatedAt <= until + MAX_CLOCK_SKEW_MS
  }

  lemma {:induction false} RowsStayPlausible(cfg: Config, db: Db, acts: seq<Act>, until: int)
    requires NoRowBeyond(db, until) && TimesUpTo(acts, until)
    ensures NoRowBeyond(DoAll(cfg, db, acts), until)
  {
    hide Do;
    if acts != [] {
      var rest, last := acts[..|acts| - 1], acts[|acts| - 1];
      assert last in acts && forall a | a in rest :: a in acts;
      RowsStayPlausible(cfg, db, rest, until);
      OneActStaysPlausible(cfg, DoAll(cfg, db, rest), last, until);
    }
  }

  lemma OneActStaysPlausible(cfg: Config, db: Db, act: Act, until: int)
    requires NoRowBeyond(db, until) && (act.Pushed? ==> act.now <= until)
    ensures NoRowBeyond(Do(cfg, db, act), until)
  {}

  /**
   A device whose clock runs ahead cannot win for ever: after any run of pushes up to server
   time `until`, every row gives way to a write dated more than a day beyond it.
   */
  lemma {:induction false} NobodyWinsForEver(cfg: Config, db: Db, acts: seq<Act>, until: int,
                                             account: Text, env: Envelope)
    requires NoRowBeyond(db, until) && TimesUpTo(acts, until)
    requires env.updatedAt > until + 86400000
    ensures PutEnvelope(DoAll(cfg, db, acts), account, env).1.Some?
  {
    RowsStayPlausible(cfg, db, acts, until);
  }
}

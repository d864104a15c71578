/**
 What the plaintext group alone lets through. A record is filed by its key's group and shown by
 its plaintext one; who may write a group is asked of the former only.
 */
module Labels {
  import opened Record
  import opened Sql
  import opened Sync
  import opened Changelog
  import opened Sharing
  import Convergence

  /** The push puts a version labelled with the group before the viewer, next time it drains. */
  ghost predicate Shown(db: Db, cfg: Config, caller: Text, env: Envelope, now: int, group: Text,
                        viewer: Text, cursor: int, limit: nat)
    requires limit >= 1
  {
    var (after, verdict) := PushRecord(db, cfg, caller, env, now);
    && verdict.Took? && env.groupId == Some(group)
    && env.(seqNo := verdict.ok.seqNo) in Drain(after, viewer, cursor, limit)
  }

  /** Whoever may write, a taken push is shown to every member of its plaintext group. */
  lemma TakenIsShown(db: Db, cfg: Config, caller: Text, env: Envelope, now: int, group: Text,
                     viewer: Text, cursor: int, limit: nat)
    requires ShareKey(group, viewer) in db.shares && env.groupId == Some(group) && cursor <= db.next && limit >= 1
    requires PushRecord(db, cfg, caller, env, now).1.Took?
    ensures Shown(db, cfg, caller, env, now, group, viewer, cursor, limit)
  {
    var (after, verdict) := PushRecord(db, cfg, caller, env, now);
    var k := KeyFor(StorageAccount(db.shares, caller, env), env);
    assert after.records[k] == env.(seqNo := verdict.ok.seqNo) && after.shares == db.shares;
    DrainHolds(after, viewer, cursor, limit, k);
  }

  lemma TookIff(db: Db, cfg: Config, caller: Text, env: Envelope, now: int)
    ensures PushRecord(db, cfg, caller, env, now).1.Took?
       <==> Storable(db.shares, cfg, caller, env, now)
            && Wins(db.records, StorageAccount(db.shares, caller, env), env)
  {}

  /**
   An account that may not write a group shows its members a version labelled with it if and only
   if the envelope's plaintext group is that one, its key is the account's personal one or that of
   another group it may write, and it would be stored at all.
   */
  lemma OutsidersAreShownIff(db: Db, cfg: Config, caller: Text, env: Envelope, now: int, group: Text,
                             viewer: Text, cursor: int, limit: nat)
    requires !CanWriteGroup(db.shares, caller, group)
    requires ShareKey(group, viewer) in db.shares && cursor <= db.next && limit >= 1
    ensures Shown(db, cfg, caller, env, now, group, viewer, cursor, limit)
       <==> && env.groupId == Some(group)
            && (env.keyRef.Personal?
                || (env.keyRef.groupId != group && CanWriteGroup(db.shares, caller, env.keyRef.groupId)))
            && Refuse(env, now, cfg).None?
            && Wins(db.records, StorageAccount(db.shares, caller, env), env)
  {
    TookIff(db, cfg, caller, env, now);
    if PushRecord(db, cfg, caller, env, now).1.Took? && env.groupId == Some(group) {
      TakenIsShown(db, cfg, caller, env, now, group, viewer, cursor, limit);
    }
    hide PushRecord, Wins, CanWriteGroup, Refuse;
  }

  /** A device that held row `k` as stored has put `e` in its place. */
  ghost predicate Replaces(k: RecordKey, row: Envelope, e: Envelope) {
    forall replica | Convergence.IdOfKey(k) in replica && SameContent(replica[Convergence.IdOfKey(k)], row) ::
      Convergence.Absorb(replica, e)[Convergence.IdOfKey(k)] == e
  }

  /**
   So for any row of anybody, however the shares were granted: any other account can push, under
   its own personal key, an envelope of that kind and id labelled with any group. The row stays
   as it was, and every member of the group is sent the envelope and prefers it to the row.
   */
  lemma AnybodyReachesMembers(db: Db, cfg: Config, caller: Text, group: Text, k: RecordKey)
    returns (env: Envelope, now: int)
    requires k in db.records && k.account != caller
    ensures env.keyRef.Personal? && Convergence.IdOf(env) == Convergence.IdOfKey(k)
    ensures var (after, verdict) := PushRecord(db, cfg, caller, env, now);
            && verdict.Took? && k in after.records && after.records[k] == db.records[k]
            && Replaces(k, db.records[k], env.(seqNo := verdict.ok.seqNo))
    ensures forall viewer, cursor, limit: nat |
              ShareKey(group, viewer) in db.shares && cursor <= db.next && limit >= 1 ::
              Shown(db, cfg, caller, env, now, group, viewer, cursor, limit)
  {
    var own := RecordKey(caller, k.kind, k.id);
    now := db.records[k].updatedAt + 1;
    if own in db.records && db.records[own].updatedAt >= now { now := db.records[own].updatedAt + 1; }
    env := Envelope(k.id, k.kind, Personal, Some(group), None, 0, now, [], None, [], [], 0);
    TookIff(db, cfg, caller, env, now);
    var sent := env.(seqNo := PushRecord(db, cfg, caller, env, now).1.ok.seqNo);
    forall replica | Convergence.IdOfKey(k) in replica && SameContent(replica[Convergence.IdOfKey(k)], db.records[k])
      ensures Convergence.Absorb(replica, sent)[Convergence.IdOfKey(k)] == sent
    {
      Convergence.SameContentSameClock(replica[Convergence.IdOfKey(k)], db.records[k]);
    }
    forall viewer, cursor, limit: nat | ShareKey(group, viewer) in db.shares && cursor <= db.next && limit >= 1
      ensures Shown(db, cfg, caller, env, now, group, viewer, cursor, limit)
    {
      TakenIsShown(db, cfg, caller, env, now, group, viewer, cursor, limit);
    }
  }

  /** In a run from the empty store, with every share well granted and an outsider who is a member of nothing. */
  lemma AnOutsiderIsShown(cfg: Config) returns (env: Envelope, now: int, k: RecordKey)
    ensures var db := DoAll(cfg, EMPTY, OneShare());
            var (after, verdict) := PushRecord(db, cfg, OUTSIDER, env, now);
            && WellGranted(db.shares, GROUP) && !CanWriteGroup(db.shares, OUTSIDER, GROUP)
            && k in db.records && k in after.records && after.records[k] == db.records[k] && verdict.Took?
            && Shown(db, cfg, OUTSIDER, env, now, GROUP, MEMBER, db.next, 500)
            && Replaces(k, db.records[k], env.(seqNo := verdict.ok.seqNo))
  {
    var db := DoAll(cfg, EMPTY, OneShare());
    OneShareOneRow(cfg);
    k := RecordKey(OWNER, Host, [7]);
    assert OWNER[0] != OUTSIDER[0] && MEMBER[0] != OUTSIDER[0];
    assert SingleOwner(db.shares) && MEMBERSHIP in SharesOf(db.shares, GROUP);
    SingleOwnerGrantsWell(db.shares, GROUP);
    env, now := AnybodyReachesMembers(db, cfg, OUTSIDER, GROUP, k);
    hide *;
    assert ShareKey(GROUP, MEMBER) in db.shares;
  }

  /** And an accepted write under the group's key, labelled with no group, that its member is never sent. */
  lemma AMislabelledWriteMissesAMember(cfg: Config) returns (env: Envelope)
    ensures var db := DoAll(cfg, EMPTY, OneShare());
            var (after, verdict) := PushRecord(db, cfg, OWNER, env, 2);
            && env.keyRef == InGroup(GROUP) && ShareKey(GROUP, MEMBER) in db.shares && verdict.Took?
            && forall limit: nat | limit >= 1 :: env.(seqNo := verdict.ok.seqNo) !in Drain(after, MEMBER, 0, limit)
  {
    env := THEIRS.(groupId := None, updatedAt := 2);
    var db := DoAll(cfg, EMPTY, OneShare());
    OneShareOneRow(cfg);
    hide DoAll;
    assert OWNER[0] != MEMBER[0];
    assert MEMBERSHIP in SharesOf(db.shares, GROUP) && MEMBERSHIP in db.shares;
    assert CanWriteGroup(db.shares, OWNER, GROUP) && StorageAccount(db.shares, OWNER, env) == OWNER;
    TookIff(db, cfg, OWNER, env, 2);
    hide PushRecord;
    forall limit: nat | limit >= 1
      ensures env.(seqNo := PushRecord(db, cfg, OWNER, env, 2).1.ok.seqNo)
              !in Drain(PushRecord(db, cfg, OWNER, env, 2).0, MEMBER, 0, limit)
    {
      MembersAreSentItIff(db, cfg, OWNER, env, 2, MEMBER, 0, limit);
    }
  }
}

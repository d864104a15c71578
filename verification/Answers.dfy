/**
 What a push and a share answer and leave behind, said of the tables before the call: in bytes,
 milliseconds and rows, and over runs in what was handed in.
 */
module Answers {
  import opened Record
  import opened Merge
  import opened Sql
  import opened Sync
  import opened Sharing

  // ---- a push -----------------------------------------------------------------------------

  ghost predicate Unshared(shares: map<ShareKey, ShareRow>, group: Text) {
    forall s | s in shares :: s.group != group
  }

  /** The caller is an owner or a member of the group. */
  ghost predicate NamedIn(shares: map<ShareKey, ShareRow>, group: Text, caller: Text) {
    exists s | s in shares :: s.group == group && (s.user == caller || shares[s].owner == caller)
  }

  ghost predicate MayPush(shares: map<ShareKey, ShareRow>, caller: Text, env: Envelope) {
    env.keyRef.InGroup? ==> Unshared(shares, env.keyRef.groupId) || NamedIn(shares, env.keyRef.groupId, caller)
  }

  /** No other member's id comes before this one's. */
  ghost predicate FirstMember(shares: map<ShareKey, ShareRow>, s: ShareKey) {
    s in shares && forall t | t in shares && t.group == s.group && t.user != s.user :: Precedes(s.user, t.user)
  }

  /** Whose row a push is for: the caller's, or that of the owner who shared with the group's first member. */
  ghost predicate GoesTo(shares: map<ShareKey, ShareRow>, caller: Text, env: Envelope, holder: Text) {
    if env.keyRef.Personal? || Unshared(shares, env.keyRef.groupId) then holder == caller
    else exists s :: FirstMember(shares, s) && s.group == env.keyRef.groupId && shares[s].owner == holder
  }

  ghost predicate Outdates(env: Envelope, stored: Envelope) {
    || stored.updatedAt < env.updatedAt
    || (stored.updatedAt == env.updatedAt && Precedes(stored.deviceId, env.deviceId))
  }

  lemma FirstMemberIsFirst(shares: map<ShareKey, ShareRow>, s: ShareKey)
    ensures FirstMember(shares, s) <==> IsFirstUser(SharesOf(shares, s.group), s)
  {
    forall t | t in shares && t.group == s.group ensures Precedes(s.user, t.user) <==> Below(s.user, t.user) {
      BelowIffPrecedes(s.user, t.user);
    }
    hide Precedes, Below;
    forall t | t in shares && t.group == s.group && t != s ensures t.user != s.user {}
  }

  /** There is exactly one such account, and it is where the record is filed. */
  lemma GoesToIff(shares: map<ShareKey, ShareRow>, caller: Text, env: Envelope, holder: Text)
    ensures GoesTo(shares, caller, env, holder) <==> StorageAccount(shares, caller, env) == holder
  {
    if env.keyRef.InGroup? && !Unshared(shares, env.keyRef.groupId) {
      var group := env.keyRef.groupId;
      var t :| t in shares && t.group == group;
      assert t in SharesOf(shares, group);
      var first := FirstShare(shares, group);
      FirstMemberIsFirst(shares, first);
      forall s | FirstMember(shares, s) && s.group == group ensures s == first {
        FirstMemberIsFirst(shares, s);
        FirstShareIs(shares, group, s);
      }
      assert FirstMember(shares, first);
    }
  }

  lemma MayPushIff(shares: map<ShareKey, ShareRow>, caller: Text, env: Envelope)
    ensures MayPush(shares, caller, env) <==> MayWrite(shares, caller, env)
  {
    if env.keyRef.InGroup? {
      var group := env.keyRef.groupId;
      assert Unshared(shares, group) <==> SharesOf(shares, group) == {} by {
        assert forall s | s in shares && s.group == group :: s in SharesOf(shares, group);
      }
    }
  }

  lemma WinsIff(db: Db, holder: Text, env: Envelope)
    ensures var k := RecordKey(holder, env.kind, env.id);
            Wins(db.records, holder, env) <==> (k in db.records ==> Outdates(env, db.records[k]))
  {
    var k := RecordKey(holder, env.kind, env.id);
    if k in db.records { BelowIffPrecedes(db.records[k].deviceId, env.deviceId); }
  }

  function Refusing(env: Envelope, reason: RejectReason): Verdict {
    Refused(Rejected(env.id, AsStr(env.kind), reason))
  }

  /**
   The answer to a push, and all it does to the tables: refused for a clock more than a day ahead,
   then for more bytes than the cap, then for a group the caller is not in, none of which leaves a
   trace; then for a row no older, which takes a number; and otherwise stored whole under the next.
   */
  lemma PushAnswers(db: Db, cfg: Config, caller: Text, env: Envelope, now: int, holder: Text)
    requires GoesTo(db.shares, caller, env, holder)
    ensures var (after, verdict) := PushRecord(db, cfg, caller, env, now);
            var k := RecordKey(holder, env.kind, env.id);
            if env.updatedAt > now + 86400000 then after == db && verdict == Refusing(env, ImplausibleClock)
            else if |env.ciphertext| > cfg.maxRecordBytes then after == db && verdict == Refusing(env, TooLarge)
            else if !MayPush(db.shares, caller, env) then after == db && verdict == Refusing(env, NotAMember)
            else if k in db.records && !Outdates(env, db.records[k]) then
              after == db.(next := db.next + 1) && verdict == Refusing(env, Stale)
            else
              && after.next == db.next + 1 && after.shares == db.shares
              && after.records == db.records[k := env.(seqNo := db.next + 1)]
              && verdict == Took(Accepted(env.id, AsStr(env.kind), db.next + 1))
  {
    GoesToIff(db.shares, caller, env, holder);
    MayPushIff(db.shares, caller, env);
    WinsIff(db, holder, env);
    hide MayPush, MayWrite, StorageAccount, Outdates, Supersedes;
  }

  /** A push is taken if and only if its clock, its size, its group and the row it is for allow it. */
  lemma PushIsTakenIff(db: Db, cfg: Config, caller: Text, env: Envelope, now: int, holder: Text)
    requires GoesTo(db.shares, caller, env, holder)
    ensures PushRecord(db, cfg, caller, env, now).1.Took?
       <==> && env.updatedAt <= now + 86400000
            && |env.ciphertext| <= cfg.maxRecordBytes
            && (env.keyRef.InGroup? ==>
                  Unshared(db.shares, env.keyRef.groupId) || NamedIn(db.shares, env.keyRef.groupId, caller))
            && (RecordKey(holder, env.kind, env.id) in db.records ==>
                  Outdates(env, db.records[RecordKey(holder, env.kind, env.id)]))
  {
    PushAnswers(db, cfg, caller, env, now, holder);
    hide PushRecord, Outdates, Unshared, NamedIn;
  }

  ghost predicate NoneOverTheCap(db: Db, cfg: Config) {
    forall k | k in db.records :: |db.records[k].ciphertext| <= cfg.maxRecordBytes
  }

  /** No run of handler steps stores a row over the cap. */
  lemma {:induction false} RowsKeepToTheCap(cfg: Config, acts: seq<Act>)
    ensures NoneOverTheCap(DoAll(cfg, EMPTY, acts), cfg)
  {
    if acts != [] {
      var rest, last := acts[..|acts| - 1], acts[|acts| - 1];
      var before := DoAll(cfg, EMPTY, rest);
      RowsKeepToTheCap(cfg, rest);
      if last.Pushed? {
        var holder := StorageAccount(before.shares, last.caller, last.env);
        GoesToIff(before.shares, last.caller, last.env, holder);
        PushAnswers(before, cfg, last.caller, last.env, last.now, holder);
        hide PushRecord, GoesTo, MayPush, Outdates, StorageAccount;
      }
    }
  }

  // ---- the shares -----------------------------------------------------------------------------

  /** The owner who first shared with the member since it was last none, and the key handed in last. */
  function Given(acts: seq<Act>, group: Text, user: Text): Option<ShareRow> {
    if acts == [] then None else
      var earlier := Given(acts[..|acts| - 1], group, user);
      match acts[|acts| - 1]
      case Pushed(_, _, _) => earlier
      case Shared(owner, g, u, wrapped) =>
        if g != group || u != user then earlier
        else Some(ShareRow(if earlier.Some? then earlier.value.owner else owner, wrapped))
      case Revoked(owner, g, u) =>
        if g == group && u == user && earlier.Some? && earlier.value.owner == owner then None else earlier
  }

  /** After any run the table has a row for exactly those given a share, with that owner and that key. */
  lemma {:induction false} SharesHoldWhatWasGiven(cfg: Config, acts: seq<Act>, group: Text, user: Text)
    ensures var shares := DoAll(cfg, EMPTY, acts).shares;
            var s := ShareKey(group, user);
            Given(acts, group, user) == if s in shares then Some(shares[s]) else None
  {
    if acts != [] {
      var rest, last := acts[..|acts| - 1], acts[|acts| - 1];
      SharesHoldWhatWasGiven(cfg, rest, group, user);
      if last.Pushed? { PushLeavesShares(DoAll(cfg, EMPTY, rest), cfg, last.caller, last.env, last.now); }
    }
  }
}

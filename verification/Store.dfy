/** The SQLite store: the object whose methods run the statements on its tables in place. */
module Store {
  import opened Record
  import opened Merge
  import opened Sql

  class SqliteStore {
    /** The one row of `sequence`, and the tables `records` and `shares`. */
    var next: nat
    var records: map<RecordKey, Envelope>
    var shares: map<ShareKey, ShareRow>

    ghost predicate Valid()
      reads this
    {
      WellFormed(Tables(next, records, shares))
    }

    ghost function Contents(): Db
      reads this
      requires Valid()
    {
      Tables(next, records, shares)
    }

    /** `migrate`: empty tables and the counter row at zero. */
    constructor ()
      ensures Valid() && Contents() == EMPTY
    {
      next, records, shares := 0, map[], map[];
    }

    /** One transaction: take a number, then the upsert, whose WHERE decides who wins. */
    method PutEnvelope(account: Text, env: Envelope) returns (taken: Option<nat>)
      requires Valid()
      modifies this`next, this`records
      ensures Valid() && (Contents(), taken) == Sql.PutEnvelope(old(Contents()), account, env)
      ensures var k := RecordKey(account, env.kind, env.id);
              && next == old(next) + 1
              && (taken == None || taken == Some(next))
              && records == (if taken.Some? then old(records)[k := env.(seqNo := next)] else old(records))
              && (taken.Some? <==>
                    || k !in old(records)
                    || old(records)[k].updatedAt < env.updatedAt
                    || (old(records)[k].updatedAt == env.updatedAt && Precedes(old(records)[k].deviceId, env.deviceId)))
    {
      if KeyFor(account, env) in records { BelowIffPrecedes(records[KeyFor(account, env)].deviceId, env.deviceId); }
      hide Precedes, Below;
      next := next + 1;
      var k := KeyFor(account, env);
      if k !in records || Supersedes(env, records[k]) {
        FreshNumberKeepsThemDistinct(old(Contents()), k, env.(seqNo := next));
        records := records[k := env.(seqNo := next)];
        taken := Some(next);
      } else {
        taken := None;
      }
    }

    method Pull(viewer: Text, cursor: int, limit: nat) returns (rows: seq<Envelope>)
      requires Valid()
      ensures rows == Select(Contents(), viewer, cursor, limit)
    {
      var found := set k | k in records && records[k].seqNo > cursor && VisibleTo(shares, viewer, k, records[k]);
      rows := Rows(records, First(BySeq(records, found), limit));
    }

    method MaxSeq(account: Text) returns (n: nat)
      requires Valid()
      ensures n == Contents().next
      ensures forall k | k in records :: records[k].seqNo <= n
    {
      n := next;
    }

    method PutShare(owner: Text, group: Text, user: Text, wrapped: Text)
      requires Valid()
      modifies this`shares
      ensures Valid() && Contents() == Sql.PutShare(old(Contents()), owner, group, user, wrapped)
      ensures var s := ShareKey(group, user);
              shares == old(shares)[s := ShareRow(if s in old(shares) then old(shares)[s].owner else owner, wrapped)]
    {
      var s := ShareKey(group, user);
      if s in shares {
        shares := shares[s := shares[s].(wrapped := wrapped)];
      } else {
        shares := shares[s := ShareRow(owner, wrapped)];
      }
    }

    method DeleteShare(owner: Text, group: Text, user: Text)
      requires Valid()
      modifies this`shares
      ensures Valid() && Contents() == Sql.DeleteShare(old(Contents()), owner, group, user)
      ensures var s := ShareKey(group, user);
              shares == if s in old(shares) && old(shares)[s].owner == owner then old(shares) - {s} else old(shares)
    {
      shares := map s | s in shares && !(s.group == group && s.user == user && shares[s].owner == owner) :: shares[s];
      assert shares == Sql.DeleteShare(old(Contents()), owner, group, user).shares;
    }

    method ShareOwner(group: Text) returns (owner: Option<Text>)
      ensures owner == Sql.ShareOwner(shares, group)
      ensures owner.Some? <==> exists s | s in shares :: s.group == group
      ensures owner.Some? ==> exists s | s in shares :: s.group == group && shares[s].owner == owner.value
    {
      owner := Sql.ShareOwner(shares, group);
      assert forall s | s in shares && s.group == group :: s in SharesOf(shares, group);
      if owner.Some? { assert FirstShare(shares, group) in shares; }
    }

    method CanWriteGroup(account: Text, group: Text) returns (ok: bool)
      ensures ok == Sql.CanWriteGroup(shares, account, group)
      ensures ok <==> || (forall s | s in shares :: s.group != group)
                      || (exists s | s in shares ::
                            s.group == group && (shares[s].owner == account || s.user == account))
    {
      var unshared := forall s | s in shares :: s.group != group;
      ok := unshared || exists s | s in shares :: s.group == group && (shares[s].owner == account || s.user == account);
      assert unshared <==> SharesOf(shares, group) == {} by {
        assert forall s | s in shares && s.group == group :: s in SharesOf(shares, group);
      }
    }
  }
}

/**
 The `records`, `sequence` and `shares` tables and the SQL statements over them, as
 functions from tables to tables. `Store` holds the object that runs them in place.
 */
module Sql {
  import opened Record
  import opened Merge

  datatype RecordKey = RecordKey(account: Text, kind: RecordKind, id: Text)
  datatype ShareKey = ShareKey(group: Text, user: Text)
  datatype ShareRow = ShareRow(owner: Text, wrapped: Text)

  /** One row per key; the `seq` column is the envelope's own field. */
  datatype Tables = Tables(
    next: nat,
    records: map<RecordKey, Envelope>,
    shares: map<ShareKey, ShareRow>)

  predicate Stored(records: map<RecordKey, Envelope>, k: RecordKey) { k in records }

  /** No two rows share a number. (Triggered by `Stored` alone, so that it is used where meant.) */
  ghost predicate DistinctSeqs(records: map<RecordKey, Envelope>) {
    forall i, j {:trigger Stored(records, i), Stored(records, j)} ::
      Stored(records, i) && Stored(records, j) && i != j ==> records[i].seqNo != records[j].seqNo
  }

  lemma SeqsDiffer(records: map<RecordKey, Envelope>, i: RecordKey, j: RecordKey)
    requires DistinctSeqs(records) && i in records && j in records && i != j
    ensures records[i].seqNo != records[j].seqNo
  {
    assert Stored(records, i) && Stored(records, j);
  }

  /** Every row was filed under its own kind and id, with a number of its own already taken. */
  ghost predicate WellFormed(t: Tables) {
    && DistinctSeqs(t.records)
    && (forall k | k in t.records ::
          && 1 <= t.records[k].seqNo <= t.next
          && t.records[k].kind == k.kind
          && t.records[k].id == k.id)
  }

  lemma FreshNumberKeepsThemDistinct(t: Tables, k: RecordKey, env: Envelope)
    requires WellFormed(t) && env.seqNo == t.next + 1
    ensures DistinctSeqs(t.records[k := env])
  {
    var after := t.records[k := env];
    forall i, j | Stored(after, i) && Stored(after, j) && i != j ensures after[i].seqNo != after[j].seqNo {
      if i != k && j != k { SeqsDiffer(t.records, i, j); }
    }
  }

  type Db = t: Tables | WellFormed(t) ghost witness Tables(0, map[], map[])

  const EMPTY: Db := Tables(0, map[], map[])

  // ---- records ----------------------------------------------------------------------

  function KeyFor(account: Text, env: Envelope): RecordKey { RecordKey(account, env.kind, env.id) }

  /** The condition on replacing a row, over the excluded (incoming) and the stored row. */
  predicate Supersedes(excluded: Envelope, stored: Envelope) {
    || excluded.updatedAt > stored.updatedAt
    || (excluded.updatedAt == stored.updatedAt && Below(stored.deviceId, excluded.deviceId))
  }

  predicate Wins(records: map<RecordKey, Envelope>, account: Text, env: Envelope) {
    var k := KeyFor(account, env);
    k !in records || Supersedes(env, records[k])
  }

  /** Takes the next number whether or not the write wins, and stores the row if it does. */
  function PutEnvelope(db: Db, account: Text, env: Envelope): (r: (Db, Option<nat>))
  {
    var number := db.next + 1;
    if Wins(db.records, account, env) then
      FreshNumberKeepsThemDistinct(db, KeyFor(account, env), env.(seqNo := number));
      (db.(next := number,
           records := db.records[KeyFor(account, env) := env.(seqNo := number)]), Some(number))
    else
      (db.(next := number), None)
  }

  /** The store and every client agree on who wins. */
  lemma StoreAndClientsAgree(stored: Envelope, incoming: Envelope)
    ensures Supersedes(incoming, stored) <==> Resolve(ClockOf(stored), ClockOf(incoming)) == TakeRemote
  {}

  predicate VisibleTo(shares: map<ShareKey, ShareRow>, viewer: Text, k: RecordKey, env: Envelope) {
    k.account == viewer || (env.groupId.Some? && ShareKey(env.groupId.value, viewer) in shares)
  }

  function VisibleAbove(db: Db, viewer: Text, cursor: int): set<RecordKey> {
    set k | k in db.records && db.records[k].seqNo > cursor && VisibleTo(db.shares, viewer, k, db.records[k])
  }

  predicate IsLeast(records: map<RecordKey, Envelope>, ks: set<RecordKey>, k: RecordKey)
    requires ks <= records.Keys
  {
    k in ks && forall j | j in ks && j != k :: records[k].seqNo < records[j].seqNo
  }

  lemma {:induction false} LeastExists(records: map<RecordKey, Envelope>, ks: set<RecordKey>)
    requires ks != {} && ks <= records.Keys && DistinctSeqs(records)
    ensures exists k :: IsLeast(records, ks, k)
  {
    var k :| k in ks;
    if ks == {k} {
      assert IsLeast(records, ks, k);
    } else {
      var rest := ks - {k};
      LeastExists(records, rest);
      var m :| IsLeast(records, rest, m);
      SeqsDiffer(records, k, m);
      assert IsLeast(records, ks, if records[k].seqNo < records[m].seqNo then k else m);
    }
  }

  ghost predicate Ascending(records: map<RecordKey, Envelope>, ks: seq<RecordKey>) {
    && (forall k | k in ks :: k in records)
    && (forall i, j | 0 <= i < j < |ks| :: records[ks[i]].seqNo < records[ks[j]].seqNo)
  }

  /** ORDER BY seq. */
  function BySeq(records: map<RecordKey, Envelope>, ks: set<RecordKey>): (r: seq<RecordKey>)
    requires ks <= records.Keys && DistinctSeqs(records)
    ensures forall k :: k in r <==> k in ks
  {
    if ks == {} then [] else
      LeastExists(records, ks);
      var k :| k in ks && IsLeast(records, ks, k);
      [k] + BySeq(records, ks - {k})
  }

  lemma LeastGoesFirst(records: map<RecordKey, Envelope>, k: RecordKey, later: seq<RecordKey>)
    requires k in records && Ascending(records, later)
    requires forall j | j in later :: records[k].seqNo < records[j].seqNo
    ensures Ascending(records, [k] + later)
  {}

  lemma {:induction false} BySeqAscends(records: map<RecordKey, Envelope>, ks: set<RecordKey>)
    requires ks <= records.Keys && DistinctSeqs(records)
    ensures |BySeq(records, ks)| == |ks| && Ascending(records, BySeq(records, ks))
  {
    if ks != {} {
      LeastExists(records, ks);
      var k :| k in ks && IsLeast(records, ks, k);
      var later := BySeq(records, ks - {k});
      BySeqAscends(records, ks - {k});
      LeastGoesFirst(records, k, later);
      assert BySeq(records, ks) == [k] + later;
    }
  }

  /** The whole change log this viewer would still be sent after `cursor`, oldest first. */
  function Log(db: Db, viewer: Text, cursor: int): (r: seq<RecordKey>)
    ensures forall k :: k in r <==> k in VisibleAbove(db, viewer, cursor)
    ensures forall i | 0 <= i < |r| :: r[i] in db.records
  {
    BySeq(db.records, VisibleAbove(db, viewer, cursor))
  }

  function Rows(records: map<RecordKey, Envelope>, ks: seq<RecordKey>): (r: seq<Envelope>)
    requires forall k | k in ks :: k in records
  {
    seq(|ks|, i requires 0 <= i < |ks| => records[ks[i]])
  }

  function First<T>(s: seq<T>, n: nat): (r: seq<T>)
    ensures forall x | x in r :: x in s
  {
    if |s| <= n then s else s[..n]
  }

  /** The oldest rows, up to `limit`, that the viewer may see above its cursor. */
  function Select(db: Db, viewer: Text, cursor: int, limit: nat): seq<Envelope> {
    Rows(db.records, First(Log(db, viewer, cursor), limit))
  }

  // ---- shares -----------------------------------------------------------------------

  function SharesOf(shares: map<ShareKey, ShareRow>, group: Text): set<ShareKey> {
    set s | s in shares && s.group == group
  }

  predicate IsFirstUser(ss: set<ShareKey>, s: ShareKey) {
    s in ss && forall o | o in ss && o != s :: Below(s.user, o.user)
  }

  lemma {:induction false} FirstUserExists(ss: set<ShareKey>, group: Text)
    requires ss != {} && forall s | s in ss :: s.group == group
    ensures exists s :: IsFirstUser(ss, s)
  {
    var s :| s in ss;
    if ss == {s} {
      assert IsFirstUser(ss, s);
    } else {
      var rest := ss - {s};
      FirstUserExists(rest, group);
      var m :| IsFirstUser(rest, m);
      forall o | o in rest { BelowIsAStrictTotalOrder(s.user, m.user, o.user); }
      assert s.group == m.group && s.user != m.user;
      assert IsFirstUser(ss, if Below(s.user, m.user) then s else m);
    }
  }

  lemma FirstUserIsUnique(ss: set<ShareKey>)
    ensures forall s, t :: IsFirstUser(ss, s) && IsFirstUser(ss, t) ==> s == t
  {
    forall s, t | IsFirstUser(ss, s) && IsFirstUser(ss, t) ensures s == t {
      BelowIsAStrictTotalOrder(s.user, t.user, s.user);
    }
  }

  /** The row `LIMIT 1` returns: the first one the (group_id, user_id) key index visits. */
  function FirstShare(shares: map<ShareKey, ShareRow>, group: Text): (r: ShareKey)
    requires SharesOf(shares, group) != {}
    ensures r in shares && r.group == group
  {
    var ss := SharesOf(shares, group);
    FirstUserExists(ss, group);
    FirstUserIsUnique(ss);
    var s :| s in ss && IsFirstUser(ss, s);
    s
  }

  function ShareOwner(shares: map<ShareKey, ShareRow>, group: Text): Option<Text> {
    if SharesOf(shares, group) == {} then None else Some(shares[FirstShare(shares, group)].owner)
  }

  predicate CanWriteGroup(shares: map<ShareKey, ShareRow>, account: Text, group: Text) {
    || SharesOf(shares, group) == {}
    || exists s | s in shares :: s.group == group && (shares[s].owner == account || s.user == account)
  }

  /** On conflict only the wrapped key is replaced: the row keeps its first owner. */
  function PutShare(db: Db, owner: Text, group: Text, user: Text, wrapped: Text): Db {
    var s := ShareKey(group, user);
    db.(shares := db.shares[s := if s in db.shares then db.shares[s].(wrapped := wrapped)
                                 else ShareRow(owner, wrapped)])
  }

  function DeleteShare(db: Db, owner: Text, group: Text, user: Text): Db {
    var s := ShareKey(group, user);
    if s in db.shares && db.shares[s].owner == owner then db.(shares := db.shares - {s}) else db
  }
}

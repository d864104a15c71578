/** The order in which writes arrive does not matter: the greatest clock wins each row. */
module Ordering {
  import opened Record
  import opened Merge
  import opened Sql
  import opened Changelog

  /** `e` is one of the versions of `k`: stored at the start, or written since. */
  ghost predicate Version(db: Db, ops: seq<Op>, k: RecordKey, e: Envelope) {
    || (k in db.records && db.records[k] == e)
    || (exists op | op in ops :: op.Write? && KeyFor(op.account, op.env) == k && op.env == e)
  }

  /** Two versions of one record with the same clock are the same version. */
  ghost predicate ClocksIdentify(db: Db, ops: seq<Op>) {
    forall k, e, f | Version(db, ops, k, e) && Version(db, ops, k, f) && ClockOf(e) == ClockOf(f) ::
      SameContent(e, f)
  }

  lemma NotYounger(a: Envelope, b: Envelope, c: Envelope)
    ensures !Loses(a, a)
    ensures !Loses(a, b) && !Loses(b, c) ==> !Loses(a, c)
    ensures Loses(a, b) ==> !Loses(b, a)
    ensures !Loses(a, b) && !Loses(b, a) ==> ClockOf(a) == ClockOf(b)
  {
    ResolveIsAStrictTotalOrder(ClockOf(a), ClockOf(b), ClockOf(c));
    ResolveIsAStrictTotalOrder(ClockOf(b), ClockOf(a), ClockOf(c));
  }

  /** One statement leaves no row older than it was, nor older than what was written to it. */
  lemma OneStepGoesForward(db: Db, op: Op, k: RecordKey)
    ensures k in db.records ==> k in Apply(db, op).records && !Loses(Apply(db, op).records[k], db.records[k])
    ensures op.Write? && KeyFor(op.account, op.env) == k ==>
              k in Apply(db, op).records && !Loses(Apply(db, op).records[k], op.env)
  {
    if k in db.records { NotYounger(db.records[k], Apply(db, op).records[k], db.records[k]); }
    if op.Write? { NotYounger(op.env, op.env, op.env); }
  }

  /** The stored row is the version with the greatest clock, and is there if any version is. */
  lemma {:induction false} GreatestClockWins(db: Db, ops: seq<Op>, k: RecordKey, e: Envelope)
    requires Version(db, ops, k, e)
    ensures var after := ApplyAll(db, ops).records;
            k in after && !Loses(after[k], e)
  {
    hide Apply, Loses;
    if ops == [] {
      NotYounger(e, e, e);
    } else {
      var rest, last := ops[..|ops| - 1], ops[|ops| - 1];
      var before := ApplyAll(db, rest).records;
      OneStepGoesForward(ApplyAll(db, rest), last, k);
      if Version(db, rest, k, e) {
        GreatestClockWins(db, rest, k, e);
        NotYounger(ApplyAll(db, ops).records[k], before[k], e);
      } else {
        assert last.Write? && KeyFor(last.account, last.env) == k && last.env == e;
      }
    }
  }

  lemma {:induction false} RowsAreVersions(db: Db, ops: seq<Op>, k: RecordKey) returns (e: Envelope)
    requires k in ApplyAll(db, ops).records
    ensures Version(db, ops, k, e) && SameContent(e, ApplyAll(db, ops).records[k])
  {
    if ops == [] {
      e := db.records[k];
    } else {
      var rest, last := ops[..|ops| - 1], ops[|ops| - 1];
      var before := ApplyAll(db, rest).records;
      assert last in ops;
      if k in before && ApplyAll(db, ops).records[k] == before[k] {
        e := RowsAreVersions(db, rest, k);
        assert forall op | op in rest :: op in ops;
      } else {
        e := last.env;
      }
    }
  }

  ghost predicate SameRows(a: map<RecordKey, Envelope>, b: map<RecordKey, Envelope>) {
    a.Keys == b.Keys && forall k | k in a :: SameContent(a[k], b[k])
  }

  /**
   Any two orders of the same writes, repeats included, leave the same rows apart from their
   numbers. (Share changes may stand anywhere among them.)
   */
  lemma {:induction false} OrderDoesNotMatter(db: Db, ops: seq<Op>, others: seq<Op>)
    requires forall op: Op | op.Write? :: op in ops <==> op in others
    requires ClocksIdentify(db, ops)
    ensures SameRows(ApplyAll(db, ops).records, ApplyAll(db, others).records)
  {
    SameRowsOneWay(db, ops, others);
    SameRowsOneWay(db, others, ops);
  }

  lemma SameRowsOneWay(db: Db, ops: seq<Op>, others: seq<Op>)
    requires forall op: Op | op.Write? :: op in ops <==> op in others
    requires ClocksIdentify(db, ops) || ClocksIdentify(db, others)
    ensures forall k | k in ApplyAll(db, ops).records ::
              && k in ApplyAll(db, others).records
              && SameContent(ApplyAll(db, ops).records[k], ApplyAll(db, others).records[k])
  {
    forall k | k in ApplyAll(db, ops).records
      ensures k in ApplyAll(db, others).records
      ensures SameContent(ApplyAll(db, ops).records[k], ApplyAll(db, others).records[k])
    {
      var e := RowsAreVersions(db, ops, k);
      assert Version(db, others, k, e);
      GreatestClockWins(db, others, k, e);
      var f := RowsAreVersions(db, others, k);
      assert Version(db, ops, k, f);
      GreatestClockWins(db, ops, k, f);
      NotYounger(e, f, e);
    }
  }
}

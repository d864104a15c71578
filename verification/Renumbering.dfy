/**
 Numbers in the change log matter only by their order. Two consequences, by one simulation:
 numbers burnt by losing writes cost nothing, and writes a viewer never sees do not touch
 what it is sent.
 */
module Renumbering {
  import opened Record
  import opened Sql
  import opened Sync
  import opened Changelog
  import opened Viewing

  /** Which numbers of one run stand for which of the other. */
  type Renumbering = set<(int, int)>

  predicate Linked(p: Renumbering, a: int, b: int) { (a, b) in p }

  ghost predicate OrderPreserving(p: Renumbering) {
    forall a, b, c, d {:trigger Linked(p, a, b), Linked(p, c, d)} ::
      Linked(p, a, b) && Linked(p, c, d) ==> (a < c <==> b < d)
  }

  lemma LinkedOrder(p: Renumbering, a: int, b: int, c: int, d: int)
    requires OrderPreserving(p) && Linked(p, a, b) && Linked(p, c, d)
    ensures (a < c <==> b < d) && (a == c <==> b == d)
  {}

  /** Everything one viewer, and those who write meanwhile, are told in a run. */
  datatype Transcript = Transcript(db: Db, cursor: int, pages: seq<Page>, verdicts: seq<bool>)

  /** A store that takes a number only when the write wins. */
  function CommitDense(db: Db, op: Op): Db {
    if op.Write? && !Wins(db.records, op.account, op.env) then db else Apply(db, op)
  }

  function Next(viewer: Text, dense: bool, t: Transcript, event: Event): Transcript {
    match event
    case Commit(op) =>
      var after := t.(db := if dense then CommitDense(t.db, op) else Apply(t.db, op));
      if op.Write? then after.(verdicts := t.verdicts + [Wins(t.db.records, op.account, op.env)]) else after
    case Pull(limit) =>
      var page := PageOf(t.db, viewer, t.cursor, limit);
      t.(cursor := page.cursor, pages := t.pages + [page])
    case Restart => t.(cursor := 0)
  }

  function Transcribe(viewer: Text, dense: bool, db: Db, events: seq<Event>): Transcript {
    if events == [] then Transcript(db, 0, [], [])
    else Next(viewer, dense, Transcribe(viewer, dense, db, events[..|events| - 1]), events[|events| - 1])
  }

  ghost predicate RowAlike(p: Renumbering, a: Envelope, b: Envelope) {
    SameContent(a, b) && Linked(p, a.seqNo, b.seqNo)
  }

  ghost predicate PageAlike(p: Renumbering, a: Page, b: Page) {
    && |a.envelopes| == |b.envelopes|
    && (forall i | 0 <= i < |a.envelopes| :: RowAlike(p, a.envelopes[i], b.envelopes[i]))
    && Linked(p, a.cursor, b.cursor)
    && a.more == b.more
  }

  ghost predicate PagesAlike(p: Renumbering, a: seq<Page>, b: seq<Page>) {
    |a| == |b| && forall i | 0 <= i < |a| :: PageAlike(p, a[i], b[i])
  }

  /** The rows with keys in `ks`, and the cursors, correspond. */
  ghost predicate DbAlike(p: Renumbering, ks: iset<RecordKey>, a: Db, b: Db) {
    && a.shares == b.shares
    && OrderPreserving(p)
    && Linked(p, 0, 0)
    && (forall m, n | Linked(p, m, n) :: m <= a.next && n <= b.next)
    && (forall k | k in ks ::
          && (k in a.records <==> k in b.records)
          && (k in a.records ==> RowAlike(p, a.records[k], b.records[k])))
  }

  ghost predicate SeesOnly(ks: iset<RecordKey>, viewer: Text, db: Db) {
    forall k | k in db.records && VisibleTo(db.shares, viewer, k, db.records[k]) :: k in ks
  }

  lemma SameVisible(p: Renumbering, ks: iset<RecordKey>, viewer: Text, a: Db, b: Db, ca: int, cb: int)
    requires DbAlike(p, ks, a, b) && Linked(p, ca, cb)
    requires SeesOnly(ks, viewer, a) && SeesOnly(ks, viewer, b)
    ensures VisibleAbove(a, viewer, ca) == VisibleAbove(b, viewer, cb)
  {
    forall k | k in ks && k in a.records
      ensures k in VisibleAbove(a, viewer, ca) <==> k in VisibleAbove(b, viewer, cb)
    {
      LinkedOrder(p, ca, cb, a.records[k].seqNo, b.records[k].seqNo);
      assert a.records[k].Content().groupId == b.records[k].Content().groupId;
    }
  }

  lemma SameOrder(p: Renumbering, ks: iset<RecordKey>, a: Db, b: Db, log: seq<RecordKey>)
    requires DbAlike(p, ks, a, b) && Ascending(a.records, log) && forall i | 0 <= i < |log| :: log[i] in ks
    ensures Ascending(b.records, log)
  {
    forall i, j | 0 <= i < j < |log|
      ensures log[i] in b.records && log[j] in b.records && b.records[log[i]].seqNo < b.records[log[j]].seqNo
    {
      LinkedOrder(p, a.records[log[i]].seqNo, b.records[log[i]].seqNo,
                  a.records[log[j]].seqNo, b.records[log[j]].seqNo);
    }
  }

  lemma LogsAlike(p: Renumbering, ks: iset<RecordKey>, viewer: Text, a: Db, b: Db, ca: int, cb: int)
    requires DbAlike(p, ks, a, b) && Linked(p, ca, cb)
    requires SeesOnly(ks, viewer, a) && SeesOnly(ks, viewer, b)
    ensures Log(a, viewer, ca) == Log(b, viewer, cb)
    ensures forall i | 0 <= i < |Log(a, viewer, ca)| :: Log(a, viewer, ca)[i] in ks
  {
    var log := Log(a, viewer, ca);
    LogAscends(a, viewer, ca);
    LogAscends(b, viewer, cb);
    SameVisible(p, ks, viewer, a, b, ca, cb);
    forall i | 0 <= i < |log| ensures log[i] in ks { assert log[i] in VisibleAbove(a, viewer, ca); }
    SameOrder(p, ks, a, b, log);
    AscendingIsUnique(b.records, log, Log(b, viewer, cb));
  }

  lemma PageOfAlike(p: Renumbering, ks: iset<RecordKey>, viewer: Text, a: Db, b: Db, ca: int, cb: int, limit: nat)
    requires DbAlike(p, ks, a, b) && Linked(p, ca, cb)
    requires SeesOnly(ks, viewer, a) && SeesOnly(ks, viewer, b)
    ensures PageAlike(p, PageOf(a, viewer, ca, limit), PageOf(b, viewer, cb, limit))
  {
    LogsAlike(p, ks, viewer, a, b, ca, cb);
    var sent := First(Log(a, viewer, ca), limit);
    hide Log, SeesOnly;
    forall i | 0 <= i < |sent| ensures RowAlike(p, a.records[sent[i]], b.records[sent[i]]) {
      assert sent[i] == Log(a, viewer, ca)[i];
    }
  }

  lemma WinsAlike(p: Renumbering, ks: iset<RecordKey>, a: Db, b: Db, account: Text, env: Envelope)
    requires DbAlike(p, ks, a, b) && KeyFor(account, env) in ks
    ensures Wins(a.records, account, env) == Wins(b.records, account, env)
  {
    var k := KeyFor(account, env);
    if k in a.records {
      assert a.records[k].Content().updatedAt == b.records[k].Content().updatedAt
          && a.records[k].Content().deviceId == b.records[k].Content().deviceId;
    }
  }

  /** The numbers a won write takes on each side are linked, after all that went before. */
  function Extend(p: Renumbering, a: Db, b: Db): Renumbering { p + {(a.next + 1, b.next + 1)} }

  lemma ExtendedOrder(p: Renumbering, ks: iset<RecordKey>, a: Db, b: Db)
    requires DbAlike(p, ks, a, b)
    ensures OrderPreserving(Extend(p, a, b))
  {
    var q := Extend(p, a, b);
    forall m, n, o, r | Linked(q, m, n) && Linked(q, o, r) ensures m < o <==> n < r {
      assert Linked(p, m, n) || (m, n) == (a.next + 1, b.next + 1);
      assert Linked(p, o, r) || (o, r) == (a.next + 1, b.next + 1);
    }
  }

  lemma WonWriteAlike(p: Renumbering, ks: iset<RecordKey>, a: Db, b: Db, account: Text, env: Envelope)
    requires DbAlike(p, ks, a, b) && KeyFor(account, env) in ks
    requires Wins(a.records, account, env) && Wins(b.records, account, env)
    ensures DbAlike(Extend(p, a, b), ks, PutEnvelope(a, account, env).0, PutEnvelope(b, account, env).0)
  {
    var q := Extend(p, a, b);
    var a', b' := PutEnvelope(a, account, env).0, PutEnvelope(b, account, env).0;
    ExtendedOrder(p, ks, a, b);
    assert Linked(p, 0, 0) && Linked(q, 0, 0);
    assert Linked(q, a.next + 1, b.next + 1);
    forall m, n | Linked(q, m, n) ensures m <= a'.next && n <= b'.next {
      assert Linked(p, m, n) || (m, n) == (a.next + 1, b.next + 1);
    }
    forall k | k in ks
      ensures k in a'.records <==> k in b'.records
      ensures k in a'.records ==> RowAlike(q, a'.records[k], b'.records[k])
    {
      if k != KeyFor(account, env) && k in a.records {
        assert Linked(p, a.records[k].seqNo, b.records[k].seqNo);
      }
    }
  }

  lemma PagesStayAlike(p: Renumbering, q: Renumbering, a: seq<Page>, b: seq<Page>)
    requires PagesAlike(p, a, b) && p <= q
    ensures PagesAlike(q, a, b)
  {
    forall i | 0 <= i < |a| ensures PageAlike(q, a[i], b[i]) {
      assert PageAlike(p, a[i], b[i]);
      forall j | 0 <= j < |a[i].envelopes| ensures RowAlike(q, a[i].envelopes[j], b[i].envelopes[j]) {
        assert RowAlike(p, a[i].envelopes[j], b[i].envelopes[j]);
      }
    }
  }

  function Identity(db: Db): Renumbering { set n | 0 <= n <= db.next :: (n, n) }

  lemma IdentityAlike(db: Db, ks: iset<RecordKey>)
    ensures DbAlike(Identity(db), ks, db, db)
  {
    forall k | k in db.records ensures RowAlike(Identity(db), db.records[k], db.records[k]) {}
  }

  ghost predicate Alike(p: Renumbering, ks: iset<RecordKey>, a: Transcript, b: Transcript) {
    DbAlike(p, ks, a.db, b.db) && Linked(p, a.cursor, b.cursor) && PagesAlike(p, a.pages, b.pages)
  }

  lemma PullStaysAlike(p: Renumbering, ks: iset<RecordKey>, viewer: Text, denseA: bool, denseB: bool,
                       a: Transcript, b: Transcript, limit: nat)
    requires Alike(p, ks, a, b) && SeesOnly(ks, viewer, a.db) && SeesOnly(ks, viewer, b.db)
    ensures Alike(p, ks, Next(viewer, denseA, a, Pull(limit)), Next(viewer, denseB, b, Pull(limit)))
    ensures a.verdicts == b.verdicts ==>
              Next(viewer, denseA, a, Pull(limit)).verdicts == Next(viewer, denseB, b, Pull(limit)).verdicts
  {
    PageOfAlike(p, ks, viewer, a.db, b.db, a.cursor, b.cursor, limit);
  }

  lemma WriteStaysAlike(p: Renumbering, ks: iset<RecordKey>, viewer: Text, dense: bool,
                        a: Transcript, b: Transcript, op: Op) returns (q: Renumbering)
    requires Alike(p, ks, a, b) && op.Write? && KeyFor(op.account, op.env) in ks
    ensures Alike(q, ks, Next(viewer, false, a, Commit(op)), Next(viewer, dense, b, Commit(op)))
    ensures a.verdicts == b.verdicts ==>
              Next(viewer, false, a, Commit(op)).verdicts == Next(viewer, dense, b, Commit(op)).verdicts
  {
    WinsAlike(p, ks, a.db, b.db, op.account, op.env);
    if Wins(a.db.records, op.account, op.env) {
      q := Extend(p, a.db, b.db);
      WonWriteAlike(p, ks, a.db, b.db, op.account, op.env);
      PagesStayAlike(p, q, a.pages, b.pages);
      assert Linked(p, a.cursor, b.cursor) && Linked(q, a.cursor, b.cursor);
    } else {
      q := p;
    }
  }

  /** Share changes and restarts are no writes: they touch neither rows nor numbers. */
  lemma OtherEventStaysAlike(p: Renumbering, ks: iset<RecordKey>, viewer: Text, denseA: bool, denseB: bool,
                             a: Transcript, b: Transcript, event: Event)
    requires Alike(p, ks, a, b) && !event.Pull? && (event.Commit? ==> !event.op.Write?)
    ensures Alike(p, ks, Next(viewer, denseA, a, event), Next(viewer, denseB, b, event))
    ensures a.verdicts == b.verdicts ==>
              Next(viewer, denseA, a, event).verdicts == Next(viewer, denseB, b, event).verdicts
  {
    if event.Commit? { ShareChangesAlike(a.db, b.db, event.op); }
    hide PagesAlike, OrderPreserving, RowAlike, Apply, PageOf, Wins;
  }

  lemma ShareChangesAlike(a: Db, b: Db, op: Op)
    requires !op.Write? && a.shares == b.shares
    ensures Apply(a, op).records == a.records && Apply(a, op).next == a.next
    ensures Apply(b, op).records == b.records && Apply(b, op).next == b.next
    ensures Apply(a, op).shares == Apply(b, op).shares
  {}

  ghost function EveryKey(): iset<RecordKey> { iset k: RecordKey | k.RecordKey? }

  // ---- burnt numbers ------------------------------------------------------------------

  /**
   The store that burns a number on every losing write tells everyone the same, in the same
   order, as one that numbers only the writes that win: same verdicts, same rows, same pages,
   up to an order-preserving renumbering of numbers and cursors.
   */
  lemma {:induction false} BurntNumbersCostNothing(viewer: Text, db: Db, events: seq<Event>)
    returns (p: Renumbering)
    ensures var actual, dense := Transcribe(viewer, false, db, events), Transcribe(viewer, true, db, events);
            && actual.verdicts == dense.verdicts
            && Alike(p, EveryKey(), actual, dense)
  {
    var ks := EveryKey();
    if events == [] {
      p := Identity(db);
      IdentityAlike(db, ks);
    } else {
      var before, last := events[..|events| - 1], events[|events| - 1];
      var actual, dense := Transcribe(viewer, false, db, before), Transcribe(viewer, true, db, before);
      p := BurntNumbersCostNothing(viewer, db, before);
      hide Alike;
      if last.Commit? && last.op.Write? {
        p := WriteStaysAlike(p, ks, viewer, true, actual, dense, last.op);
      } else if last.Pull? {
        PullStaysAlike(p, ks, viewer, false, true, actual, dense, last.limit);
      } else {
        OtherEventStaysAlike(p, ks, viewer, false, true, actual, dense, last);
      }
    }
  }

  function CountTrue(bs: seq<bool>): nat {
    if bs == [] then 0 else CountTrue(bs[..|bs| - 1]) + if bs[|bs| - 1] then 1 else 0
  }

  lemma CountTrueOneMore(bs: seq<bool>, b: bool)
    ensures CountTrue(bs + [b]) == CountTrue(bs) + if b then 1 else 0
  {
    assert (bs + [b])[..|bs|] == bs;
  }

  /** What one event does to the counter and the verdicts on either side. */
  lemma OneEventTakes(viewer: Text, t: Transcript, event: Event)
    ensures var after := Next(viewer, false, t, event);
            after.db.next - t.db.next == |after.verdicts| - |t.verdicts|
    ensures var after := Next(viewer, true, t, event);
            after.db.next - t.db.next == CountTrue(after.verdicts) - CountTrue(t.verdicts)
  {
    if event.Commit? && event.op.Write? {
      CountTrueOneMore(t.verdicts, Wins(t.db.records, event.op.account, event.op.env));
    }
    hide PageOf, Wins, CountTrue;
  }

  /** The dense store burns nothing and the real one takes a number for every write. */
  lemma {:induction false} NumbersTaken(viewer: Text, db: Db, events: seq<Event>)
    ensures var actual, dense := Transcribe(viewer, false, db, events), Transcribe(viewer, true, db, events);
            && actual.db.next == db.next + |actual.verdicts|
            && dense.db.next == db.next + CountTrue(dense.verdicts)
  {
    hide Next;
    if events != [] {
      var before, last := events[..|events| - 1], events[|events| - 1];
      NumbersTaken(viewer, db, before);
      OneEventTakes(viewer, Transcribe(viewer, false, db, before), last);
      OneEventTakes(viewer, Transcribe(viewer, true, db, before), last);
    }
  }

  // ---- non-interference -----------------------------------------------------------------

  /** The run without the writes to keys outside `ks`. */
  ghost function Erase(ks: iset<RecordKey>, events: seq<Event>): seq<Event> {
    if events == [] then [] else
      var earlier, last := Erase(ks, events[..|events| - 1]), events[|events| - 1];
      if last.Commit? && last.op.Write? && KeyFor(last.op.account, last.op.env) !in ks then earlier
      else earlier + [last]
  }

  /** The verdicts, among a run's, of the writes to keys in `ks`. */
  ghost function VerdictsIn(ks: iset<RecordKey>, viewer: Text, db: Db, events: seq<Event>): seq<bool> {
    if events == [] then [] else
      var before, last := events[..|events| - 1], events[|events| - 1];
      var earlier := VerdictsIn(ks, viewer, db, before);
      if last.Commit? && last.op.Write? && KeyFor(last.op.account, last.op.env) in ks
      then earlier + [Wins(Transcribe(viewer, false, db, before).db.records, last.op.account, last.op.env)]
      else earlier
  }

  /** Under these shares no version of a key outside `ks`, stored at the start or pushed, is visible. */
  ghost predicate ShowOnly(ks: iset<RecordKey>, viewer: Text, shares: map<ShareKey, ShareRow>,
                           db: Db, events: seq<Event>) {
    && (forall k | k in db.records && VisibleTo(shares, viewer, k, db.records[k]) :: k in ks)
    && (forall e | e in events && e.Commit? && e.op.Write?
                   && VisibleTo(shares, viewer, KeyFor(e.op.account, e.op.env), e.op.env) ::
          KeyFor(e.op.account, e.op.env) in ks)
  }

  function SharesAfter(viewer: Text, db: Db, events: seq<Event>): map<ShareKey, ShareRow> {
    Transcribe(viewer, false, db, events).db.shares
  }

  /** Shares may come and go, the viewer's among them: what is outside `ks` is visible under none of them. */
  ghost predicate OthersAreHidden(ks: iset<RecordKey>, viewer: Text, db: Db, events: seq<Event>, all: seq<Event>) {
    && ShowOnly(ks, viewer, SharesAfter(viewer, db, events), db, all)
    && (events != [] ==> OthersAreHidden(ks, viewer, db, events[..|events| - 1], all))
  }

  ghost predicate Versioned(db: Db, events: seq<Event>, k: RecordKey, e: Envelope) {
    || (k in db.records && db.records[k] == e)
    || (exists v | v in events && v.Commit? && v.op.Write? ::
          KeyFor(v.op.account, v.op.env) == k && SameContent(v.op.env, e))
  }

  ghost predicate AllVersioned(db: Db, events: seq<Event>, records: map<RecordKey, Envelope>) {
    forall k | k in records :: Versioned(db, events, k, records[k])
  }

  lemma EventKeepsVersions(db: Db, all: seq<Event>, viewer: Text, t: Transcript, event: Event)
    requires AllVersioned(db, all, t.db.records) && event in all
    ensures AllVersioned(db, all, Next(viewer, false, t, event).db.records)
  {
    if event.Commit? && event.op.Write? {
      var after := Apply(t.db, event.op).records;
      forall k | k in after ensures Versioned(db, all, k, after[k]) {
        if k in t.db.records && after[k] == t.db.records[k] {
          assert Versioned(db, all, k, t.db.records[k]);
        } else {
          assert KeyFor(event.op.account, event.op.env) == k && SameContent(event.op.env, after[k]);
        }
      }
    } else if event.Commit? {
      ShareChangesAlike(t.db, t.db, event.op);
    }
  }

  lemma ShowOnlySees(ks: iset<RecordKey>, viewer: Text, db: Db, all: seq<Event>, now: Db)
    requires ShowOnly(ks, viewer, now.shares, db, all) && AllVersioned(db, all, now.records)
    ensures SeesOnly(ks, viewer, now)
  {
    forall k | k in now.records && VisibleTo(now.shares, viewer, k, now.records[k]) ensures k in ks {
      assert Versioned(db, all, k, now.records[k]);
      if !(k in db.records && db.records[k] == now.records[k]) {
        var v :| v in all && v.Commit? && v.op.Write?
                 && KeyFor(v.op.account, v.op.env) == k && SameContent(v.op.env, now.records[k]);
        assert v.op.env.Content().groupId == now.records[k].Content().groupId;
      }
    }
  }

  lemma HiddenWriteStaysAlike(p: Renumbering, ks: iset<RecordKey>, viewer: Text, a: Transcript, b: Transcript, op: Op)
    requires Alike(p, ks, a, b) && op.Write? && KeyFor(op.account, op.env) !in ks
    ensures Alike(p, ks, Next(viewer, false, a, Commit(op)), b)
  {}

  lemma {:induction false} HiddenWritesStayHidden(ks: iset<RecordKey>, viewer: Text, db: Db, events: seq<Event>,
                                                  all: seq<Event>)
    returns (p: Renumbering)
    requires OthersAreHidden(ks, viewer, db, events, all) && forall e | e in events :: e in all
    ensures var full, kept := Transcribe(viewer, false, db, events), Transcribe(viewer, false, db, Erase(ks, events));
            && Alike(p, ks, full, kept)
            && VerdictsIn(ks, viewer, db, events) == kept.verdicts
            && AllVersioned(db, all, full.db.records) && AllVersioned(db, all, kept.db.records)
  {
    if events == [] {
      p := Identity(db);
      IdentityAlike(db, ks);
    } else {
      var before, last := events[..|events| - 1], events[|events| - 1];
      assert last in events && forall e | e in before :: e in events;
      p := HiddenWritesStayHidden(ks, viewer, db, before, all);
      var a := Transcribe(viewer, false, db, before);
      var kept := Erase(ks, before);
      var b := Transcribe(viewer, false, db, kept);
      assert (kept + [last])[..|kept|] == kept;
      EventKeepsVersions(db, all, viewer, a, last);
      EventKeepsVersions(db, all, viewer, b, last);
      assert ShowOnly(ks, viewer, a.db.shares, db, all);
      ShowOnlySees(ks, viewer, db, all, a.db);
      ShowOnlySees(ks, viewer, db, all, b.db);
      hide AllVersioned, ShowOnly, SeesOnly, OthersAreHidden;
      if last.Commit? && last.op.Write? {
        if KeyFor(last.op.account, last.op.env) in ks {
          WinsAlike(p, ks, a.db, b.db, last.op.account, last.op.env);
          p := WriteStaysAlike(p, ks, viewer, false, a, b, last.op);
        } else {
          HiddenWriteStaysAlike(p, ks, viewer, a, b, last.op);
        }
      } else if last.Pull? {
        PullStaysAlike(p, ks, viewer, false, false, a, b, last.limit);
      } else {
        OtherEventStaysAlike(p, ks, viewer, false, false, a, b, last);
      }
    }
  }

  /**
   What a viewer is sent does not depend on writes to rows it never sees, while anybody's shares
   come and go: leave them all out of the run and every page has the same contents in the same
   order, the same `more`, and the same numbers and cursors up to an order-preserving renumbering;
   and every write kept gets the same verdict.
   */
  lemma HiddenWritesDoNotInterfere(ks: iset<RecordKey>, viewer: Text, db: Db, events: seq<Event>)
    returns (p: Renumbering)
    requires OthersAreHidden(ks, viewer, db, events, events)
    ensures var full, kept := Transcribe(viewer, false, db, events), Transcribe(viewer, false, db, Erase(ks, events));
            && OrderPreserving(p)
            && PagesAlike(p, full.pages, kept.pages)
            && DbAlike(p, ks, full.db, kept.db)
            && VerdictsIn(ks, viewer, db, events) == kept.verdicts
  {
    p := HiddenWritesStayHidden(ks, viewer, db, events, events);
  }
}

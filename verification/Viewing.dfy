/**
 One viewer pulling pages while everybody else goes on writing and sharing: exactly what it
 has been sent, and exactly when something it may see has been left behind its cursor.
 */
module Viewing {
  import opened Record
  import opened Sql
  import opened Sync
  import opened Changelog

  /** The tables, with one viewer's cursor and all it has been sent since it started from 0. */
  datatype Session = Session(db: Db, cursor: int, delivered: set<Envelope>)

  /** `Restart` is a client going back to cursor 0, to be sent everything again. */
  datatype Event = Commit(op: Op) | Pull(limit: nat) | Restart

  function Step(viewer: Text, s: Session, event: Event): Session {
    match event
    case Commit(op) => s.(db := Apply(s.db, op))
    case Pull(limit) =>
      var page := PageOf(s.db, viewer, s.cursor, limit);
      s.(cursor := page.cursor, delivered := s.delivered + set e | e in page.envelopes)
    case Restart => Start(s.db)
  }

  function Start(db: Db): Session { Session(db, 0, {}) }

  function Run(viewer: Text, db: Db, events: seq<Event>): Session {
    if events == [] then Start(db)
    else Step(viewer, Run(viewer, db, events[..|events| - 1]), events[|events| - 1])
  }

  /** Every row the viewer may see at or below its cursor has reached it, in its stored version. */
  ghost predicate NothingLost(viewer: Text, s: Session) {
    forall k | k in s.db.records && VisibleTo(s.db.shares, viewer, k, s.db.records[k])
               && s.db.records[k].seqNo <= s.cursor :: s.db.records[k] in s.delivered
  }

  /** Numbers the viewer knows of have all been taken. */
  ghost predicate Behind(s: Session) {
    s.cursor <= s.db.next && forall e | e in s.delivered :: e.seqNo <= s.db.next
  }

  /** The statement gives this viewer a membership it did not have. */
  predicate Admits(viewer: Text, db: Db, op: Op) {
    op.Share? && op.user == viewer && ShareKey(op.group, viewer) !in db.shares
  }

  /** An account other than the viewer's holds `k`, shown to the group's members. */
  predicate OthersRow(viewer: Text, db: Db, k: RecordKey, group: Text) {
    k in db.records && k.account != viewer && db.records[k].groupId == Some(group)
  }

  predicate Member(viewer: Text, db: Db, group: Text) { ShareKey(group, viewer) in db.shares }

  /** The numbers the viewer's pages have passed over, since it started, while it was a member. */
  predicate Passed(viewer: Text, db: Db, events: seq<Event>, group: Text, n: int) {
    events != [] &&
    var before, last := events[..|events| - 1], events[|events| - 1];
    var s := Run(viewer, db, before);
    match last
    case Commit(_) => Passed(viewer, db, before, group, n)
    case Pull(limit) =>
      || Passed(viewer, db, before, group, n)
      || (Member(viewer, s.db, group) && s.cursor < n <= PageOf(s.db, viewer, s.cursor, limit).cursor)
    case Restart => false
  }

  /** No row of the group stands below the cursor but where the viewer came by as a member. */
  ghost predicate CaughtUp(viewer: Text, db: Db, events: seq<Event>, group: Text) {
    var s := Run(viewer, db, events);
    forall k | OthersRow(viewer, s.db, k, group) && s.db.records[k].seqNo <= s.cursor ::
      Passed(viewer, db, events, group, s.db.records[k].seqNo)
  }

  /** Since the viewer last started from 0, each new membership found it caught up. */
  ghost predicate NoneAdmittedLate(viewer: Text, db: Db, events: seq<Event>) {
    events == [] ||
    var before, last := events[..|events| - 1], events[|events| - 1];
    || last.Restart?
    || (&& NoneAdmittedLate(viewer, db, before)
        && (last.Commit? && Admits(viewer, Run(viewer, db, before).db, last.op) ==>
              CaughtUp(viewer, db, before, last.op.group)))
  }

  /** At no point since the viewer last started from 0 was anything lost. */
  ghost predicate NothingEverLost(viewer: Text, db: Db, events: seq<Event>) {
    && NothingLost(viewer, Run(viewer, db, events))
    && (events == [] || events[|events| - 1].Restart?
        || NothingEverLost(viewer, db, events[..|events| - 1]))
  }

  lemma PageReaches(db: Db, viewer: Text, cursor: int, limit: nat, k: RecordKey)
    requires k in VisibleAbove(db, viewer, cursor)
    requires db.records[k].seqNo <= PageOf(db, viewer, cursor, limit).cursor
    ensures db.records[k] in PageOf(db, viewer, cursor, limit).envelopes
  {
    var log := Log(db, viewer, cursor);
    var sent := First(log, limit);
    LogAscends(db, viewer, cursor);
    var i :| 0 <= i < |log| && log[i] == k;
    assert PageOf(db, viewer, cursor, limit).envelopes[i] == db.records[k];
  }

  lemma PageHoldsOnlyVisible(db: Db, viewer: Text, cursor: int, limit: nat, e: Envelope)
    requires e in PageOf(db, viewer, cursor, limit).envelopes
    ensures exists k :: k in VisibleAbove(db, viewer, cursor) && db.records[k] == e
  {
    var sent := First(Log(db, viewer, cursor), limit);
    var i :| 0 <= i < |sent| && db.records[sent[i]] == e;
    assert sent[i] in sent;
  }

  lemma StepStaysBehind(viewer: Text, s: Session, event: Event)
    requires Behind(s)
    ensures Behind(Step(viewer, s, event))
  {
    if event.Pull? {
      var sent := First(Log(s.db, viewer, s.cursor), event.limit);
      assert sent != [] ==> sent[|sent| - 1] in s.db.records;
      forall e | e in PageOf(s.db, viewer, s.cursor, event.limit).envelopes ensures e.seqNo <= s.db.next {
        PageHoldsOnlyVisible(s.db, viewer, s.cursor, event.limit, e);
      }
    }
  }

  lemma {:induction false} StaysBehind(viewer: Text, db: Db, events: seq<Event>)
    ensures Behind(Run(viewer, db, events))
  {
    if events != [] {
      StaysBehind(viewer, db, events[..|events| - 1]);
      StepStaysBehind(viewer, Run(viewer, db, events[..|events| - 1]), events[|events| - 1]);
    }
  }

  // ---- one step at a time ---------------------------------------------------------------

  /** Every other member's row at or below the cursor has been sent. */
  ghost predicate GroupHeld(viewer: Text, s: Session, group: Text) {
    forall k | OthersRow(viewer, s.db, k, group) && s.db.records[k].seqNo <= s.cursor ::
      s.db.records[k] in s.delivered
  }

  lemma CommitLosesNothing(viewer: Text, s: Session, op: Op)
    requires NothingLost(viewer, s) && Behind(s)
    ensures NothingLost(viewer, Step(viewer, s, Commit(op)))
       <==> (Admits(viewer, s.db, op) ==> GroupHeld(viewer, s, op.group))
  {
    var after := Step(viewer, s, Commit(op));
    if Admits(viewer, s.db, op) && NothingLost(viewer, after) {
      forall k | OthersRow(viewer, s.db, k, op.group) && s.db.records[k].seqNo <= s.cursor
        ensures s.db.records[k] in s.delivered
      {
        assert VisibleTo(after.db.shares, viewer, k, after.db.records[k]);
      }
    }
  }

  lemma PullLosesNothing(viewer: Text, s: Session, limit: nat)
    requires NothingLost(viewer, s)
    ensures NothingLost(viewer, Step(viewer, s, Pull(limit)))
  {
    var after := Step(viewer, s, Pull(limit));
    forall k | k in s.db.records && VisibleTo(s.db.shares, viewer, k, s.db.records[k])
               && s.db.records[k].seqNo <= after.cursor && s.db.records[k].seqNo > s.cursor
      ensures s.db.records[k] in after.delivered
    {
      PageReaches(s.db, viewer, s.cursor, limit, k);
    }
  }

  /** What a page holds lies above the old cursor and at or below the new one. */
  lemma PageLiesBetween(db: Db, viewer: Text, cursor: int, limit: nat, e: Envelope)
    requires e in PageOf(db, viewer, cursor, limit).envelopes
    ensures cursor < e.seqNo <= PageOf(db, viewer, cursor, limit).cursor
  {
    var log := Log(db, viewer, cursor);
    var sent := First(log, limit);
    LogAscends(db, viewer, cursor);
    var i :| 0 <= i < |sent| && db.records[sent[i]] == e;
    assert sent[i] in log && sent[i] in VisibleAbove(db, viewer, cursor);
    hide Log, VisibleAbove, Rows;
    assert log[i] == sent[i] && log[|sent| - 1] == sent[|sent| - 1];
  }

  lemma PageGoesOn(db: Db, viewer: Text, cursor: int, limit: nat)
    ensures cursor <= PageOf(db, viewer, cursor, limit).cursor
  {
    var sent := First(Log(db, viewer, cursor), limit);
    if sent != [] {
      assert PageOf(db, viewer, cursor, limit).envelopes[|sent| - 1] == db.records[sent[|sent| - 1]];
      PageLiesBetween(db, viewer, cursor, limit, db.records[sent[|sent| - 1]]);
    }
  }

  /** A stored row is on the page exactly when it is visible and its number is passed over. */
  lemma OnThePageIff(db: Db, viewer: Text, cursor: int, limit: nat, k: RecordKey)
    requires k in db.records
    ensures var page := PageOf(db, viewer, cursor, limit);
            db.records[k] in page.envelopes
            <==> VisibleTo(db.shares, viewer, k, db.records[k]) && cursor < db.records[k].seqNo <= page.cursor
  {
    var e := db.records[k];
    if e in PageOf(db, viewer, cursor, limit).envelopes {
      PageLiesBetween(db, viewer, cursor, limit, e);
      PageHoldsOnlyVisible(db, viewer, cursor, limit, e);
      var j :| j in VisibleAbove(db, viewer, cursor) && db.records[j] == e;
      if j != k { SeqsDiffer(db.records, j, k); }
    } else if k in VisibleAbove(db, viewer, cursor) && e.seqNo <= PageOf(db, viewer, cursor, limit).cursor {
      PageReaches(db, viewer, cursor, limit, k);
    }
  }

  /** What a write changes gets a number nobody has been sent. */
  lemma CommitChangesAreUnsent(viewer: Text, s: Session, op: Op, k: RecordKey)
    requires Behind(s)
    requires var s' := Step(viewer, s, Commit(op)); k in s'.db.records
    ensures var s' := Step(viewer, s, Commit(op));
            || (k in s.db.records && s'.db.records[k] == s.db.records[k])
            || (s'.db.records[k] !in s'.delivered && s'.db.records[k].seqNo > s'.cursor)
  {}

  // ---- exactly what has been sent ---------------------------------------------------------

  lemma {:induction false} PassedIsBelowTheCursor(viewer: Text, db: Db, events: seq<Event>, group: Text, n: int)
    requires Passed(viewer, db, events, group, n)
    ensures 0 < n <= Run(viewer, db, events).cursor
  {
    var before, last := events[..|events| - 1], events[|events| - 1];
    var s := Run(viewer, db, before);
    StartsAtZero(viewer, db, before);
    if Passed(viewer, db, before, group, n) { PassedIsBelowTheCursor(viewer, db, before, group, n); }
    if last.Pull? { PageGoesOn(s.db, viewer, s.cursor, last.limit); }
  }

  lemma {:induction false} StartsAtZero(viewer: Text, db: Db, events: seq<Event>)
    ensures Run(viewer, db, events).cursor >= 0
  {
    if events != [] {
      var s := Run(viewer, db, events[..|events| - 1]);
      StartsAtZero(viewer, db, events[..|events| - 1]);
      if events[|events| - 1].Pull? { PageGoesOn(s.db, viewer, s.cursor, events[|events| - 1].limit); }
    }
  }

  /** The viewer has been sent another's row of the group, as stored, iff it came by as a member. */
  lemma {:induction false} OthersRowIsSentIff(viewer: Text, db: Db, events: seq<Event>, group: Text, k: RecordKey)
    requires OthersRow(viewer, Run(viewer, db, events).db, k, group)
    ensures var s := Run(viewer, db, events);
            s.db.records[k] in s.delivered <==> Passed(viewer, db, events, group, s.db.records[k].seqNo)
  {
    if events != [] {
      var before, last := events[..|events| - 1], events[|events| - 1];
      var s, after := Run(viewer, db, before), Run(viewer, db, events);
      match last
      case Commit(op) =>
        StaysBehind(viewer, db, before);
        CommitChangesAreUnsent(viewer, s, op, k);
        if k in s.db.records && after.db.records[k] == s.db.records[k] {
          OthersRowIsSentIff(viewer, db, before, group, k);
        } else if Passed(viewer, db, events, group, after.db.records[k].seqNo) {
          PassedIsBelowTheCursor(viewer, db, events, group, after.db.records[k].seqNo);
        }
      case Pull(limit) =>
        OthersRowIsSentIff(viewer, db, before, group, k);
        OnThePageIff(s.db, viewer, s.cursor, limit, k);
      case Restart =>
    }
  }

  /** Its own rows it has been sent, as stored, exactly up to its cursor. */
  lemma {:induction false} OwnRowIsSentIff(viewer: Text, db: Db, events: seq<Event>, k: RecordKey)
    requires k in Run(viewer, db, events).db.records && k.account == viewer
    ensures var s := Run(viewer, db, events);
            s.db.records[k] in s.delivered <==> s.db.records[k].seqNo <= s.cursor
  {
    if events != [] {
      var before, last := events[..|events| - 1], events[|events| - 1];
      var s, after := Run(viewer, db, before), Run(viewer, db, events);
      match last
      case Commit(op) =>
        StaysBehind(viewer, db, before);
        CommitChangesAreUnsent(viewer, s, op, k);
        if k in s.db.records && after.db.records[k] == s.db.records[k] {
          OwnRowIsSentIff(viewer, db, before, k);
        }
      case Pull(limit) =>
        OwnRowIsSentIff(viewer, db, before, k);
        OnThePageIff(s.db, viewer, s.cursor, limit, k);
        PageGoesOn(s.db, viewer, s.cursor, limit);
      case Restart =>
    }
  }

  /**
   After any run at all - any writes, shares, revocations, restarts and page sizes - nothing the
   viewer may see has been left unsent below its cursor if and only if it is caught up in every
   group it is now a member of.
   */
  lemma {:induction false} NothingIsLostIff(viewer: Text, db: Db, events: seq<Event>)
    ensures NothingLost(viewer, Run(viewer, db, events))
       <==> forall group | Member(viewer, Run(viewer, db, events).db, group) :: CaughtUp(viewer, db, events, group)
  {
    var s := Run(viewer, db, events);
    if NothingLost(viewer, s) {
      forall group | Member(viewer, s.db, group) ensures CaughtUp(viewer, db, events, group) {
        forall k | OthersRow(viewer, s.db, k, group) && s.db.records[k].seqNo <= s.cursor
          ensures Passed(viewer, db, events, group, s.db.records[k].seqNo)
        {
          OthersRowIsSentIff(viewer, db, events, group, k);
        }
      }
    }
    if forall group | Member(viewer, s.db, group) :: CaughtUp(viewer, db, events, group) {
      forall k | k in s.db.records && VisibleTo(s.db.shares, viewer, k, s.db.records[k])
                 && s.db.records[k].seqNo <= s.cursor
        ensures s.db.records[k] in s.delivered
      {
        if k.account == viewer {
          OwnRowIsSentIff(viewer, db, events, k);
        } else {
          var group := s.db.records[k].groupId.value;
          assert Member(viewer, s.db, group) && OthersRow(viewer, s.db, k, group);
          OthersRowIsSentIff(viewer, db, events, group, k);
        }
      }
    }
  }

  lemma HeldIffCaughtUp(viewer: Text, db: Db, events: seq<Event>, group: Text)
    ensures GroupHeld(viewer, Run(viewer, db, events), group) <==> CaughtUp(viewer, db, events, group)
  {
    var s := Run(viewer, db, events);
    forall k | OthersRow(viewer, s.db, k, group)
      ensures s.db.records[k] in s.delivered <==> Passed(viewer, db, events, group, s.db.records[k].seqNo)
    {
      OthersRowIsSentIff(viewer, db, events, group, k);
    }
  }

  // ---- exactly when a share loses rows -----------------------------------------------------

  /**
   A share - for a newcomer, for somebody removed and let in again, or for a member - loses the
   viewer nothing if and only if nothing was lost and the viewer is caught up in the group;
   otherwise the client must restart from 0.
   */
  lemma {:induction false} ShareLosesNothingIff(viewer: Text, db: Db, events: seq<Event>, owner: Text,
                                                group: Text, wrapped: Text)
    ensures var s := Run(viewer, db, events);
            NothingLost(viewer, Step(viewer, s, Commit(Share(owner, group, viewer, wrapped))))
            <==> NothingLost(viewer, s) && CaughtUp(viewer, db, events, group)
  {
    var s := Run(viewer, db, events);
    var op := Share(owner, group, viewer, wrapped);
    StaysBehind(viewer, db, events);
    HeldIffCaughtUp(viewer, db, events, group);
    NothingIsLostIff(viewer, db, events);
    var after := Step(viewer, s, Commit(op));
    if NothingLost(viewer, after) {
      forall k | k in s.db.records && VisibleTo(s.db.shares, viewer, k, s.db.records[k])
                 && s.db.records[k].seqNo <= s.cursor
        ensures s.db.records[k] in s.delivered
      {
        assert VisibleTo(after.db.shares, viewer, k, after.db.records[k]);
      }
    }
    if NothingLost(viewer, s) { CommitLosesNothing(viewer, s, op); }
  }

  /**
   Over any run: nothing visible was ever lost since the viewer started from 0 if and only if
   every membership it was given since then found it caught up in that group.
   */
  lemma {:induction false} NothingIsLostBelowTheCursor(viewer: Text, db: Db, events: seq<Event>)
    ensures NothingEverLost(viewer, db, events) <==> NoneAdmittedLate(viewer, db, events)
  {
    if events != [] {
      var before, last := events[..|events| - 1], events[|events| - 1];
      var s := Run(viewer, db, before);
      NothingIsLostBelowTheCursor(viewer, db, before);
      if NothingLost(viewer, s) {
        match last
        case Commit(op) =>
          StaysBehind(viewer, db, before);
          CommitLosesNothing(viewer, s, op);
          if op.Share? { HeldIffCaughtUp(viewer, db, before, op.group); }
        case Pull(limit) => PullLosesNothing(viewer, s, limit);
        case Restart =>
      }
    }
  }

  // ---- newcomers and returning members --------------------------------------------------------

  /** From `first` on the viewer neither is a member of the group nor starts again. */
  ghost predicate Away(viewer: Text, db: Db, first: seq<Event>, away: seq<Event>, group: Text) {
    away == [] ||
    var earlier, last := away[..|away| - 1], away[|away| - 1];
    && Away(viewer, db, first, earlier, group)
    && !last.Restart?
    && !Member(viewer, Run(viewer, db, first + earlier).db, group)
  }

  /** A member, at every page since it started from 0. */
  ghost predicate AlwaysMember(viewer: Text, db: Db, events: seq<Event>, group: Text) {
    events == [] ||
    var before, last := events[..|events| - 1], events[|events| - 1];
    || last.Restart?
    || (&& AlwaysMember(viewer, db, before, group)
        && (last.Pull? ==> Member(viewer, Run(viewer, db, before).db, group)))
  }

  lemma {:induction false} AwayPassesNothing(viewer: Text, db: Db, first: seq<Event>, away: seq<Event>,
                                             group: Text, n: int)
    requires Away(viewer, db, first, away, group)
    ensures Passed(viewer, db, first + away, group, n) == Passed(viewer, db, first, group, n)
  {
    if away == [] {
      assert first + away == first;
    } else {
      var earlier, last := away[..|away| - 1], away[|away| - 1];
      assert first + away == (first + earlier) + [last];
      assert (first + away)[..|first + away| - 1] == first + earlier;
      AwayPassesNothing(viewer, db, first, earlier, group, n);
    }
  }

  lemma {:induction false} MembersPassEverything(viewer: Text, db: Db, events: seq<Event>, group: Text, n: int)
    requires AlwaysMember(viewer, db, events, group)
    ensures Passed(viewer, db, events, group, n) <==> 0 < n <= Run(viewer, db, events).cursor
  {
    if events != [] && !events[|events| - 1].Restart? {
      var before, last := events[..|events| - 1], events[|events| - 1];
      var s := Run(viewer, db, before);
      MembersPassEverything(viewer, db, before, group, n);
      StartsAtZero(viewer, db, before);
      if last.Pull? { PageGoesOn(s.db, viewer, s.cursor, last.limit); }
    }
  }

  /**
   A member removed at cursor c0 and let in again loses nothing if and only if nothing was lost
   and none of the group's rows of others stands above c0 and at or below the present cursor.
   With c0 = 0 this is the newcomer.
   */
  lemma {:induction false} ReturningMemberLosesNothingIff(viewer: Text, db: Db, first: seq<Event>, away: seq<Event>,
                                       owner: Text, group: Text, wrapped: Text)
    requires AlwaysMember(viewer, db, first, group) && Away(viewer, db, first, away, group)
    ensures var c0, s := Run(viewer, db, first).cursor, Run(viewer, db, first + away);
            NothingLost(viewer, Step(viewer, s, Commit(Share(owner, group, viewer, wrapped))))
            <==> NothingLost(viewer, s)
                 && forall k | OthersRow(viewer, s.db, k, group) :: !(c0 < s.db.records[k].seqNo <= s.cursor)
  {
    ShareLosesNothingIff(viewer, db, first + away, owner, group, wrapped);
    forall n: int ensures Passed(viewer, db, first + away, group, n) <==> 0 < n <= Run(viewer, db, first).cursor {
      AwayPassesNothing(viewer, db, first, away, group, n);
      MembersPassEverything(viewer, db, first, group, n);
    }
  }

  // ---- who is sent what --------------------------------------------------------------------------

  /** Everything ever sent to the viewer, restarts or not. */
  function Sent(viewer: Text, db: Db, events: seq<Event>): set<Envelope> {
    if events == [] then {} else
      var before, last := events[..|events| - 1], events[|events| - 1];
      var s := Run(viewer, db, before);
      var earlier := Sent(viewer, db, before);
      if last.Pull? then earlier + set e | e in PageOf(s.db, viewer, s.cursor, last.limit).envelopes else earlier
  }

  lemma {:induction false} DeliveredWasSent(viewer: Text, db: Db, events: seq<Event>)
    ensures Run(viewer, db, events).delivered <= Sent(viewer, db, events)
  {
    if events != [] { DeliveredWasSent(viewer, db, events[..|events| - 1]); }
  }

  /** At the page that is event `i`, version `e` was stored under `k` and visible. */
  ghost predicate VisibleAt(viewer: Text, db: Db, events: seq<Event>, i: nat, k: RecordKey, e: Envelope) {
    && i < |events| && events[i].Pull?
    && var at := Run(viewer, db, events[..i]).db;
       k in at.records && at.records[k] == e && VisibleTo(at.shares, viewer, k, e)
  }

  /** Every version ever sent was stored, and the viewer's to see, when the page was made. */
  lemma {:induction false} SentWhenVisible(viewer: Text, db: Db, events: seq<Event>, m: nat, e: Envelope)
    returns (i: nat, k: RecordKey)
    requires m <= |events| && e in Sent(viewer, db, events) && e !in Sent(viewer, db, events[..m])
    ensures m <= i && VisibleAt(viewer, db, events, i, k, e)
  {
    assert events[..|events|] == events;
    var n := |events| - 1;
    var before, last := events[..n], events[n];
    var s := Run(viewer, db, before);
    if e in Sent(viewer, db, before) {
      assert before[..m] == events[..m];
      i, k := SentWhenVisible(viewer, db, before, m, e);
      assert before[..i] == events[..i] && before[i] == events[i];
    } else {
      PageHoldsOnlyVisible(s.db, viewer, s.cursor, last.limit, e);
      i := n;
      k :| k in VisibleAbove(s.db, viewer, s.cursor) && s.db.records[k] == e;
    }
  }

  /**
   Whoever is no member of a group from event `m` on - having never been one, or having been
   removed - is sent no version of the group's rows from then on but those filed under itself.
   */
  lemma NonMembersAreSentOnlyTheirOwn(viewer: Text, db: Db, events: seq<Event>, group: Text, m: nat, e: Envelope)
    returns (i: nat, k: RecordKey)
    requires m <= |events|
    requires forall j | m <= j < |events| :: !Member(viewer, Run(viewer, db, events[..j]).db, group)
    requires e in Sent(viewer, db, events) && e !in Sent(viewer, db, events[..m]) && e.groupId == Some(group)
    ensures m <= i && k.account == viewer && VisibleAt(viewer, db, events, i, k, e)
  {
    i, k := SentWhenVisible(viewer, db, events, m, e);
  }

  // ---- a share that comes late --------------------------------------------------------------------

  lemma OneMoreEvent(viewer: Text, db: Db, events: seq<Event>, event: Event, group: Text)
    ensures Run(viewer, db, events + [event]) == Step(viewer, Run(viewer, db, events), event)
    ensures !Member(viewer, Run(viewer, db, events).db, group) && !event.Restart? ==>
              forall n :: Passed(viewer, db, events + [event], group, n) == Passed(viewer, db, events, group, n)
  {
    assert (events + [event])[..|events|] == events;
  }

  const OWNER: Text := [1]
  const VIEWER: Text := [2]
  const GROUP: Text := [3]
  const THEIRS := Envelope([7], Host, InGroup(GROUP), Some(GROUP), None, 0, 100, [1], None, [], [], 0)
  const MINE := Envelope([8], Host, Personal, None, None, 0, 100, [2], None, [], [], 0)

  /** A group's row gets number 1, one of the viewer's own number 2. */
  lemma TwoWrites()
    ensures var events := [Commit(Write(OWNER, THEIRS)), Commit(Write(VIEWER, MINE))];
            var s := Run(VIEWER, EMPTY, events);
            && s.cursor == 0 && s.db.shares == map[]
            && s.db.records == map[KeyFor(OWNER, THEIRS) := THEIRS.(seqNo := 1),
                                   KeyFor(VIEWER, MINE) := MINE.(seqNo := 2)]
            && (forall n :: !Passed(VIEWER, EMPTY, events, GROUP, n))
  {
    var e1, e2 := Commit(Write(OWNER, THEIRS)), Commit(Write(VIEWER, MINE));
    OneMoreEvent(VIEWER, EMPTY, [], e1, GROUP);
    OneMoreEvent(VIEWER, EMPTY, [e1], e2, GROUP);
    assert [] + [e1] == [e1] && [e1] + [e2] == [e1, e2];
    var s1 := Run(VIEWER, EMPTY, [e1]);
    assert Run(VIEWER, EMPTY, []) == Start(EMPTY);
    assert forall n :: !Passed(VIEWER, EMPTY, [], GROUP, n);
    hide Run, Passed;
    assert s1 == Session(PutEnvelope(EMPTY, OWNER, THEIRS).0, 0, {});
    assert s1.db.records == map[KeyFor(OWNER, THEIRS) := THEIRS.(seqNo := 1)];
    assert Run(VIEWER, EMPTY, [e1, e2]) == Step(VIEWER, s1, e2);
  }

  /** The viewer's first page takes its cursor past the group's row, which it may not see. */
  lemma PastTheirs(events: seq<Event>)
    requires events == [Commit(Write(OWNER, THEIRS)), Commit(Write(VIEWER, MINE)), Pull(500)]
    ensures NothingLost(VIEWER, Run(VIEWER, EMPTY, events)) && !CaughtUp(VIEWER, EMPTY, events, GROUP)
  {
    var two := [Commit(Write(OWNER, THEIRS)), Commit(Write(VIEWER, MINE))];
    var s := Run(VIEWER, EMPTY, two);
    TwoWrites();
    OneMoreEvent(VIEWER, EMPTY, two, Pull(500), GROUP);
    assert two + [Pull(500)] == events;
    hide Run, Passed;
    APageOfOne(s.db, VIEWER, KeyFor(VIEWER, MINE));
    PullLosesNothing(VIEWER, s, 500);
    hide PageOf;
    assert OthersRow(VIEWER, Run(VIEWER, EMPTY, events).db, KeyFor(OWNER, THEIRS), GROUP);
  }

  /** And it does happen: a row older than the share, below a cursor the viewer already holds. */
  lemma ALateShareLosesARow() returns (viewer: Text, events: seq<Event>, op: Op)
    ensures NothingLost(viewer, Run(viewer, EMPTY, events))
    ensures !NothingLost(viewer, Step(viewer, Run(viewer, EMPTY, events), Commit(op)))
  {
    viewer, op := VIEWER, Share(OWNER, GROUP, VIEWER, []);
    events := [Commit(Write(OWNER, THEIRS)), Commit(Write(VIEWER, MINE)), Pull(500)];
    hide *;
    PastTheirs(events);
    ShareLosesNothingIff(viewer, EMPTY, events, OWNER, GROUP, []);
  }

  lemma APageOfOne(db: Db, viewer: Text, k: RecordKey)
    requires k in db.records && db.records[k].seqNo > 0 && VisibleTo(db.shares, viewer, k, db.records[k])
    requires forall j | j in db.records && j != k :: !VisibleTo(db.shares, viewer, j, db.records[j])
    ensures PageOf(db, viewer, 0, 500).cursor == db.records[k].seqNo
  {
    assert VisibleAbove(db, viewer, 0) == {k};
    LogAscends(db, viewer, 0);
    assert Log(db, viewer, 0)[0] in VisibleAbove(db, viewer, 0);
  }
}

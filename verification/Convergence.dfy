/**
 Why everyone ends up with the same records: devices of one account that edit, push and pull in
 any interleaving - with each other, with everybody else's writes, and with shares coming and
 going - converge on the server's rows.

 The client's own code lives in another repository. A device is modelled as no more than what
 the wire crate asks of it: a replica updated through `Resolve`, edits still to be pushed, and
 a cursor that follows the pages.
 */
module Convergence {
  import opened Record
  import opened Merge
  import opened Sql
  import opened Sync
  import opened Changelog
  import opened Viewing
  import opened Ordering

  // ---- devices --------------------------------------------------------------------------

  /** A device knows a record by its kind and id; whose account it is filed under it is not told. */
  datatype Id = Id(kind: RecordKind, id: Text)

  function IdOf(e: Envelope): Id { Id(e.kind, e.id) }

  function IdOfKey(k: RecordKey): Id { Id(k.kind, k.id) }

  datatype Device = Device(
    replica: map<Id, Envelope>,
    pending: set<Envelope>,
    cursor: int,
    delivered: set<Envelope>)

  datatype Filing = Filing(account: Text, env: Envelope)

  /**
   Two histories: `filed`, every version the store was ever asked to file and under whom; `met`,
   the accounts whose rows this account's devices have been sent or have pushed to.
   */
  datatype World = World(db: Db, devices: map<Text, Device>, filed: set<Filing>, met: set<Text>)

  datatype Action =
    | Edit(device: Text, env: Envelope)
    | PushPending(device: Text, env: Envelope, now: int)
    | PullPage(device: Text, limit: nat)
    | StartAgain(device: Text)
    | Elsewhere(op: Op)

  function Absorb(replica: map<Id, Envelope>, env: Envelope): map<Id, Envelope> {
    var i := IdOf(env);
    if i !in replica || Resolve(ClockOf(replica[i]), ClockOf(env)) == TakeRemote then replica[i := env] else replica
  }

  function AbsorbPage(replica: map<Id, Envelope>, page: seq<Envelope>): map<Id, Envelope> {
    if page == [] then replica
    else Absorb(AbsorbPage(replica, page[..|page| - 1]), page[|page| - 1])
  }

  function Pulled(d: Device, page: Page): Device {
    d.(replica := AbsorbPage(d.replica, page.envelopes),
       cursor := page.cursor,
       delivered := d.delivered + set e | e in page.envelopes)
  }

  function Edited(d: Device, env: Envelope): Device {
    d.(replica := Absorb(d.replica, env), pending := d.pending + {env})
  }

  /** The server's word on a record settles it, unless the record itself was refused. */
  predicate Settles(verdict: Verdict) { verdict.Took? || verdict.no.reason == Stale }

  function Showing(db: Db, viewer: Text): set<Text> {
    set k | k in db.records && VisibleTo(db.shares, viewer, k, db.records[k]) :: k.account
  }

  function Act(cfg: Config, account: Text, w: World, action: Action): World {
    match action
    case Edit(name, env) =>
      if name !in w.devices then w else w.(devices := w.devices[name := Edited(w.devices[name], env)])
    case PushPending(name, env, now) =>
      if name !in w.devices || env !in w.devices[name].pending then w else
        var d := w.devices[name];
        var owner := StorageAccount(w.db.shares, account, env);
        var (after, verdict) := PushRecord(w.db, cfg, account, env, now);
        if !Settles(verdict) then w
        else World(after, w.devices[name := d.(pending := d.pending - {env})],
                   w.filed + {Filing(owner, env)}, w.met + {owner})
    case PullPage(name, limit) =>
      if name !in w.devices then w else
        var d := w.devices[name];
        w.(devices := w.devices[name := Pulled(d, PageOf(w.db, account, d.cursor, limit))],
           met := w.met + Showing(w.db, account))
    case StartAgain(name) =>
      if name !in w.devices then w
      else w.(devices := w.devices[name := w.devices[name].(cursor := 0, delivered := {})])
    case Elsewhere(op) =>
      w.(db := Apply(w.db, op), filed := if op.Write? then w.filed + {Filing(op.account, op.env)} else w.filed)
  }

  function Live(cfg: Config, account: Text, w: World, actions: seq<Action>): World {
    if actions == [] then w
    else Act(cfg, account, Live(cfg, account, w, actions[..|actions| - 1]), actions[|actions| - 1])
  }

  function Begin(account: Text, db: Db, names: set<Text>): World {
    World(db, map name | name in names :: Device(map[], {}, 0, {}),
          set k | k in db.records :: Filing(k.account, db.records[k]), {account})
  }

  function SessionOf(db: Db, d: Device): Session { Session(db, d.cursor, d.delivered) }

  // ---- what every step keeps --------------------------------------------------------------

  ghost predicate Covers(replica: map<Id, Envelope>, e: Envelope) {
    IdOf(e) in replica && !Loses(replica[IdOf(e)], e)
  }

  ghost predicate From(es: set<Envelope>, i: Id, e: Envelope) {
    exists v | v in es :: IdOf(v) == i && SameContent(v, e)
  }

  function FiledUnder(filed: set<Filing>, account: Text): set<Envelope> {
    set f | f in filed && f.account == account :: f.env
  }

  /** Where what a device holds can have come from. */
  function Sources(filed: set<Filing>, met: set<Text>, pending: set<Envelope>): set<Envelope> {
    (set f | f in filed && f.account in met :: f.env) + pending
  }

  ghost predicate ServerInv(db: Db, filed: set<Filing>) {
    && (forall f | f in filed :: KeyFor(f.account, f.env) in db.records
                                 && !Loses(db.records[KeyFor(f.account, f.env)], f.env))
    && (forall k | k in db.records :: From(FiledUnder(filed, k.account), IdOfKey(k), db.records[k]))
  }

  ghost predicate DeviceInv(account: Text, db: Db, filed: set<Filing>, met: set<Text>, d: Device) {
    && Behind(SessionOf(db, d))
    && (forall e | e in d.delivered :: Covers(d.replica, e))
    && (forall i | i in d.replica :: From(Sources(filed, met, d.pending), i, d.replica[i]))
    && HoldersMet(db, met, d)
  }

  /** Whose row a device has been sent it has met. */
  ghost predicate HoldersMet(db: Db, met: set<Text>, d: Device) {
    forall k | k in db.records && db.records[k] in d.delivered :: k.account in met
  }

  ghost predicate Inv(account: Text, w: World) {
    && ServerInv(w.db, w.filed)
    && (forall name | name in w.devices :: DeviceInv(account, w.db, w.filed, w.met, w.devices[name]))
  }

  lemma AbsorbCovers(replica: map<Id, Envelope>, env: Envelope, e: Envelope)
    requires Covers(replica, e) || e == env
    ensures Covers(Absorb(replica, env), e)
  {
    var i := IdOf(e);
    NotYounger(env, env, env);
    if i in replica {
      NotYounger(env, replica[i], e);
      NotYounger(replica[i], env, e);
    }
  }

  /** A version goes in exactly if there is none or an older one: a device's own echo changes nothing. */
  lemma AbsorbedIff(replica: map<Id, Envelope>, env: Envelope)
    ensures var i := IdOf(env);
            Absorb(replica, env)
            == if i !in replica || replica[i].updatedAt < env.updatedAt
                  || (replica[i].updatedAt == env.updatedAt && Precedes(replica[i].deviceId, env.deviceId))
               then replica[i := env] else replica
    ensures IdOf(env) in replica && ClockOf(replica[IdOf(env)]) == ClockOf(env) ==> Absorb(replica, env) == replica
  {
    var i := IdOf(env);
    if i in replica { ResolveIff(ClockOf(replica[i]), ClockOf(env)); }
    NotYounger(env, env, env);
  }

  lemma {:induction false} AbsorbPageCovers(replica: map<Id, Envelope>, page: seq<Envelope>, e: Envelope)
    requires Covers(replica, e) || e in page
    ensures Covers(AbsorbPage(replica, page), e)
  {
    if page != [] {
      var rest := page[..|page| - 1];
      if Covers(replica, e) || e in rest { AbsorbPageCovers(replica, rest, e); }
      AbsorbCovers(AbsorbPage(replica, rest), page[|page| - 1], e);
    }
  }

  lemma {:induction false} AbsorbPageFrom(replica: map<Id, Envelope>, page: seq<Envelope>, es: set<Envelope>, i: Id)
    requires forall j | j in replica :: From(es, j, replica[j])
    requires forall e | e in page :: From(es, IdOf(e), e)
    requires i in AbsorbPage(replica, page)
    ensures From(es, i, AbsorbPage(replica, page)[i])
  {
    if page != [] {
      var rest, last := page[..|page| - 1], page[|page| - 1];
      assert last in page && forall e | e in rest :: e in page;
      if i in AbsorbPage(replica, rest) { AbsorbPageFrom(replica, rest, es, i); }
    }
  }

  lemma FromMore(es: set<Envelope>, more: set<Envelope>, i: Id, e: Envelope)
    requires From(es, i, e) && es <= more
    ensures From(more, i, e)
  {}

  /** Filing a version under whatever account keeps the server's half. */
  lemma WriteKeepsServer(db: Db, filed: set<Filing>, owner: Text, env: Envelope)
    requires ServerInv(db, filed)
    ensures ServerInv(PutEnvelope(db, owner, env).0, filed + {Filing(owner, env)})
  {
    var after := PutEnvelope(db, owner, env).0;
    var more := filed + {Filing(owner, env)};
    forall f | f in more
      ensures KeyFor(f.account, f.env) in after.records && !Loses(after.records[KeyFor(f.account, f.env)], f.env)
    {
      var k := KeyFor(f.account, f.env);
      NotYounger(env, env, env);
      if k in db.records {
        NotYounger(env, db.records[k], f.env);
        NotYounger(db.records[k], env, f.env);
      }
    }
    forall k | k in after.records ensures From(FiledUnder(more, k.account), IdOfKey(k), after.records[k]) {
      if k in db.records && after.records[k] == db.records[k] {
        FromMore(FiledUnder(filed, k.account), FiledUnder(more, k.account), IdOfKey(k), db.records[k]);
      } else {
        assert Filing(owner, env) in more && env in FiledUnder(more, k.account);
        assert SameContent(env, after.records[k]);
      }
    }
  }

  lemma ShareKeepsServer(db: Db, filed: set<Filing>, op: Op)
    requires ServerInv(db, filed) && !op.Write?
    ensures ServerInv(Apply(db, op), filed)
  {}

  lemma SourcesGrow(account: Text, db: Db, filed: set<Filing>, met: set<Text>, more: set<Filing>, all: set<Text>,
                    d: Device, pending: set<Envelope>)
    requires DeviceInv(account, db, filed, met, d)
    requires Sources(filed, met, d.pending) <= Sources(more, all, pending) && met <= all
    ensures DeviceInv(account, db, more, all, d.(pending := pending))
  {
    forall i | i in d.replica ensures From(Sources(more, all, pending), i, d.replica[i]) {
      FromMore(Sources(filed, met, d.pending), Sources(more, all, pending), i, d.replica[i]);
    }
  }

  /** Anybody's commit keeps every device's half. */
  lemma CommitKeepsDevice(account: Text, db: Db, filed: set<Filing>, met: set<Text>, d: Device, op: Op)
    requires DeviceInv(account, db, filed, met, d)
    ensures DeviceInv(account, Apply(db, op), filed, met, d)
  {
    StepStaysBehind(account, SessionOf(db, d), Commit(op));
    forall k | k in Apply(db, op).records && Apply(db, op).records[k] in d.delivered ensures k.account in met {
      CommitChangesAreUnsent(account, SessionOf(db, d), op, k);
    }
  }

  lemma EditKeepsDevice(account: Text, db: Db, filed: set<Filing>, met: set<Text>, d: Device, env: Envelope)
    requires DeviceInv(account, db, filed, met, d)
    ensures DeviceInv(account, db, filed, met, Edited(d, env))
  {
    var after := Edited(d, env);
    forall e | e in d.delivered ensures Covers(after.replica, e) { AbsorbCovers(d.replica, env, e); }
    var es := Sources(filed, met, after.pending);
    forall i | i in after.replica ensures From(es, i, after.replica[i]) {
      if i in d.replica && after.replica[i] == d.replica[i] {
        FromMore(Sources(filed, met, d.pending), es, i, d.replica[i]);
      } else {
        assert env in es && SameContent(env, after.replica[i]);
      }
    }
  }

  lemma PullKeepsDevice(account: Text, db: Db, filed: set<Filing>, met: set<Text>, d: Device, limit: nat)
    requires ServerInv(db, filed) && DeviceInv(account, db, filed, met, d) && Showing(db, account) <= met
    ensures DeviceInv(account, db, filed, met, Pulled(d, PageOf(db, account, d.cursor, limit)))
  {
    var page := PageOf(db, account, d.cursor, limit);
    StepStaysBehind(account, SessionOf(db, d), Pull(limit));
    var after := AbsorbPage(d.replica, page.envelopes);
    forall e | e in d.delivered || e in page.envelopes ensures Covers(after, e) {
      AbsorbPageCovers(d.replica, page.envelopes, e);
    }
    var es := Sources(filed, met, d.pending);
    forall e | e in page.envelopes ensures From(es, IdOf(e), e) {
      PageHoldsOnlyVisible(db, account, d.cursor, limit, e);
      var k :| k in VisibleAbove(db, account, d.cursor) && db.records[k] == e;
      assert k.account in Showing(db, account);
      FromMore(FiledUnder(filed, k.account), es, IdOfKey(k), e);
    }
    forall i | i in after ensures From(es, i, after[i]) { AbsorbPageFrom(d.replica, page.envelopes, es, i); }
    forall k | k in db.records && db.records[k] in page.envelopes ensures k.account in met {
      OnThePageIff(db, account, d.cursor, limit, k);
      assert k.account in Showing(db, account);
    }
  }

  lemma StartAgainKeepsDevice(account: Text, db: Db, filed: set<Filing>, met: set<Text>, d: Device)
    requires DeviceInv(account, db, filed, met, d)
    ensures DeviceInv(account, db, filed, met, d.(cursor := 0, delivered := {}))
  {}

  /** A settled push is one commit, to the row of the account it is routed to. */
  lemma SettledIsACommit(db: Db, cfg: Config, account: Text, env: Envelope, now: int)
    ensures var (after, verdict) := PushRecord(db, cfg, account, env, now);
            Settles(verdict) ==> after == Apply(db, Write(StorageAccount(db.shares, account, env), env))
  {}

  lemma WriteIsACommit(db: Db, account: Text, env: Envelope)
    ensures Apply(db, Write(account, env)) == PutEnvelope(db, account, env).0
  {}

  lemma PushKeepsInv(cfg: Config, account: Text, w: World, name: Text, env: Envelope, now: int)
    requires Inv(account, w) && name in w.devices && env in w.devices[name].pending
    ensures Inv(account, Act(cfg, account, w, PushPending(name, env, now)))
  {
    hide DeviceInv, PushRecord, Apply, PutEnvelope;
    var owner := StorageAccount(w.db.shares, account, env);
    var op, filed, met := Write(owner, env), w.filed + {Filing(owner, env)}, w.met + {owner};
    SettledIsACommit(w.db, cfg, account, env, now);
    WriteIsACommit(w.db, owner, env);
    WriteKeepsServer(w.db, w.filed, owner, env);
    hide ServerInv;
    forall other | other in w.devices
      ensures DeviceInv(account, Apply(w.db, op), filed, met, w.devices[other])
      ensures other == name ==> DeviceInv(account, Apply(w.db, op), filed, met,
                                          w.devices[other].(pending := w.devices[other].pending - {env}))
    {
      var d := w.devices[other];
      CommitKeepsDevice(account, w.db, w.filed, w.met, d, op);
      SourcesGrow(account, Apply(w.db, op), w.filed, w.met, filed, met, d, d.pending);
      assert d.(pending := d.pending) == d;
      if other == name {
        assert Filing(owner, env) in filed && owner in met;
        SourcesGrow(account, Apply(w.db, op), w.filed, w.met, filed, met, d, d.pending - {env});
      }
    }
  }

  lemma ActKeepsInv(cfg: Config, account: Text, w: World, action: Action)
    requires Inv(account, w)
    ensures Inv(account, Act(cfg, account, w, action))
  {
    hide ServerInv, DeviceInv, PushRecord, Apply, PutEnvelope, PageOf, Pulled, Edited, Showing;
    match action
    case Edit(name, env) =>
      if name in w.devices { EditKeepsDevice(account, w.db, w.filed, w.met, w.devices[name], env); }
    case PushPending(name, env, now) =>
      if name in w.devices && env in w.devices[name].pending { PushKeepsInv(cfg, account, w, name, env, now); }
    case PullPage(name, limit) =>
      if name in w.devices {
        var met := w.met + Showing(w.db, account);
        forall other | other in w.devices ensures DeviceInv(account, w.db, w.filed, met, w.devices[other]) {
          var d := w.devices[other];
          SourcesGrow(account, w.db, w.filed, w.met, w.filed, met, d, d.pending);
          assert d.(pending := d.pending) == d;
        }
        PullKeepsDevice(account, w.db, w.filed, met, w.devices[name], limit);
      }
    case StartAgain(name) =>
      if name in w.devices { StartAgainKeepsDevice(account, w.db, w.filed, w.met, w.devices[name]); }
    case Elsewhere(op) =>
      var filed := if op.Write? then w.filed + {Filing(op.account, op.env)} else w.filed;
      if op.Write? {
        WriteKeepsServer(w.db, w.filed, op.account, op.env);
        WriteIsACommit(w.db, op.account, op.env);
      } else {
        ShareKeepsServer(w.db, w.filed, op);
      }
      forall name | name in w.devices ensures DeviceInv(account, Apply(w.db, op), filed, w.met, w.devices[name]) {
        var d := w.devices[name];
        CommitKeepsDevice(account, w.db, w.filed, w.met, d, op);
        SourcesGrow(account, Apply(w.db, op), w.filed, w.met, filed, w.met, d, d.pending);
        assert d.(pending := d.pending) == d;
      }
  }

  lemma {:induction false} InvHoldsThroughout(cfg: Config, account: Text, w: World, actions: seq<Action>)
    requires Inv(account, w)
    ensures Inv(account, Live(cfg, account, w, actions))
  {
    if actions != [] {
      var rest, last := actions[..|actions| - 1], actions[|actions| - 1];
      InvHoldsThroughout(cfg, account, w, rest);
      ActKeepsInv(cfg, account, Live(cfg, account, w, rest), last);
    }
  }

  lemma InvAtTheStart(account: Text, db: Db, names: set<Text>)
    ensures Inv(account, Begin(account, db, names))
  {
    var w := Begin(account, db, names);
    forall f | f in w.filed ensures !Loses(db.records[KeyFor(f.account, f.env)], f.env) {
      NotYounger(f.env, f.env, f.env);
    }
    forall k | k in db.records ensures From(FiledUnder(w.filed, k.account), IdOfKey(k), db.records[k]) {
      assert Filing(k.account, db.records[k]) in w.filed;
      assert db.records[k] in FiledUnder(w.filed, k.account);
    }
  }

  // ---- nothing lost ------------------------------------------------------------------------

  /** No device has left behind its cursor anything the account may see. */
  ghost predicate NoDeviceLost(account: Text, w: World) {
    forall name | name in w.devices :: NothingLost(account, SessionOf(w.db, w.devices[name]))
  }

  /** A new membership finds no device behind in the group; `Viewing` says exactly when that is. */
  ghost predicate FindsAllCaughtUp(account: Text, w: World, action: Action) {
    action.Elsewhere? && Admits(account, w.db, action.op) ==>
      forall name | name in w.devices :: GroupHeld(account, SessionOf(w.db, w.devices[name]), action.op.group)
  }

  ghost predicate NoneLate(cfg: Config, account: Text, w: World, actions: seq<Action>) {
    actions == [] ||
    var before, last := actions[..|actions| - 1], actions[|actions| - 1];
    NoneLate(cfg, account, w, before) && FindsAllCaughtUp(account, Live(cfg, account, w, before), last)
  }

  lemma CommitLosesNoDevice(account: Text, w: World, op: Op)
    requires Inv(account, w) && NoDeviceLost(account, w) && FindsAllCaughtUp(account, w, Elsewhere(op))
    ensures forall name | name in w.devices :: NothingLost(account, SessionOf(Apply(w.db, op), w.devices[name]))
  {
    forall name | name in w.devices ensures NothingLost(account, SessionOf(Apply(w.db, op), w.devices[name])) {
      CommitLosesNothing(account, SessionOf(w.db, w.devices[name]), op);
    }
  }

  lemma ActLosesNoDevice(cfg: Config, account: Text, w: World, action: Action)
    requires Inv(account, w) && NoDeviceLost(account, w) && FindsAllCaughtUp(account, w, action)
    ensures NoDeviceLost(account, Act(cfg, account, w, action))
  {
    hide PushRecord, Apply, PageOf, Absorb, AbsorbPage, GroupHeld, ServerInv, DeviceInv;
    match action
    case Edit(_, _) => hide NothingLost;
    case PushPending(name, env, now) =>
      hide NothingLost;
      SettledIsACommit(w.db, cfg, account, env, now);
      CommitLosesNoDevice(account, w, Write(StorageAccount(w.db.shares, account, env), env));
    case PullPage(name, limit) =>
      if name in w.devices { PullLosesNothing(account, SessionOf(w.db, w.devices[name]), limit); }
      hide NothingLost;
    case StartAgain(_) =>
    case Elsewhere(op) =>
      hide NothingLost;
      CommitLosesNoDevice(account, w, op);
  }

  /** If no membership came late no device has lost anything, whatever else went on. */
  lemma {:induction false} NoneLateLosesNothing(cfg: Config, account: Text, w: World, actions: seq<Action>)
    requires Inv(account, w) && NoDeviceLost(account, w) && NoneLate(cfg, account, w, actions)
    ensures NoDeviceLost(account, Live(cfg, account, w, actions))
  {
    hide Inv, NoDeviceLost, FindsAllCaughtUp, Act;
    if actions != [] {
      var rest, last := actions[..|actions| - 1], actions[|actions| - 1];
      NoneLateLosesNothing(cfg, account, w, rest);
      InvHoldsThroughout(cfg, account, w, rest);
      ActLosesNoDevice(cfg, account, Live(cfg, account, w, rest), last);
    }
  }

  // ---- convergence ------------------------------------------------------------------------

  /** Every device has pushed all it wrote and drained its pulls. */
  ghost predicate Settled(account: Text, w: World) {
    forall name | name in w.devices ::
      w.devices[name].pending == {} && VisibleAbove(w.db, account, w.devices[name].cursor) == {}
  }

  /** Among the accounts met, one clock on one row is one version. */
  ghost predicate RowClocksIdentify(filed: set<Filing>, met: set<Text>) {
    forall f, g | f in filed && g in filed && f.account in met && g.account == f.account
                  && IdOf(f.env) == IdOf(g.env) && ClockOf(f.env) == ClockOf(g.env) ::
      SameContent(f.env, g.env)
  }

  /** Row `k` is at least as new as the copy `e`, and the very same where the account may see it. */
  ghost predicate Backs(account: Text, w: World, k: RecordKey, e: Envelope) {
    && k in w.db.records && k.account in w.met && IdOfKey(k) == IdOf(e)
    && !Loses(w.db.records[k], e)
    && (VisibleTo(w.db.shares, account, k, w.db.records[k]) ==> SameContent(e, w.db.records[k]))
  }

  /**
   A replica holds, for every row the account may see, a version no older; and every version it
   holds is some row's: the stored one if the account may see that row, and else no newer.
   */
  ghost predicate Agrees(account: Text, w: World, replica: map<Id, Envelope>) {
    && (forall k | k in w.db.records && VisibleTo(w.db.shares, account, k, w.db.records[k]) ::
          k.account in w.met && IdOfKey(k) in replica && !Loses(replica[IdOfKey(k)], w.db.records[k]))
    && (forall i | i in replica :: IdOf(replica[i]) == i && exists k :: Backs(account, w, k, replica[i]))
  }

  lemma SameContentSameClock(a: Envelope, b: Envelope)
    requires SameContent(a, b)
    ensures ClockOf(a) == ClockOf(b)
  {
    assert ClockOf(a) == ClockOf(a.Content()) && ClockOf(b) == ClockOf(b.Content());
  }

  lemma FiledSource(filed: set<Filing>, met: set<Text>, i: Id, e: Envelope) returns (f: Filing)
    requires From(Sources(filed, met, {}), i, e)
    ensures f in filed && f.account in met && IdOf(f.env) == i && ClockOf(f.env) == ClockOf(e) && SameContent(f.env, e)
  {
    var v :| v in Sources(filed, met, {}) && IdOf(v) == i && SameContent(v, e);
    f :| f in filed && f.account in met && f.env == v;
    SameContentSameClock(v, e);
  }

  /** The row a version was filed as is no older; if it is not newer either, it is that version. */
  lemma FiledRow(w: World, f: Filing) returns (k: RecordKey)
    requires ServerInv(w.db, w.filed) && RowClocksIdentify(w.filed, w.met) && f in w.filed && f.account in w.met
    ensures k == KeyFor(f.account, f.env) && k in w.db.records && !Loses(w.db.records[k], f.env)
    ensures !Loses(f.env, w.db.records[k]) ==> SameContent(f.env, w.db.records[k])
  {
    k := KeyFor(f.account, f.env);
    var row := w.db.records[k];
    assert From(FiledUnder(w.filed, k.account), IdOfKey(k), row);
    var u :| u in FiledUnder(w.filed, k.account) && IdOf(u) == IdOfKey(k) && SameContent(u, row);
    assert Filing(k.account, u) in w.filed;
    SameContentSameClock(u, row);
    NotYounger(f.env, row, f.env);
  }

  lemma DeviceAgrees(account: Text, w: World, d: Device)
    requires ServerInv(w.db, w.filed) && DeviceInv(account, w.db, w.filed, w.met, d)
    requires d.pending == {} && VisibleAbove(w.db, account, d.cursor) == {} && NothingLost(account, SessionOf(w.db, d))
    requires RowClocksIdentify(w.filed, w.met)
    ensures Agrees(account, w, d.replica)
  {
    forall k | k in w.db.records && VisibleTo(w.db.shares, account, k, w.db.records[k])
      ensures k.account in w.met && IdOfKey(k) in d.replica && !Loses(d.replica[IdOfKey(k)], w.db.records[k])
    {
      assert k !in VisibleAbove(w.db, account, d.cursor);
      assert w.db.records[k] in d.delivered && Covers(d.replica, w.db.records[k]);
    }
    forall i | i in d.replica ensures IdOf(d.replica[i]) == i && exists k :: Backs(account, w, k, d.replica[i]) {
      var f := FiledSource(w.filed, w.met, i, d.replica[i]);
      SameContentSameId(f.env, d.replica[i]);
      var k := FiledRow(w, f);
      hide ServerInv, RowClocksIdentify, DeviceInv;
      assert Backs(account, w, k, d.replica[i]);
    }
  }

  lemma SameContentSameId(a: Envelope, b: Envelope)
    requires SameContent(a, b)
    ensures IdOf(a) == IdOf(b)
  {
    assert IdOf(a) == IdOf(a.Content()) && IdOf(b) == IdOf(b.Content());
  }

  /**
   However edits, pushes, pages, restarts, shares and other people's writes interleave, and under
   however many accounts one id is filed: once every device has pushed what it wrote and drained
   its pulls, and none has anything lost below its cursor, each replica agrees with the server.
   */
  lemma DevicesConverge(cfg: Config, account: Text, db: Db, names: set<Text>, actions: seq<Action>)
    requires var w := Live(cfg, account, Begin(account, db, names), actions);
             Settled(account, w) && NoDeviceLost(account, w) && RowClocksIdentify(w.filed, w.met)
    ensures var w := Live(cfg, account, Begin(account, db, names), actions);
            forall name | name in w.devices :: Agrees(account, w, w.devices[name].replica)
  {
    var w := Live(cfg, account, Begin(account, db, names), actions);
    InvAtTheStart(account, db, names);
    InvHoldsThroughout(cfg, account, Begin(account, db, names), actions);
    forall name | name in w.devices ensures Agrees(account, w, w.devices[name].replica) {
      DeviceAgrees(account, w, w.devices[name]);
    }
  }

  // ---- devices with each other ------------------------------------------------------------

  /** One clock on one id is one version, under whichever of the accounts met. */
  ghost predicate IdClocksIdentify(filed: set<Filing>, met: set<Text>) {
    forall f, g | f in filed && g in filed && f.account in met && g.account in met
                  && IdOf(f.env) == IdOf(g.env) && ClockOf(f.env) == ClockOf(g.env) ::
      SameContent(f.env, g.env)
  }

  /** The account may see every row of this id. */
  ghost predicate AllSeen(account: Text, w: World, i: Id) {
    forall k | k in w.db.records && k.account in w.met && IdOfKey(k) == i ::
      VisibleTo(w.db.shares, account, k, w.db.records[k])
  }

  lemma OneReplicaCoversAnother(account: Text, w: World, one: map<Id, Envelope>, other: map<Id, Envelope>, i: Id)
    requires Agrees(account, w, one) && Agrees(account, w, other) && AllSeen(account, w, i) && i in one
    ensures i in other && !Loses(other[i], one[i])
  {
    var k :| Backs(account, w, k, one[i]);
    SameContentSameClock(one[i], w.db.records[k]);
  }

  lemma SameClockSameVersion(account: Text, w: World, d: Device, e: Device, i: Id)
    requires DeviceInv(account, w.db, w.filed, w.met, d) && DeviceInv(account, w.db, w.filed, w.met, e)
    requires d.pending == {} && e.pending == {} && IdClocksIdentify(w.filed, w.met)
    requires i in d.replica && i in e.replica && ClockOf(d.replica[i]) == ClockOf(e.replica[i])
    ensures SameContent(d.replica[i], e.replica[i])
  {
    var f := FiledSource(w.filed, w.met, i, d.replica[i]);
    var g := FiledSource(w.filed, w.met, i, e.replica[i]);
  }

  /** On every id whose rows the account may all see, its devices hold one and the same version, or none. */
  lemma DevicesAgreeWithEachOther(cfg: Config, account: Text, db: Db, names: set<Text>, actions: seq<Action>,
                                  one: Text, other: Text, i: Id)
    requires var w := Live(cfg, account, Begin(account, db, names), actions);
             && Settled(account, w) && NoDeviceLost(account, w) && IdClocksIdentify(w.filed, w.met)
             && one in w.devices && other in w.devices && AllSeen(account, w, i)
    ensures var w := Live(cfg, account, Begin(account, db, names), actions);
            var here, there := w.devices[one].replica, w.devices[other].replica;
            && (i in here <==> i in there)
            && (i in here && i in there ==> SameContent(here[i], there[i]))
  {
    var w := Live(cfg, account, Begin(account, db, names), actions);
    assert RowClocksIdentify(w.filed, w.met);
    DevicesConverge(cfg, account, db, names, actions);
    InvAtTheStart(account, db, names);
    InvHoldsThroughout(cfg, account, Begin(account, db, names), actions);
    var here, there := w.devices[one].replica, w.devices[other].replica;
    assert Agrees(account, w, here) && Agrees(account, w, there);
    hide Agrees, AllSeen, Live, IdClocksIdentify, RowClocksIdentify, ServerInv, DeviceInv;
    if i in here { OneReplicaCoversAnother(account, w, here, there, i); }
    if i in there { OneReplicaCoversAnother(account, w, there, here, i); }
    if i in here && i in there {
      NotYounger(here[i], there[i], here[i]);
      SameClockSameVersion(account, w, w.devices[one], w.devices[other], i);
    }
  }

  // ---- ids filed under one account only ------------------------------------------------------

  /** Where a visible row's id is filed under no other account met, the replicas hold exactly the stored version. */
  lemma ReplicasHoldTheRows(cfg: Config, account: Text, db: Db, names: set<Text>, actions: seq<Action>,
                            name: Text, k: RecordKey)
    requires var w := Live(cfg, account, Begin(account, db, names), actions);
             && Settled(account, w) && NoDeviceLost(account, w) && RowClocksIdentify(w.filed, w.met)
             && name in w.devices && k in w.db.records && VisibleTo(w.db.shares, account, k, w.db.records[k])
             && forall j | j in w.db.records && j.account in w.met && IdOfKey(j) == IdOfKey(k) :: j == k
    ensures var w := Live(cfg, account, Begin(account, db, names), actions);
            var replica := w.devices[name].replica;
            IdOfKey(k) in replica && SameContent(replica[IdOfKey(k)], w.db.records[k])
  {
    var w := Live(cfg, account, Begin(account, db, names), actions);
    DevicesConverge(cfg, account, db, names, actions);
    var replica := w.devices[name].replica;
    assert Agrees(account, w, replica);
    var j :| Backs(account, w, j, replica[IdOfKey(k)]);
  }

  // ---- an account in nobody's groups ---------------------------------------------------------

  ghost predicate NoMemberships(account: Text, db: Db) { forall s | s in db.shares :: s.user != account }

  /** The devices edit personal records only, and nobody makes the account a member. */
  predicate KeepsToItself(account: Text, action: Action) {
    match action
    case Edit(_, env) => env.keyRef.Personal?
    case Elsewhere(op) => op.Share? ==> op.user != account
    case _ => true
  }

  ghost predicate Private(account: Text, w: World) {
    && NoMemberships(account, w.db) && w.met == {account}
    && forall name, e | name in w.devices && e in w.devices[name].pending :: e.keyRef.Personal?
  }

  lemma ActKeepsPrivate(cfg: Config, account: Text, w: World, action: Action)
    requires Private(account, w) && KeepsToItself(account, action)
    ensures FindsAllCaughtUp(account, w, action) && Private(account, Act(cfg, account, w, action))
  {}

  lemma {:induction false} PrivateStaysPrivate(cfg: Config, account: Text, w: World, actions: seq<Action>)
    requires Private(account, w) && forall a | a in actions :: KeepsToItself(account, a)
    ensures NoneLate(cfg, account, w, actions) && Private(account, Live(cfg, account, w, actions))
  {
    hide Act, Private, FindsAllCaughtUp, KeepsToItself;
    if actions != [] {
      var rest, last := actions[..|actions| - 1], actions[|actions| - 1];
      assert last in actions && forall a | a in rest :: a in actions;
      PrivateStaysPrivate(cfg, account, w, rest);
      ActKeepsPrivate(cfg, account, Live(cfg, account, w, rest), last);
    }
  }

  /** The replica holds exactly the account's rows, each with the stored contents. */
  ghost predicate Mirrors(account: Text, db: Db, replica: map<Id, Envelope>) {
    forall i: Id ::
      var k := RecordKey(account, i.kind, i.id);
      && (i in replica <==> k in db.records)
      && (i in replica && k in db.records ==> SameContent(replica[i], db.records[k]))
  }

  /** For such an account the replicas are exactly its rows, and no assumption on ids is needed. */
  lemma PrivateDevicesConverge(cfg: Config, account: Text, db: Db, names: set<Text>, actions: seq<Action>)
    requires NoMemberships(account, db) && forall a | a in actions :: KeepsToItself(account, a)
    requires var w := Live(cfg, account, Begin(account, db, names), actions);
             Settled(account, w) && RowClocksIdentify(w.filed, {account})
    ensures var w := Live(cfg, account, Begin(account, db, names), actions);
            forall name | name in w.devices :: Mirrors(account, w.db, w.devices[name].replica)
  {
    var w := Live(cfg, account, Begin(account, db, names), actions);
    PrivateStaysPrivate(cfg, account, Begin(account, db, names), actions);
    InvAtTheStart(account, db, names);
    NoneLateLosesNothing(cfg, account, Begin(account, db, names), actions);
    DevicesConverge(cfg, account, db, names, actions);
    forall name | name in w.devices ensures Mirrors(account, w.db, w.devices[name].replica) {
      var replica := w.devices[name].replica;
      assert Agrees(account, w, replica);
      forall i: Id
        ensures var k := RecordKey(account, i.kind, i.id);
                && (i in replica <==> k in w.db.records)
                && (i in replica && k in w.db.records ==> SameContent(replica[i], w.db.records[k]))
      {
        var k := RecordKey(account, i.kind, i.id);
        assert IdOfKey(k) == i;
        if i in replica { var j :| Backs(account, w, j, replica[i]); }
        if k in w.db.records { assert VisibleTo(w.db.shares, account, k, w.db.records[k]); }
      }
    }
  }
}

/**
 Whole runs of the account handlers, each served as one atomic step, with fresh token draws:
 tokens are conserved, spent and revoked ones stay dead, and the blobs handed out are those
 last handed in.
 */
module Sessions {
  import opened Record
  import opened Accounts
  import opened Auth

  function Serve(cfg: Config, db: AuthDb, calls: seq<Call>): AuthDb {
    if calls == [] then db else Handle(Serve(cfg, db, calls[..|calls| - 1]), cfg, calls[|calls| - 1]).0
  }

  /** The two tokens drawn are new, and differ. */
  ghost predicate FreshDraw(db: AuthDb, call: Call) {
    && Digest(call.draw.access) !in db.minted
    && Digest(call.draw.refresh) !in db.minted
    && call.draw.access != call.draw.refresh
  }

  ghost predicate FreshDraws(cfg: Config, db: AuthDb, calls: seq<Call>) {
    calls == [] ||
    (&& FreshDraws(cfg, db, calls[..|calls| - 1])
     && FreshDraw(Serve(cfg, db, calls[..|calls| - 1]), calls[|calls| - 1]))
  }

  // ---- what one call does to the tokens --------------------------------------------------

  function TokensOf(db: AuthDb, account: string, kind: TokenKind): set<Digest> {
    set h | h in db.tokens && db.tokens[h].account == account && db.tokens[h].kind == kind
  }

  predicate Opens(request: Request) { request.Register? || request.Login? || request.Recover? }

  predicate Closes(request: Request) { request.Rewrap? || request.Logout? }

  function Bearer(request: Request): string { if Closes(request) then request.bearer else "" }

  lemma OneTokenMore(db: AuthDb, h: Digest, id: string, kind: TokenKind, expiresAt: int)
    requires id in db.accounts && h !in db.minted
    ensures var after := PutToken(db, h, id, kind, expiresAt);
            forall other, k :: TokensOf(after, other, k)
                               == if other == id && k == kind then TokensOf(db, other, k) + {h}
                                  else TokensOf(db, other, k)
  {}

  /** Every token row after the call was there before it, or is one of the two just issued. */
  lemma IssuedTokens(db: AuthDb, cfg: Config, id: string, view: Account, now: int, draw: Draw, device: Device)
    requires id in db.accounts
    requires Digest(draw.access) !in db.minted && Digest(draw.refresh) !in db.minted && draw.access != draw.refresh
    ensures var after := IssueSession(db, cfg, id, view, now, draw, device).0;
            && TokensOf(after, id, Access) == TokensOf(db, id, Access) + {Digest(draw.access)}
            && TokensOf(after, id, Refresh) == TokensOf(db, id, Refresh) + {Digest(draw.refresh)}
            && (forall other, kind | other != id :: TokensOf(after, other, kind) == TokensOf(db, other, kind))
  {
    var h, g, t, u := Digest(draw.access), Digest(draw.refresh), now + cfg.accessTtlSecs * 1000, now + REFRESH_TTL_MS;
    var one := PutToken(db, h, id, Access, t);
    OneTokenMore(db, h, id, Access, t);
    OneTokenMore(one, g, id, Refresh, u);
    var both, after := PutToken(one, g, id, Refresh, u), IssueSession(db, cfg, id, view, now, draw, device).0;
    assert after.tokens == both.tokens;
    hide PutToken, IssueSession;
    assert forall other, kind :: TokensOf(after, other, kind) == TokensOf(both, other, kind);
  }

  /** Issuing a session touches no account, and no device but the one named. */
  lemma IssuingLeaves(cfg: Config, now: int, draw: Draw)
    ensures forall db: AuthDb, id, view, device | id in db.accounts ::
              var (after, reply) := IssueSession(db, cfg, id, view, now, draw, device);
              && after.accounts == db.accounts
              && after.devices == (if device.id == "" then db.devices
                                   else db.devices[DeviceKey(id, device.id) := DeviceRow(device.name, now)])
              && reply.SignedIn? && reply.session.accountId == id
  {}

  lemma IssuedCounts(db: AuthDb, cfg: Config, id: string, view: Account, now: int, draw: Draw,
                     device: Device, account: string)
    requires id in db.accounts
    requires Digest(draw.access) !in db.minted && Digest(draw.refresh) !in db.minted && draw.access != draw.refresh
    ensures var after := IssueSession(db, cfg, id, view, now, draw, device).0;
            var more := if account == id then 1 else 0;
            && |TokensOf(after, account, Access)| == |TokensOf(db, account, Access)| + more
            && |TokensOf(after, account, Refresh)| == |TokensOf(db, account, Refresh)| + more
  {
    IssuedTokens(db, cfg, id, view, now, draw, device);
  }

  // ---- conservation -------------------------------------------------------------------------

  /** Sessions opened for an account, and refreshes, since its last logout or rewrap. */
  datatype Tally = Tally(signIns: nat, refreshes: nat)

  function Count(t: Tally, account: string, before: AuthDb, call: Call, reply: Reply): Tally {
    if reply.SignedIn? && reply.session.accountId == account then
      if Opens(call.request) then t.(signIns := t.signIns + 1) else t.(refreshes := t.refreshes + 1)
    else if reply.Ok? && CallerOf(before, Bearer(call.request), call.now) == Some(account) then Tally(0, 0)
    else t
  }

  function Tallied(cfg: Config, calls: seq<Call>, account: string): Tally {
    if calls == [] then Tally(0, 0) else
      var before := Serve(cfg, NOBODY, calls[..|calls| - 1]);
      var last := calls[|calls| - 1];
      Count(Tallied(cfg, calls[..|calls| - 1], account), account, before, last, Handle(before, cfg, last).1)
  }

  ghost predicate Conserved(db: AuthDb, account: string, t: Tally) {
    && |TokensOf(db, account, Refresh)| == t.signIns
    && |TokensOf(db, account, Access)| == t.signIns + t.refreshes
  }

  lemma OpeningConserves(db: AuthDb, cfg: Config, call: Call, account: string, t: Tally)
    requires Conserved(db, account, t) && FreshDraw(db, call) && Opens(call.request)
    ensures var (after, reply) := Handle(db, cfg, call);
            Conserved(after, account, Count(t, account, db, call, reply))
  {
    hide Normalise, NoCase, ByEmail, NewAccount, MaterialOf, ValidEmail, VerifyAuthKey, RecoveryView;
    var now, draw := call.now, call.draw;
    match call.request
    case Register(email, authKey, recoveryAuthKey, material, recovery) =>
      var created := CreateAccount(cfg.folding, db, draw.accountId,
        NewAccount(email, material.accountPublic, authKey, recoveryAuthKey, material, recovery, draw));
      if created.Some? {
        var with := created.value;
        assert forall a, kind :: TokensOf(with, a, kind) == TokensOf(db, a, kind);
        IssuedCounts(with, cfg, draw.accountId, with.accounts[draw.accountId], now, draw, call.device, account);
      }
    case Login(email, _) =>
      var id := ByEmail(cfg.folding, db, email);
      if id.Some? { IssuedCounts(db, cfg, id.value, db.accounts[id.value], now, draw, call.device, account); }
    case Recover(email, _) =>
      var id := ByEmail(cfg.folding, db, email);
      if id.Some? {
        IssuedCounts(db, cfg, id.value, RecoveryView(db.accounts[id.value]), now, draw, call.device, account);
      }
  }

  lemma RefreshingConserves(db: AuthDb, cfg: Config, call: Call, account: string, t: Tally)
    requires Conserved(db, account, t) && FreshDraw(db, call) && call.request.RefreshWith?
    ensures var (after, reply) := Handle(db, cfg, call);
            Conserved(after, account, Count(t, account, db, call, reply))
  {
    var h := Digest(call.request.token);
    var (consumed, found) := ConsumeToken(db, h, Refresh, call.now);
    if found.Some? {
      var id := found.value;
      assert TokensOf(consumed, id, Refresh) == TokensOf(db, id, Refresh) - {h};
      assert TokensOf(consumed, id, Access) == TokensOf(db, id, Access);
      if account != id {
        assert TokensOf(consumed, account, Refresh) == TokensOf(db, account, Refresh);
        assert TokensOf(consumed, account, Access) == TokensOf(db, account, Access);
      }
      IssuedCounts(consumed, cfg, id, consumed.accounts[id], call.now, call.draw, NO_DEVICE, account);
    }
  }

  lemma ClosingConserves(db: AuthDb, cfg: Config, call: Call, account: string, t: Tally)
    requires Conserved(db, account, t) && Closes(call.request)
    ensures var (after, reply) := Handle(db, cfg, call);
            Conserved(after, account, Count(t, account, db, call, reply))
  {
    var after := Handle(db, cfg, call).0;
    var caller := CallerOf(db, call.request.bearer, call.now);
    if caller.Some? {
      forall kind: TokenKind
        ensures TokensOf(after, account, kind) == if caller.value == account then {} else TokensOf(db, account, kind) {}
    }
  }

  /**
   At every point of a run an account's stored refresh tokens are exactly its sign-ins since
   its last logout or rewrap, and its access tokens those plus its refreshes: refreshing trades
   one for one, and nothing leaks or vanishes.
   */
  lemma {:induction false} TokensAreConserved(cfg: Config, calls: seq<Call>, account: string)
    requires FreshDraws(cfg, NOBODY, calls)
    ensures Conserved(Serve(cfg, NOBODY, calls), account, Tallied(cfg, calls, account))
  {
    if calls != [] {
      hide Handle, Count, Conserved;
      var rest, last := calls[..|calls| - 1], calls[|calls| - 1];
      var db := Serve(cfg, NOBODY, rest);
      TokensAreConserved(cfg, rest, account);
      if Opens(last.request) {
        OpeningConserves(db, cfg, last, account, Tallied(cfg, rest, account));
      } else if Closes(last.request) {
        ClosingConserves(db, cfg, last, account, Tallied(cfg, rest, account));
      } else {
        RefreshingConserves(db, cfg, last, account, Tallied(cfg, rest, account));
      }
    }
  }

  // ---- spent and revoked tokens stay dead ---------------------------------------------------

  lemma IssuingSparesOthers(cfg: Config, now: int, draw: Draw, h: Digest)
    requires h != Digest(draw.access) && h != Digest(draw.refresh)
    ensures forall db: AuthDb, id, view, device | id in db.accounts ::
              var after := IssueSession(db, cfg, id, view, now, draw, device).0;
              && db.minted <= after.minted
              && (h in after.tokens <==> h in db.tokens)
              && (h in db.tokens ==> after.tokens[h] == db.tokens[h])
  {}

  /** A call may drop an old token, but it never brings one back or gives it to somebody else. */
  lemma CallNeverReissues(db: AuthDb, cfg: Config, call: Call, h: Digest)
    requires FreshDraw(db, call) && h in db.minted
    ensures var after := Handle(db, cfg, call).0;
            && db.minted <= after.minted
            && (h in after.tokens ==>
                  && h in db.tokens
                  && after.tokens[h].account == db.tokens[h].account
                  && after.tokens[h].kind == db.tokens[h].kind)
  {
    IssuingSparesOthers(cfg, call.now, call.draw, h);
    hide IssueSession, Normalise, NoCase, ByEmail, NewAccount, MaterialOf, ValidEmail, VerifyAuthKey, RecoveryView;
  }

  lemma {:induction false} TokensAreNeverReissued(cfg: Config, db: AuthDb, calls: seq<Call>, h: Digest)
    requires FreshDraws(cfg, db, calls) && h in db.minted
    ensures var after := Serve(cfg, db, calls);
            && h in after.minted
            && (h in after.tokens ==>
                  && h in db.tokens
                  && after.tokens[h].account == db.tokens[h].account
                  && after.tokens[h].kind == db.tokens[h].kind)
  {
    hide Handle;
    if calls != [] {
      var rest, last := calls[..|calls| - 1], calls[|calls| - 1];
      TokensAreNeverReissued(cfg, db, rest, h);
      CallNeverReissues(Serve(cfg, db, rest), cfg, last, h);
    }
  }

  /** A refresh token that has worked once never works again, whatever happens in between. */
  lemma {:induction false} RefreshTokensWorkOnce(cfg: Config, db: AuthDb, first: Call, between: seq<Call>, again: Call)
    requires FreshDraw(db, first) && first.request.RefreshWith? && again.request == first.request
    requires Handle(db, cfg, first).1.SignedIn?
    requires FreshDraws(cfg, Handle(db, cfg, first).0, between)
    ensures Handle(Serve(cfg, Handle(db, cfg, first).0, between), cfg, again).1 == Failed(Unauthorised)
  {
    var h := Digest(first.request.token);
    var after := Handle(db, cfg, first).0;
    assert h in db.tokens && h in after.minted && h !in after.tokens;
    TokensAreNeverReissued(cfg, after, between, h);
  }

  /**
   After a logout or a password change no token minted before it stands for that account any
   more: not as a bearer, not for a refresh, at no later time.
   */
  lemma OldSessionsStayEnded(cfg: Config, db: AuthDb, ending: Call, between: seq<Call>, token: string, now: int)
    requires Closes(ending.request) && Handle(db, cfg, ending).1 == Ok
    requires FreshDraws(cfg, Handle(db, cfg, ending).0, between)
    requires Digest(token) in db.minted
    ensures var account := CallerOf(db, ending.request.bearer, ending.now);
            var later := Serve(cfg, Handle(db, cfg, ending).0, between);
            && account.Some?
            && TakeToken(later, Digest(token), Access, now) != account
            && TakeToken(later, Digest(token), Refresh, now) != account
  {
    TokensAreNeverReissued(cfg, Handle(db, cfg, ending).0, between, Digest(token));
  }

  // ---- how long the tokens handed out stand -----------------------------------------------

  /** In the run of `calls` the account logs out or changes its password. */
  ghost predicate Ended(cfg: Config, db: AuthDb, calls: seq<Call>, account: string) {
    calls != [] &&
    var rest, last := calls[..|calls| - 1], calls[|calls| - 1];
    || Ended(cfg, db, rest, account)
    || Ends(cfg, Serve(cfg, db, rest), last, account)
  }

  ghost predicate Ends(cfg: Config, db: AuthDb, call: Call, account: string) {
    && Closes(call.request) && Handle(db, cfg, call).1 == Ok
    && CallerOf(db, call.request.bearer, call.now) == Some(account)
  }

  /** In the run of `calls` the token is traded for a new session. */
  ghost predicate Used(cfg: Config, db: AuthDb, calls: seq<Call>, token: string) {
    calls != [] &&
    var rest, last := calls[..|calls| - 1], calls[|calls| - 1];
    || Used(cfg, db, rest, token)
    || Uses(cfg, Serve(cfg, db, rest), last, token)
  }

  ghost predicate Uses(cfg: Config, db: AuthDb, call: Call, token: string) {
    call.request == RefreshWith(token) && Handle(db, cfg, call).1.SignedIn?
  }

  lemma IssuingStores(cfg: Config, now: int, draw: Draw)
    requires draw.access != draw.refresh
    ensures forall db: AuthDb, id, view, device |
              id in db.accounts && Digest(draw.access) !in db.minted && Digest(draw.refresh) !in db.minted ::
              var (after, reply) := IssueSession(db, cfg, id, view, now, draw, device);
              && reply.SignedIn? && reply.session.accountId == id
              && Stored(after, reply.session, now, now + cfg.accessTtlSecs * 1000)
  {}

  /** Both tokens are in the table, each for what it is handed out as and with its time. */
  predicate Stored(db: AuthDb, session: Session, now: int, accessEnds: int) {
    var access, refresh := Digest(session.accessToken), Digest(session.refreshToken);
    && access in db.tokens && refresh in db.tokens
    && db.tokens[access] == TokenRow(session.accountId, Access, accessEnds)
    && db.tokens[refresh] == TokenRow(session.accountId, Refresh, now + 90 * 24 * 60 * 60 * 1000)
  }

  lemma HandedOutIsStored(cfg: Config, db: AuthDb, call: Call)
    requires FreshDraw(db, call) && Handle(db, cfg, call).1.SignedIn?
    ensures var (after, reply) := Handle(db, cfg, call);
            Stored(after, reply.session, call.now, call.now + cfg.accessTtlSecs * 1000)
  {
    IssuingStores(cfg, call.now, call.draw);
    hide IssueSession, Stored, Normalise, NoCase, ByEmail, NewAccount, MaterialOf;
    hide ValidEmail, VerifyAuthKey, RecoveryView;
  }

  /** A stored token goes only when its account ends its sessions or it is itself used. */
  lemma CallKeepsToken(cfg: Config, db: AuthDb, call: Call, token: string)
    requires FreshDraw(db, call) && Digest(token) in db.tokens
    ensures var after, h := Handle(db, cfg, call).0, Digest(token);
            && (h in after.tokens <==> !Ends(cfg, db, call, db.tokens[h].account) && !Uses(cfg, db, call, token))
            && (h in after.tokens ==> after.tokens[h] == db.tokens[h])
  {
    IssuingSparesOthers(cfg, call.now, call.draw, Digest(token));
    IssuingLeaves(cfg, call.now, call.draw);
    hide IssueSession, Normalise, NoCase, ByEmail, NewAccount, MaterialOf, ValidEmail, VerifyAuthKey, RecoveryView;
  }

  lemma {:induction false} TokenIsThereIff(cfg: Config, db: AuthDb, calls: seq<Call>, token: string)
    requires FreshDraws(cfg, db, calls) && Digest(token) in db.tokens
    ensures var after, h := Serve(cfg, db, calls), Digest(token);
            && (h in after.tokens <==> !Ended(cfg, db, calls, db.tokens[h].account) && !Used(cfg, db, calls, token))
            && (h in after.tokens ==> after.tokens[h] == db.tokens[h])
            && h in after.minted
  {
    hide Handle, Ends, Uses;
    if calls != [] {
      var rest, last := calls[..|calls| - 1], calls[|calls| - 1];
      var before, h := Serve(cfg, db, rest), Digest(token);
      TokenIsThereIff(cfg, db, rest, token);
      CallNeverReissues(before, cfg, last, h);
      if h in before.tokens { CallKeepsToken(cfg, before, last, token); }
    }
  }

  lemma RefreshesIff(cfg: Config, db: AuthDb, token: string, call: Call)
    requires call.request == RefreshWith(token)
    ensures var reply := Handle(db, cfg, call).1;
            var h := Digest(token);
            && (reply.SignedIn?
                <==> h in db.tokens && db.tokens[h].kind == Refresh && call.now < db.tokens[h].expiresAt)
            && (reply.SignedIn? && h in db.tokens ==> reply.session.accountId == db.tokens[h].account)
  {}

  lemma ClosesIff(cfg: Config, db: AuthDb, call: Call)
    requires Closes(call.request)
    ensures var h := Digest(call.request.bearer);
            Handle(db, cfg, call).1 == Ok
            <==> h in db.tokens && db.tokens[h].kind == Access && call.now < db.tokens[h].expiresAt
  {}

  /** A refresh that works is one the row's being a refresh token allows. */
  lemma {:induction false} AccessTokensAreNotUsed(cfg: Config, db: AuthDb, calls: seq<Call>, token: string)
    requires FreshDraws(cfg, db, calls) && Digest(token) in db.tokens && db.tokens[Digest(token)].kind == Access
    ensures !Used(cfg, db, calls, token)
  {
    hide Handle;
    if calls != [] {
      var rest, last := calls[..|calls| - 1], calls[|calls| - 1];
      AccessTokensAreNotUsed(cfg, db, rest, token);
      TokenIsThereIff(cfg, db, rest, token);
      TokensAreNeverReissued(cfg, db, rest, Digest(token));
      if last.request == RefreshWith(token) { RefreshesIff(cfg, Serve(cfg, db, rest), token, last); }
    }
  }

  /**
   After any session handed out and any calls since: the access token is good for a logout or a
   password change, and as a bearer, exactly for the time configured, unless the account has
   logged out or changed its password; the refresh token is good for a refresh, into the same
   account, exactly for ninety days, unless that happened or it was used; and neither is good
   for what the other is.
   */
  lemma TokensStandIff(cfg: Config, db: AuthDb, first: Call, between: seq<Call>, next: Call)
    requires FreshDraw(db, first) && Handle(db, cfg, first).1.SignedIn?
    requires FreshDraws(cfg, Handle(db, cfg, first).0, between)
    ensures var (after, reply) := Handle(db, cfg, first);
            var session := reply.session;
            var later := Serve(cfg, after, between);
            var answer := Handle(later, cfg, next).1;
            var ended := Ended(cfg, after, between, session.accountId);
            var access := next.now < first.now + cfg.accessTtlSecs * 1000 && !ended;
            var refresh := next.now < first.now + 90 * 24 * 60 * 60 * 1000 && !ended
                           && !Used(cfg, after, between, session.refreshToken);
            && (CallerOf(later, session.accessToken, next.now) == Some(session.accountId) <==> access)
            && (CallerOf(later, session.accessToken, next.now).Some? <==> access)
            && (Closes(next.request) && next.request.bearer == session.accessToken ==> (answer == Ok <==> access))
            && (next.request == RefreshWith(session.refreshToken) ==>
                  (answer.SignedIn? <==> refresh) && (refresh ==> answer.session.accountId == session.accountId))
            && (next.request == RefreshWith(session.accessToken) ==> !answer.SignedIn?)
            && CallerOf(later, session.refreshToken, next.now) == None
  {
    var (after, reply) := Handle(db, cfg, first);
    var session := reply.session;
    var later := Serve(cfg, after, between);
    HandedOutIsStored(cfg, db, first);
    hide Handle, Serve, Ended, Used;
    TokenIsThereIff(cfg, after, between, session.accessToken);
    TokenIsThereIff(cfg, after, between, session.refreshToken);
    AccessTokensAreNotUsed(cfg, after, between, session.accessToken);
    if Closes(next.request) { ClosesIff(cfg, later, next); }
    if next.request.RefreshWith? { RefreshesIff(cfg, later, next.request.token, next); }
  }

  // ---- the credential handoff ------------------------------------------------------------------

  /** What an account was last given: at registration, or by its latest rewrap. */
  datatype Handed = Handed(
    email: string,
    authKey: string,
    recoveryAuthKey: string,
    accountPublic: string,
    material: KeyMaterial,
    recovery: KeyMaterial)

  function HandedIn(cfg: Config, h: Option<Handed>, account: string, before: AuthDb, call: Call,
                    reply: Reply): Option<Handed> {
    match call.request
    case Register(email, authKey, recoveryAuthKey, material, recovery) =>
      if reply.SignedIn? && reply.session.accountId == account
      then Some(Handed(cfg.folding.lower(cfg.folding.trim(email)), authKey, recoveryAuthKey,
                       material.accountPublic, material, recovery))
      else h
    case Rewrap(bearer, authKey, recoveryAuthKey, material, recovery) =>
      if reply.Ok? && h.Some? && CallerOf(before, bearer, call.now) == Some(account)
      then Some(Handed(h.value.email, authKey, recoveryAuthKey, h.value.accountPublic, material, recovery))
      else h
    case _ => h
  }

  function LastHanded(cfg: Config, calls: seq<Call>, account: string): Option<Handed> {
    if calls == [] then None else
      var before := Serve(cfg, NOBODY, calls[..|calls| - 1]);
      var last := calls[|calls| - 1];
      HandedIn(cfg, LastHanded(cfg, calls[..|calls| - 1], account), account, before, last, Handle(before, cfg, last).1)
  }

  /** The stored row is the encoding of what was handed in. */
  ghost predicate Holds(db: AuthDb, account: string, h: Option<Handed>) {
    && (account in db.accounts <==> h.Some?)
    && (h.Some? ==>
          var row := db.accounts[account];
          && row.email == h.value.email
          && row.authHash.key == h.value.authKey
          && row.recoveryAuthHash.key == h.value.recoveryAuthKey
          && row.accountPublic == h.value.accountPublic
          && row.wrappedAccountSecret == Encode(h.value.material.wrappedAccountSecret)
          && row.wrappedPersonalKey == Encode(h.value.material.wrappedPersonalKey)
          && row.recoveryAccountSecret == Encode(h.value.recovery.wrappedAccountSecret)
          && row.recoveryPersonalKey == Encode(h.value.recovery.wrappedPersonalKey))
  }

  lemma CallKeepsHolding(db: AuthDb, cfg: Config, call: Call, account: string, h: Option<Handed>)
    requires Holds(db, account, h)
    ensures var (after, reply) := Handle(db, cfg, call);
            Holds(after, account, HandedIn(cfg, h, account, db, call, reply))
  {
    IssuingLeaves(cfg, call.now, call.draw);
    hide IssueSession, NoCase, ByEmail, Encode, MaterialOf, ValidEmail, VerifyAuthKey, RecoveryView;
  }

  lemma {:induction false} RowsHoldWhatWasHandedIn(cfg: Config, calls: seq<Call>, account: string)
    ensures Holds(Serve(cfg, NOBODY, calls), account, LastHanded(cfg, calls, account))
  {
    if calls != [] {
      hide Handle, HandedIn, Holds;
      var rest := calls[..|calls| - 1];
      RowsHoldWhatWasHandedIn(cfg, rest, account);
      CallKeepsHolding(Serve(cfg, NOBODY, rest), cfg, calls[|calls| - 1], account, LastHanded(cfg, rest, account));
    }
  }

  function KeyOffered(request: Request): string
    requires request.Login? || request.Recover?
  {
    if request.Login? then request.authKey else request.recoveryAuthKey
  }

  /** The request names an account and offers the key last handed in for its door. */
  ghost predicate Entitled(cfg: Config, calls: seq<Call>, request: Request, account: string)
    requires request.Login? || request.Recover?
  {
    var h := LastHanded(cfg, calls, account);
    && h.Some?
    && SameLetters(h.value.email, cfg.folding.lower(cfg.folding.trim(request.email)))
    && KeyOffered(request) == if request.Login? then h.value.authKey else h.value.recoveryAuthKey
  }

  /**
   After any run a sign-in or recovery succeeds exactly when the limiter lets it through and it
   offers the key last handed in for that address: earlier passwords and codes are dead, and
   neither door takes the other's key.
   */
  lemma {:induction false} OnlyTheLatestKeyOpens(cfg: Config, calls: seq<Call>, call: Call, account: string)
    requires call.request.Login? || call.request.Recover?
    ensures var reply := Handle(Serve(cfg, NOBODY, calls), cfg, call).1;
            reply.SignedIn? && reply.session.accountId == account
            <==> call.withinLimit && Entitled(cfg, calls, call.request, account)
  {
    var db := Serve(cfg, NOBODY, calls);
    RowsHoldWhatWasHandedIn(cfg, calls, account);
    var wanted := Normalise(cfg.folding, call.request.email);
    EmailIsUnique(db.accounts, wanted);
    if account in db.accounts { SameAddressIff(db.accounts[account].email, wanted); }
    hide Serve, LastHanded, NoCase, SameLetters, MaterialOf;
  }

  /** What encoding and storing does to the blobs of one door: nothing, if the nonces have no dots. */
  predicate DotFree(m: KeyMaterial) {
    '.' !in m.wrappedAccountSecret.nonce && '.' !in m.wrappedPersonalKey.nonce
  }

  /**
   After any run: signing in with the password returns exactly the password-wrapped blobs last
   handed in, recovering exactly the recovery-wrapped ones, refreshing the former, and each the
   public key of the registration - if and only if the blobs' nonces have no dots.
   */
  lemma {:induction false} SignInReturnsWhatWasHandedIn(cfg: Config, calls: seq<Call>, call: Call)
    requires !call.request.Register?
    requires var (after, reply) := Handle(Serve(cfg, NOBODY, calls), cfg, call); reply.SignedIn?
    ensures var session := Handle(Serve(cfg, NOBODY, calls), cfg, call).1.session;
            var handed := LastHanded(cfg, calls, session.accountId);
            && handed.Some?
            && session.email == handed.value.email && session.expiresIn == cfg.accessTtlSecs
            && session.keyMaterial.accountPublic == handed.value.accountPublic
            && (var wanted := if call.request.Recover? then handed.value.recovery else handed.value.material;
                (&& session.keyMaterial.wrappedAccountSecret == wanted.wrappedAccountSecret
                 && session.keyMaterial.wrappedPersonalKey == wanted.wrappedPersonalKey)
                <==> DotFree(wanted))
  {
    var db := Serve(cfg, NOBODY, calls);
    var session := Handle(db, cfg, call).1.session;
    var id := session.accountId;
    RowsHoldWhatWasHandedIn(cfg, calls, id);
    var handed := LastHanded(cfg, calls, id).value;
    DecodeInvertsEncodeIff(handed.material.wrappedAccountSecret);
    DecodeInvertsEncodeIff(handed.material.wrappedPersonalKey);
    DecodeInvertsEncodeIff(handed.recovery.wrappedAccountSecret);
    DecodeInvertsEncodeIff(handed.recovery.wrappedPersonalKey);
  }

  // ---- what is refused, and how ---------------------------------------------------------------

  /** Some account has the address, in either ASCII case, or the id drawn. */
  ghost predicate AddressTaken(cfg: Config, calls: seq<Call>, email: string, id: string) {
    exists account :: LastHanded(cfg, calls, account).Some?
                      && (account == id || SameLetters(LastHanded(cfg, calls, account).value.email, email))
  }

  ghost predicate LooksLikeAnAddress(cfg: Config, email: string) {
    var e := cfg.folding.trim(email);
    3 <= cfg.folding.size(e) <= 254 && '@' in e && ' ' !in e
  }

  lemma AddressTakenIff(cfg: Config, calls: seq<Call>, email: string, id: string)
    ensures var db := Serve(cfg, NOBODY, calls);
            AddressTaken(cfg, calls, email, id)
            <==> id in db.accounts || exists a | a in db.accounts :: SameAddress(db.accounts[a].email, email)
  {
    var db := Serve(cfg, NOBODY, calls);
    forall account
      ensures account in db.accounts <==> LastHanded(cfg, calls, account).Some?
      ensures account in db.accounts ==>
                (SameAddress(db.accounts[account].email, email)
                 <==> SameLetters(LastHanded(cfg, calls, account).value.email, email))
    {
      RowsHoldWhatWasHandedIn(cfg, calls, account);
      if account in db.accounts { SameAddressIff(db.accounts[account].email, email); }
    }
  }

  /**
   After any run a registration is answered: too many attempts; closed; not an address; no way to
   recover; taken; and otherwise with a session for the new account under the normalised address.
   */
  lemma RegistrationAnswers(cfg: Config, calls: seq<Call>, call: Call)
    requires call.request.Register?
    ensures var reply := Handle(Serve(cfg, NOBODY, calls), cfg, call).1;
            var request := call.request;
            var email := cfg.folding.lower(cfg.folding.trim(request.email));
            if !call.withinLimit then reply == Failed(RateLimited)
            else if !cfg.registrationOpen then reply == Failed(RegistrationClosed)
            else if !LooksLikeAnAddress(cfg, request.email) then reply == Failed(BadEmail)
            else if request.recovery.wrappedPersonalKey.ciphertext == "" then reply == Failed(NoRecoveryMaterial)
            else if AddressTaken(cfg, calls, email, call.draw.accountId) then reply == Failed(EmailTaken)
            else reply.SignedIn? && reply.session.accountId == call.draw.accountId && reply.session.email == email
  {
    AddressTakenIff(cfg, calls, cfg.folding.lower(cfg.folding.trim(call.request.email)), call.draw.accountId);
    hide Serve, LastHanded, AddressTaken, NoCase, PutToken, MaterialOf;
  }

  /**
   No refusal leaves a trace. Signing in and recovering give one answer to an unknown address and
   to a wrong key; refreshing, and whatever needs a bearer, give one to every token that will not do.
   */
  lemma RefusalsSayLittle(db: AuthDb, cfg: Config, call: Call)
    requires Handle(db, cfg, call).1.Failed?
    ensures var (after, reply) := Handle(db, cfg, call);
            && after == db
            && (call.request.Login? || call.request.Recover? ==>
                  reply == Failed(if call.withinLimit then BadCredentials else RateLimited))
            && (call.request.RefreshWith? || Closes(call.request) ==> reply == Failed(Unauthorised))
  {
    IssuingLeaves(cfg, call.now, call.draw);
    hide IssueSession, Normalise, NoCase, ByEmail, NewAccount, MaterialOf, ValidEmail, VerifyAuthKey, RecoveryView;
  }

  /** Even should a draw repeat a token in use: it stays the same account's, and for the same use. */
  lemma ATokenInUseKeepsItsHolder(db: AuthDb, cfg: Config, call: Call, h: Digest)
    requires h in db.tokens && (call.request.RefreshWith? ==> Digest(call.request.token) != h)
    ensures var after := Handle(db, cfg, call).0;
            h in after.tokens ==>
              after.tokens[h].account == db.tokens[h].account && after.tokens[h].kind == db.tokens[h].kind
  {
    IssuingKeepsHolders(cfg, call.now, call.draw, h);
    hide IssueSession, Normalise, NoCase, ByEmail, NewAccount, MaterialOf, ValidEmail, VerifyAuthKey, RecoveryView;
  }

  lemma IssuingKeepsHolders(cfg: Config, now: int, draw: Draw, h: Digest)
    ensures forall db: AuthDb, id, view, device | id in db.accounts && h in db.tokens ::
              var after := IssueSession(db, cfg, id, view, now, draw, device).0;
              && h in after.tokens
              && after.tokens[h].account == db.tokens[h].account && after.tokens[h].kind == db.tokens[h].kind
  {}

  // ---- what never changes -----------------------------------------------------------------------

  lemma CallKeepsPublicKey(cfg: Config, db: AuthDb, call: Call, account: string)
    requires account in db.accounts
    ensures var after := Handle(db, cfg, call).0.accounts;
            && account in after
            && after[account].accountPublic == db.accounts[account].accountPublic
            && after[account].email == db.accounts[account].email
  {
    IssuingLeaves(cfg, call.now, call.draw);
    hide IssueSession, Normalise, NoCase, ByEmail, MaterialOf, ValidEmail, VerifyAuthKey, RecoveryView;
  }

  /** The public key others wrap group keys to is fixed at registration. */
  lemma {:induction false} PublicKeyNeverChanges(cfg: Config, db: AuthDb, calls: seq<Call>, account: string)
    requires account in db.accounts
    ensures var after := Serve(cfg, db, calls).accounts;
            && account in after
            && after[account].accountPublic == db.accounts[account].accountPublic
            && after[account].email == db.accounts[account].email
  {
    hide Handle;
    if calls != [] {
      var rest := calls[..|calls| - 1];
      PublicKeyNeverChanges(cfg, db, rest, account);
      CallKeepsPublicKey(cfg, Serve(cfg, db, rest), calls[|calls| - 1], account);
    }
  }

  // ---- the devices -------------------------------------------------------------------------------

  /** The device row of an account after a call: the one a sign-in of it has just named, or as before. */
  function Noted(row: Option<DeviceRow>, account: string, device: string, call: Call, reply: Reply): Option<DeviceRow> {
    if reply.SignedIn? && reply.session.accountId == account && Opens(call.request)
       && call.device.id == device && device != ""
    then Some(DeviceRow(call.device.name, call.now)) else row
  }

  function LastNoted(cfg: Config, calls: seq<Call>, account: string, device: string): Option<DeviceRow> {
    if calls == [] then None else
      var rest, last := calls[..|calls| - 1], calls[|calls| - 1];
      Noted(LastNoted(cfg, rest, account, device), account, device, last, Handle(Serve(cfg, NOBODY, rest), cfg, last).1)
  }

  function DeviceOf(db: AuthDb, account: string, device: string): Option<DeviceRow> {
    var d := DeviceKey(account, device);
    if d in db.devices then Some(db.devices[d]) else None
  }

  lemma CallNotesDevice(db: AuthDb, cfg: Config, call: Call, account: string, device: string)
    ensures var (after, reply) := Handle(db, cfg, call);
            DeviceOf(after, account, device) == Noted(DeviceOf(db, account, device), account, device, call, reply)
  {
    IssuingLeaves(cfg, call.now, call.draw);
    hide IssueSession, Normalise, NoCase, ByEmail, NewAccount, MaterialOf, ValidEmail, VerifyAuthKey, RecoveryView;
  }

  /**
   After any run an account's devices are those named in its sign-ins and recoveries, each with the
   name and time of the latest; refreshing, signing out and changing the password touch none.
   */
  lemma {:induction false} DevicesAreThoseSignedInWith(cfg: Config, calls: seq<Call>, account: string, device: string)
    ensures DeviceOf(Serve(cfg, NOBODY, calls), account, device) == LastNoted(cfg, calls, account, device)
  {
    hide Handle, Noted;
    if calls != [] {
      var rest := calls[..|calls| - 1];
      DevicesAreThoseSignedInWith(cfg, rest, account, device);
      CallNotesDevice(Serve(cfg, NOBODY, rest), cfg, calls[|calls| - 1], account, device);
    }
  }
}

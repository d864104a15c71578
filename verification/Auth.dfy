/** The handlers by which accounts and their sessions come and go. */
module Auth {
  import opened Record
  import opened Accounts
  import opened AccountStore

  datatype Config = Config(registrationOpen: bool, accessTtlSecs: int, folding: Folding)

  const REFRESH_TTL_MS := 90 * 24 * 3600 * 1000

  datatype KeyMaterial = KeyMaterial(
    accountPublic: string,
    wrappedAccountSecret: SealedBlob,
    wrappedPersonalKey: SealedBlob)

  datatype Session = Session(
    accountId: string,
    email: string,
    accessToken: string,
    refreshToken: string,
    expiresIn: int,
    keyMaterial: KeyMaterial)

  datatype Error =
    | RateLimited | RegistrationClosed | BadEmail | NoRecoveryMaterial | EmailTaken
    | BadCredentials | Unauthorised | NotFound

  datatype Reply = SignedIn(session: Session) | Ok | Failed(error: Error)

  datatype Request =
    | Register(email: string, authKey: string, recoveryAuthKey: string, material: KeyMaterial, recovery: KeyMaterial)
    | Login(email: string, authKey: string)
    | Recover(email: string, recoveryAuthKey: string)
    | RefreshWith(token: string)
    | Rewrap(bearer: string, authKey: string, recoveryAuthKey: string, material: KeyMaterial, recovery: KeyMaterial)
    | Logout(bearer: string)

  /** What the random number generator hands out while one request is served. */
  datatype Draw = Draw(accountId: string, salt: string, recoverySalt: string, access: string, refresh: string)

  /** The device a sign-in names; a refresh names none. */
  datatype Device = Device(id: string, name: string)

  const NO_DEVICE := Device("", "")

  /** A request, the time it is served, the rate limiter's answer, the draws, and the device. */
  datatype Call = Call(request: Request, now: int, withinLimit: bool, draw: Draw, device: Device)

  predicate ValidEmail(f: Folding, email: string) {
    var e := f.trim(email);
    3 <= f.size(e) <= 254 && '@' in e && ' ' !in e
  }

  function NewAccount(email: string, accountPublic: string, authKey: string, recoveryAuthKey: string,
                      material: KeyMaterial, recovery: KeyMaterial, draw: Draw): Account
  {
    Account(email, PhcHash(draw.salt, authKey), PhcHash(draw.recoverySalt, recoveryAuthKey), accountPublic,
            Encode(material.wrappedAccountSecret), Encode(material.wrappedPersonalKey),
            Encode(recovery.wrappedAccountSecret), Encode(recovery.wrappedPersonalKey))
  }

  function MaterialOf(account: Account): KeyMaterial {
    KeyMaterial(account.accountPublic, Decode(account.wrappedAccountSecret), Decode(account.wrappedPersonalKey))
  }

  /** The same account with the recovery-wrapped blobs in place of the password-wrapped ones. */
  function RecoveryView(account: Account): Account {
    account.(wrappedAccountSecret := account.recoveryAccountSecret,
             wrappedPersonalKey := account.recoveryPersonalKey)
  }

  function IssueSession(db: AuthDb, cfg: Config, id: string, view: Account, now: int, draw: Draw,
                        device: Device): (AuthDb, Reply)
    requires id in db.accounts
  {
    var withAccess := PutToken(db, Digest(draw.access), id, Access, now + cfg.accessTtlSecs * 1000);
    var withBoth := PutToken(withAccess, Digest(draw.refresh), id, Refresh, now + REFRESH_TTL_MS);
    var noted := if device.id == "" then withBoth else TouchDevice(withBoth, id, device.id, device.name, now);
    (noted, SignedIn(Session(id, view.email, draw.access, draw.refresh, cfg.accessTtlSecs, MaterialOf(view))))
  }

  /** The account behind a bearer token. */
  function CallerOf(db: AuthDb, bearer: string, now: int): Option<string> {
    TakeToken(db, Digest(bearer), Access, now)
  }

  /** One whole handler. */
  function Handle(db: AuthDb, cfg: Config, call: Call): (AuthDb, Reply) {
    var now, draw := call.now, call.draw;
    match call.request
    case Register(email, authKey, recoveryAuthKey, material, recovery) =>
      if !call.withinLimit then (db, Failed(RateLimited))
      else if !cfg.registrationOpen then (db, Failed(RegistrationClosed))
      else if !ValidEmail(cfg.folding, email) then (db, Failed(BadEmail))
      else if recovery.wrappedPersonalKey.ciphertext == "" then (db, Failed(NoRecoveryMaterial))
      else
        var row := NewAccount(email, material.accountPublic, authKey, recoveryAuthKey, material, recovery, draw);
        (match CreateAccount(cfg.folding, db, draw.accountId, row)
         case None => (db, Failed(EmailTaken))
         case Some(created) =>
           IssueSession(created, cfg, draw.accountId, created.accounts[draw.accountId], now, draw, call.device))
    case Login(email, authKey) =>
      if !call.withinLimit then (db, Failed(RateLimited)) else
        (match ByEmail(cfg.folding, db, email)
         case None => (db, Failed(BadCredentials))
         case Some(id) =>
           if !VerifyAuthKey(authKey, db.accounts[id].authHash) then (db, Failed(BadCredentials))
           else IssueSession(db, cfg, id, db.accounts[id], now, draw, call.device))
    case Recover(email, recoveryAuthKey) =>
      if !call.withinLimit then (db, Failed(RateLimited)) else
        (match ByEmail(cfg.folding, db, email)
         case None => (db, Failed(BadCredentials))
         case Some(id) =>
           if !VerifyAuthKey(recoveryAuthKey, db.accounts[id].recoveryAuthHash) then (db, Failed(BadCredentials))
           else IssueSession(db, cfg, id, RecoveryView(db.accounts[id]), now, draw, call.device))
    case RefreshWith(token) =>
      var (consumed, found) := ConsumeToken(db, Digest(token), Refresh, now);
      (match found
       case None => (consumed, Failed(Unauthorised))
       case Some(id) => IssueSession(consumed, cfg, id, consumed.accounts[id], now, draw, NO_DEVICE))
    case Rewrap(bearer, authKey, recoveryAuthKey, material, recovery) =>
      (match CallerOf(db, bearer, now)
       case None => (db, Failed(Unauthorised))
       case Some(id) =>
         var old_ := db.accounts[id];
         var row := NewAccount(old_.email, old_.accountPublic, authKey, recoveryAuthKey, material, recovery, draw);
         (RevokeAccountTokens(RewrapAccount(db, id, row), id), Ok))
    case Logout(bearer) =>
      (match CallerOf(db, bearer, now)
       case None => (db, Failed(Unauthorised))
       case Some(id) => (RevokeAccountTokens(db, id), Ok))
  }

  // ---- the handlers, statement by statement -------------------------------------------------

  method Issue(store: SqliteAccounts, cfg: Config, id: string, view: Account, now: int,
               draw: Draw, device: Device) returns (reply: Reply)
    requires store.Valid() && id in store.accounts
    modifies store
    ensures store.Valid()
    ensures (store.Contents(), reply) == IssueSession(old(store.Contents()), cfg, id, view, now, draw, device)
    ensures reply.SignedIn? && reply.session.accountId == id && reply.session.email == view.email
    ensures reply.session.accessToken == draw.access && reply.session.refreshToken == draw.refresh
  {
    store.PutToken(Digest(draw.access), id, Access, now + cfg.accessTtlSecs * 1000);
    store.PutToken(Digest(draw.refresh), id, Refresh, now + REFRESH_TTL_MS);
    if device.id != "" {
      store.TouchDevice(id, device.id, device.name, now);
    }
    reply := SignedIn(Session(id, view.email, draw.access, draw.refresh, cfg.accessTtlSecs, MaterialOf(view)));
  }

  method SignUp(store: SqliteAccounts, cfg: Config, call: Call) returns (reply: Reply)
    requires call.request.Register? && store.Valid()
    modifies store
    ensures store.Valid() && (store.Contents(), reply) == Handle(old(store.Contents()), cfg, call)
  {
    var body := call.request;
    if !call.withinLimit {
      return Failed(RateLimited);
    }
    if !cfg.registrationOpen {
      return Failed(RegistrationClosed);
    }
    if !ValidEmail(cfg.folding, body.email) {
      return Failed(BadEmail);
    }
    if body.recovery.wrappedPersonalKey.ciphertext == "" {
      return Failed(NoRecoveryMaterial);
    }
    var created := store.CreateAccount(cfg.folding, call.draw.accountId,
      NewAccount(body.email, body.material.accountPublic, body.authKey, body.recoveryAuthKey,
                 body.material, body.recovery, call.draw));
    if !created {
      return Failed(EmailTaken);
    }
    var account := store.accounts[call.draw.accountId];
    reply := Issue(store, cfg, call.draw.accountId, account, call.now, call.draw, call.device);
  }

  method SignIn(store: SqliteAccounts, cfg: Config, call: Call) returns (reply: Reply)
    requires (call.request.Login? || call.request.Recover?) && store.Valid()
    modifies store
    ensures store.Valid() && (store.Contents(), reply) == Handle(old(store.Contents()), cfg, call)
  {
    if !call.withinLimit {
      return Failed(RateLimited);
    }
    var id := store.AccountByEmail(cfg.folding, call.request.email);
    if id.None? {
      return Failed(BadCredentials);
    }
    var account := store.accounts[id.value];
    if call.request.Login? {
      if !VerifyAuthKey(call.request.authKey, account.authHash) {
        return Failed(BadCredentials);
      }
    } else {
      if !VerifyAuthKey(call.request.recoveryAuthKey, account.recoveryAuthHash) {
        return Failed(BadCredentials);
      }
      account := RecoveryView(account);
    }
    reply := Issue(store, cfg, id.value, account, call.now, call.draw, call.device);
  }

  method Renew(store: SqliteAccounts, cfg: Config, call: Call) returns (reply: Reply)
    requires call.request.RefreshWith? && store.Valid()
    modifies store
    ensures store.Valid() && (store.Contents(), reply) == Handle(old(store.Contents()), cfg, call)
  {
    var found := store.ConsumeToken(Digest(call.request.token), Refresh, call.now);
    if found.None? {
      return Failed(Unauthorised);
    }
    reply := Issue(store, cfg, found.value, store.accounts[found.value], call.now, call.draw, NO_DEVICE);
  }

  method ChangePassword(store: SqliteAccounts, cfg: Config, call: Call) returns (reply: Reply)
    requires call.request.Rewrap? && store.Valid()
    modifies store
    ensures store.Valid() && (store.Contents(), reply) == Handle(old(store.Contents()), cfg, call)
  {
    var body := call.request;
    var caller := store.TakeToken(Digest(body.bearer), Access, call.now);
    if caller.None? {
      return Failed(Unauthorised);
    }
    var account := store.accounts[caller.value];
    store.RewrapAccount(caller.value,
      NewAccount(account.email, account.accountPublic, body.authKey, body.recoveryAuthKey,
                 body.material, body.recovery, call.draw));
    // No session outlives the key it was opened with.
    store.RevokeAccountTokens(caller.value);
    reply := Ok;
  }

  method SignOut(store: SqliteAccounts, cfg: Config, call: Call) returns (reply: Reply)
    requires call.request.Logout? && store.Valid()
    modifies store
    ensures store.Valid() && (store.Contents(), reply) == Handle(old(store.Contents()), cfg, call)
  {
    var caller := store.TakeToken(Digest(call.request.bearer), Access, call.now);
    if caller.None? {
      return Failed(Unauthorised);
    }
    store.RevokeAccountTokens(caller.value);
    reply := Ok;
  }
}

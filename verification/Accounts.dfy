/**
 The `accounts` and `tokens` tables and the statements over them.

 Cryptography is idealised: a token's SHA-256 digest and an Argon2id hash each determine what
 was hashed. Random draws are inputs.
 */
module Accounts {
  import opened Record

  datatype Digest = Digest(token: string)
  datatype PhcHash = PhcHash(salt: string, key: string)

  predicate VerifyAuthKey(key: string, stored: PhcHash) { stored.key == key }

  datatype SealedBlob = SealedBlob(nonce: string, ciphertext: string)

  /** A blob goes into a single text column. */
  function Encode(blob: SealedBlob): string { blob.nonce + "." + blob.ciphertext }

  function FirstDot(s: string, i: nat): (n: nat)
    requires i <= |s|
    ensures i <= n <= |s| && (n < |s| ==> s[n] == '.') && forall j | i <= j < n :: s[j] != '.'
    decreases |s| - i
  {
    if i == |s| || s[i] == '.' then i else FirstDot(s, i + 1)
  }

  /** Cut at the first dot; without one, everything is ciphertext. */
  function Decode(stored: string): SealedBlob {
    var n := FirstDot(stored, 0);
    if n == |stored| then SealedBlob("", stored) else SealedBlob(stored[..n], stored[n + 1..])
  }

  /** A blob comes back from storage as it went in exactly when its nonce has no dot. */
  lemma DecodeInvertsEncodeIff(blob: SealedBlob)
    ensures Decode(Encode(blob)) == blob <==> '.' !in blob.nonce
  {
    var s := Encode(blob);
    var n := FirstDot(s, 0);
    assert s[|blob.nonce|] == '.';
    assert n <= |blob.nonce|;
    assert forall j | 0 <= j < |blob.nonce| :: s[j] == blob.nonce[j];
    if '.' !in blob.nonce {
      assert n == |blob.nonce|;
      assert s[..n] == blob.nonce && s[n + 1..] == blob.ciphertext;
    } else {
      var j :| 0 <= j < |blob.nonce| && blob.nonce[j] == '.';
      assert n <= j;
    }
  }

  /** Whatever is stored reads as a blob: one that is stored so again, or else all of it ciphertext. */
  lemma AnythingDecodes(stored: string)
    ensures '.' in stored ==> Encode(Decode(stored)) == stored && '.' !in Decode(stored).nonce
    ensures '.' !in stored ==> Decode(stored) == SealedBlob("", stored)
  {
    var n := FirstDot(stored, 0);
    if '.' in stored {
      var i :| 0 <= i < |stored| && stored[i] == '.';
      assert n <= i;
      assert stored == stored[..n] + "." + stored[n + 1..];
    }
  }

  datatype Account = Account(
    email: string,
    authHash: PhcHash,
    recoveryAuthHash: PhcHash,
    accountPublic: string,
    wrappedAccountSecret: string,
    wrappedPersonalKey: string,
    recoveryAccountSecret: string,
    recoveryPersonalKey: string)

  datatype DeviceKey = DeviceKey(account: string, device: string)
  datatype DeviceRow = DeviceRow(name: string, lastSeen: int)

  datatype TokenKind = Access | Refresh
  datatype TokenRow = TokenRow(account: string, kind: TokenKind, expiresAt: int)

  /** `minted` is a history: every digest ever put into the table. */
  datatype AuthTables = AuthTables(
    accounts: map<string, Account>,
    tokens: map<Digest, TokenRow>,
    devices: map<DeviceKey, DeviceRow>,
    minted: set<Digest>)

  /** The column's NOCASE: ASCII letters compare without their case. */
  function NoCase(s: string): string {
    seq(|s|, i requires 0 <= i < |s| => if 'A' <= s[i] <= 'Z' then (s[i] as int + 32) as char else s[i])
  }

  predicate SameAddress(a: string, b: string) { NoCase(a) == NoCase(b) }

  /** The same letters, in either ASCII case, and the same of everything else. */
  ghost predicate SameLetters(a: string, b: string) {
    |a| == |b| && forall i | 0 <= i < |a| :: SameLetter(a[i], b[i])
  }

  predicate SameLetter(c: char, d: char) {
    || c == d
    || ('A' <= c <= 'Z' && d as int == c as int + 32)
    || ('A' <= d <= 'Z' && c as int == d as int + 32)
  }

  lemma SameAddressIff(a: string, b: string)
    ensures SameAddress(a, b) <==> SameLetters(a, b)
  {
    if SameAddress(a, b) {
      assert |NoCase(a)| == |a| && |NoCase(b)| == |b|;
      forall i | 0 <= i < |a| ensures SameLetter(a[i], b[i]) { assert NoCase(a)[i] == NoCase(b)[i]; }
    }
    if SameLetters(a, b) {
      forall i | 0 <= i < |a| ensures NoCase(a)[i] == NoCase(b)[i] { assert SameLetter(a[i], b[i]); }
    }
  }

  predicate Registered(accounts: map<string, Account>, id: string) { id in accounts }

  /** The UNIQUE column. */
  ghost predicate DistinctEmails(accounts: map<string, Account>) {
    forall i, j {:trigger Registered(accounts, i), Registered(accounts, j)} ::
      Registered(accounts, i) && Registered(accounts, j) && i != j ==>
        !SameAddress(accounts[i].email, accounts[j].email)
  }

  ghost predicate Consistent(t: AuthTables) {
    && DistinctEmails(t.accounts)
    && t.tokens.Keys <= t.minted
    && (forall h | h in t.tokens :: t.tokens[h].account in t.accounts)
  }

  type AuthDb = t: AuthTables | Consistent(t) ghost witness AuthTables(map[], map[], map[], {})

  const NOBODY: AuthDb := AuthTables(map[], map[], map[], {})

  /** Trimming, lower-casing and counting bytes, as whatever functions of Unicode text they are. */
  datatype Folding = Folding(trim: string -> string, lower: string -> string, size: string -> nat)

  function Normalise(f: Folding, email: string): string { f.lower(f.trim(email)) }

  lemma EmailIsUnique(accounts: map<string, Account>, email: string)
    requires DistinctEmails(accounts)
    ensures forall i, j | i in accounts && j in accounts
                          && SameAddress(accounts[i].email, email) && SameAddress(accounts[j].email, email) ::
              i == j
  {
    forall i, j | i in accounts && j in accounts
                  && SameAddress(accounts[i].email, email) && SameAddress(accounts[j].email, email)
      ensures i == j
    {
      assert Registered(accounts, i) && Registered(accounts, j);
    }
  }

  function ByEmail(f: Folding, db: AuthDb, email: string): (r: Option<string>)
    ensures r.Some? ==> r.value in db.accounts && SameAddress(db.accounts[r.value].email, Normalise(f, email))
    ensures r.None? ==> forall id | id in db.accounts :: !SameAddress(db.accounts[id].email, Normalise(f, email))
  {
    var wanted := Normalise(f, email);
    if id :| id in db.accounts && SameAddress(db.accounts[id].email, wanted) then
      EmailIsUnique(db.accounts, wanted);
      Some(id)
    else None
  }

  /** None on a uniqueness violation: the address is taken, or the drawn id is. */
  function CreateAccount(f: Folding, db: AuthDb, id: string, new_: Account): Option<AuthDb> {
    var row := new_.(email := Normalise(f, new_.email));
    if id in db.accounts || ByEmail(f, db, new_.email).Some? then None
    else
      NewEmailStaysDistinct(db, id, row);
      Some(db.(accounts := db.accounts[id := row]))
  }

  lemma NewEmailStaysDistinct(db: AuthDb, id: string, row: Account)
    requires id !in db.accounts && forall j | j in db.accounts :: !SameAddress(db.accounts[j].email, row.email)
    ensures DistinctEmails(db.accounts[id := row])
  {
    var after := db.accounts[id := row];
    forall i, j | Registered(after, i) && Registered(after, j) && i != j
      ensures !SameAddress(after[i].email, after[j].email)
    {
      assert i != id ==> Registered(db.accounts, i);
      assert j != id ==> Registered(db.accounts, j);
    }
  }

  /** Everything but the address and the public key. */
  function RewrapAccount(db: AuthDb, id: string, new_: Account): AuthDb {
    if id !in db.accounts then db else
      var old_ := db.accounts[id];
      var row := new_.(email := old_.email, accountPublic := old_.accountPublic);
      SameEmailStaysDistinct(db, id, row);
      db.(accounts := db.accounts[id := row])
  }

  lemma SameEmailStaysDistinct(db: AuthDb, id: string, row: Account)
    requires id in db.accounts && db.accounts[id].email == row.email
    ensures DistinctEmails(db.accounts[id := row])
  {
    var after := db.accounts[id := row];
    forall i, j | Registered(after, i) && Registered(after, j) && i != j
      ensures !SameAddress(after[i].email, after[j].email)
    {
      assert Registered(db.accounts, i) && Registered(db.accounts, j);
    }
  }

  /** On conflict only the expiry is replaced. */
  function PutToken(db: AuthDb, h: Digest, account: string, kind: TokenKind, expiresAt: int): AuthDb
    requires account in db.accounts
  {
    var row := if h in db.tokens then db.tokens[h].(expiresAt := expiresAt) else TokenRow(account, kind, expiresAt);
    db.(tokens := db.tokens[h := row], minted := db.minted + {h})
  }

  function TakeToken(db: AuthDb, h: Digest, kind: TokenKind, now: int): Option<string> {
    if h in db.tokens && db.tokens[h].kind == kind && db.tokens[h].expiresAt > now
    then Some(db.tokens[h].account) else None
  }

  /** One statement: delete and return. */
  function ConsumeToken(db: AuthDb, h: Digest, kind: TokenKind, now: int): (AuthDb, Option<string>) {
    var found := TakeToken(db, h, kind, now);
    (if found.Some? then db.(tokens := db.tokens - {h}) else db, found)
  }

  function RevokeAccountTokens(db: AuthDb, account: string): AuthDb {
    db.(tokens := map h | h in db.tokens && db.tokens[h].account != account :: db.tokens[h])
  }

  function TouchDevice(db: AuthDb, account: string, device: string, name: string, now: int): AuthDb
    requires account in db.accounts
  {
    db.(devices := db.devices[DeviceKey(account, device) := DeviceRow(name, now)])
  }
}

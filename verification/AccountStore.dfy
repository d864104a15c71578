/** The SQLite store again, for its `accounts` and `tokens` tables: the statements run in place. */
module AccountStore {
  import opened Record
  import opened Accounts

  class SqliteAccounts {
    var accounts: map<string, Account>
    var tokens: map<Digest, TokenRow>
    var devices: map<DeviceKey, DeviceRow>
    /** Every digest ever put into `tokens`. */
    ghost var minted: set<Digest>

    ghost predicate Valid()
      reads this
    {
      Consistent(AuthTables(accounts, tokens, devices, minted))
    }

    ghost function Contents(): AuthDb
      reads this
      requires Valid()
    {
      AuthTables(accounts, tokens, devices, minted)
    }

    constructor ()
      ensures Valid() && Contents() == NOBODY
    {
      accounts, tokens, devices, minted := map[], map[], map[], {};
    }

    method AccountByEmail(f: Folding, email: string) returns (id: Option<string>)
      requires Valid()
      ensures id == ByEmail(f, Contents(), email)
    {
      var wanted := Normalise(f, email);
      EmailIsUnique(accounts, wanted);
      if found :| found in accounts && SameAddress(accounts[found].email, wanted) {
        id := Some(found);
      } else {
        id := None;
      }
    }

    method CreateAccount(f: Folding, id: string, new_: Account) returns (created: bool)
      requires Valid()
      modifies this`accounts
      ensures Valid() && created == Accounts.CreateAccount(f, old(Contents()), id, new_).Some?
      ensures Contents() == if created then Accounts.CreateAccount(f, old(Contents()), id, new_).value
                            else old(Contents())
    {
      var taken := AccountByEmail(f, new_.email);
      created := id !in accounts && taken.None?;
      if created {
        var row := new_.(email := Normalise(f, new_.email));
        NewEmailStaysDistinct(Contents(), id, row);
        accounts := accounts[id := row];
      }
    }

    method RewrapAccount(id: string, new_: Account)
      requires Valid()
      modifies this`accounts
      ensures Valid() && Contents() == Accounts.RewrapAccount(old(Contents()), id, new_)
    {
      if id in accounts {
        var row := new_.(email := accounts[id].email, accountPublic := accounts[id].accountPublic);
        SameEmailStaysDistinct(Contents(), id, row);
        accounts := accounts[id := row];
      }
    }

    method PutToken(h: Digest, account: string, kind: TokenKind, expiresAt: int)
      requires Valid() && account in accounts
      modifies this`tokens, this`minted
      ensures Valid() && Contents() == Accounts.PutToken(old(Contents()), h, account, kind, expiresAt)
    {
      minted := minted + {h};
      if h in tokens {
        tokens := tokens[h := tokens[h].(expiresAt := expiresAt)];
      } else {
        tokens := tokens[h := TokenRow(account, kind, expiresAt)];
      }
    }

    method TouchDevice(account: string, device: string, name: string, now: int)
      requires Valid() && account in accounts
      modifies this`devices
      ensures Valid() && Contents() == Accounts.TouchDevice(old(Contents()), account, device, name, now)
    {
      devices := devices[DeviceKey(account, device) := DeviceRow(name, now)];
    }

    method TakeToken(h: Digest, kind: TokenKind, now: int) returns (account: Option<string>)
      requires Valid()
      ensures account == Accounts.TakeToken(Contents(), h, kind, now)
    {
      account := None;
      if h in tokens && tokens[h].kind == kind && tokens[h].expiresAt > now {
        account := Some(tokens[h].account);
      }
    }

    method ConsumeToken(h: Digest, kind: TokenKind, now: int) returns (account: Option<string>)
      requires Valid()
      modifies this`tokens
      ensures Valid() && (Contents(), account) == Accounts.ConsumeToken(old(Contents()), h, kind, now)
    {
      account := TakeToken(h, kind, now);
      if account.Some? {
        tokens := tokens - {h};
      }
    }

    method RevokeAccountTokens(account: string)
      requires Valid()
      modifies this`tokens
      ensures Valid() && Contents() == Accounts.RevokeAccountTokens(old(Contents()), account)
    {
      tokens := map h | h in tokens && tokens[h].account != account :: tokens[h];
    }
  }
}

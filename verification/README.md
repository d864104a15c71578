# The sync server's record log, sharing, sessions and wire formats, proved

The server keeps end-to-end encrypted records for many accounts. It stores them under a
last-write-wins rule, numbers every change with a single counter that all accounts share, and serves
pages of that change log to the devices and group members allowed to see each row. This project
models that server over SQLite, with the parts of the wire crate it relies on, and proves what
holds over whole runs of it.

Each part is written in the form the program has. Statements run on the fields of a store object
(`Store.SqliteStore`, `AccountStore.SqliteAccounts`), the limiter updates its map
(`RateLimit.RateLimit`), and handlers are methods with the loops, caches and early returns of the
original. Every such method is proved equal to a function from tables to tables. The theorems
about runs are lemmas over those functions.

| file | what it holds |
|---|---|
| `Record.dfy`, `Merge.dfy` | envelopes, kinds, and which of two versions wins |
| `Sql.dfy`, `Store.dfy` | the records, counter and shares tables; each statement as a function and as a method |
| `Sync.dfy` | the push and pull handlers, and a batch as that many separate pushes |
| `Changelog.dfy` | rows only advance, replays are inert, draining is exact |
| `Viewing.dfy` | exactly what a viewer has been sent, and exactly when something is lost below its cursor |
| `Renumbering.dfy` | burnt numbers and other people's writes cannot be noticed: one simulation, two uses |
| `Ordering.dfy`, `Convergence.dfy` | arrival order does not matter; devices end in agreement with the server and each other |
| `Sharing.dfy` | owners of groups, one row per shared record, whose rows a push can reach, whom a write reaches |
| `Answers.dfy` | what a push and a share answer and leave behind, in bytes, milliseconds and rows |
| `Labels.dfy` | what a plaintext group alone lets through |
| `RateLimit.dfy` | the pruned map against the full history, and exactly which intervals are bounded |
| `Accounts.dfy`, `AccountStore.dfy`, `Auth.dfy`, `Sessions.dfy` | accounts, tokens, the handlers, and runs of them |
| `Guessing.dfy` | the limiter in front of the handlers |
| `Aad.dfy`, `Crypto.dfy` | associated data, the sealed box, the recovery code |

## Where the code and its comments differ

The model follows the code. Where a property one would expect fails, a lemma gives an input that
breaks it and another says exactly when it holds.

- Sharing does not check that the group is the caller's. Groups keep one owner exactly when each
  share is by the group's owner, of a group nobody shares yet, or a re-wrap for an existing member
  (`Sharing.SharingKeepsOneOwnerIff`, `Sharing.AGroupCanGetTwoOwners`).
- So an account nobody let into a group can overwrite its records, by sharing the group's id with
  anybody (`Sharing.AnOutsiderOverwrites`). Pushes stay with the caller and those who let it in
  exactly when everyone named in the group's shares is the account its records go to, or was let
  in by it (`Sharing.PushesStayHomeIff`, `Sharing.BatchesStayHomeIff`). Shared records keep their
  one row exactly when the share with the least member id keeps its owner
  (`Sharing.SharedRecordsKeepOneRowIff`).
- A cursor that only moves forward skips rows that become visible later. A share, first or
  renewed, loses the viewer nothing exactly when no row of the group stands below its cursor but
  where it came by as a member; otherwise the client has to restart from 0
  (`Viewing.ShareLosesNothingIff`, `Viewing.ALateShareLosesARow`).
- A group record is filed by its key's group and shown by its plaintext group, which are compared
  nowhere; who may write is asked of the key's group only. So an accepted write can miss a member
  (`Labels.AMislabelledWriteMissesAMember`; exactly when: `Sharing.MembersAreSentItIff`), and an
  account that may not write a group can put a version before its members, in front of any row
  (`Labels.AnybodyReachesMembers`, `Labels.AnOutsiderIsShown`; exactly when:
  `Labels.OutsidersAreShownIff`). What is said above of pushes staying with the caller and those
  who let it in is said of the server's rows, not of what a device makes of them.
- Sharing again replaces the wrapped key a member is handed, whoever shares
  (`Sharing.AnOutsiderRewraps`; exactly when: `Sharing.RewrapsItsOwnIff`). The row keeps its owner.
- The stored form of a sealed blob reads back exactly when its nonce has no dot
  (`Accounts.DecodeInvertsEncodeIff`), and associated data reads back exactly when the id has no
  0x1f byte (`Aad.AadReadsBackIff`, `Aad.ASeparatorInAnIdCollides`).
- The limiter calls itself fixed-window. It is a sliding log, which is what makes the bound hold
  for intervals aligned with nothing.
- The limiter sweeps so that its map cannot outgrow the attempts it remembers. With `max` 0 or a
  zero window it keeps an entry for the refused caller all the same, and only then
  (`RateLimit.MapStaysSmallIff`, `RateLimit.ARefusedCallerStaysInTheMap`).
- The limiter's clock is read before its lock is taken, so it can go back along the calls. By any
  step back a limiter that admits and remembers anything admits one too many in some window
  (`RateLimit.AClockGoingBackForgets`). Where it goes back by at most d the bound holds exactly for
  intervals no longer than the window less d (`RateLimit.RateIsBoundedIff`), and the answers are
  the full history's in every run exactly when d is 0 (`RateLimit.AnswersMatchIff`).
- The recovery code is described as 128 bits. The code draws 20 symbols out of 32, which is 100
  bits (`Crypto.CodesAgreeIff`); no claim about entropy is made here.

## Model

| member | source | states |
|---|---|---|
| Record.ParseInvertsAsStr | crates/remotier-sync-proto/src/record.rs:24-50 | A string parses to a kind if and only if it is that kind's stored name: no unknown name is misfiled. |
| Record.StoredNames | crates/remotier-sync-proto/src/record.rs:36-50 | The seven names are these, each for its own kind. |
| Merge.ResolveIsAStrictTotalOrder | crates/remotier-sync-proto/src/merge.rs:30-42 | Resolving is a strict total order on clocks: both sides keep the same version, and a device that meets its own version again keeps what it has. |
| Merge.ResolveIff | crates/remotier-sync-proto/src/merge.rs:30-42 | The remote version is taken if and only if it is later, or as late and its device id has the larger byte, or goes on, where the two ids first differ. |
| Merge.BelowIffPrecedes | crates/remotier-sync-proto/src/merge.rs:35-39 | The order on device ids that breaks ties compares bytes from the left, a proper prefix first. |
| Merge.BelowIsAStrictTotalOrder | crates/remotier-sync-proto/src/merge.rs:35-39 | That order is strict and total. |
| Sql.StoreAndClientsAgree | server/src/store/sqlite.rs:208-210 | The upsert's WHERE lets a write through exactly when a client resolving the same two versions takes the remote one. |
| Sql.BySeqAscends | server/src/store/sqlite.rs:243-244 | Ordering by number lists each selected row once, in strictly increasing number. |
| Store.SqliteStore.constructor | server/src/store/schema_sqlite.sql:33-73 | The store starts with empty tables and the counter at zero. |
| Store.SqliteStore.PutEnvelope | server/src/store/sqlite.rs:183-233 | Takes the next number whether or not the write wins; the row is replaced whole and the number returned if and only if there was none, or one with an earlier time, or as late and a lesser device id; nothing else changes and the tables stay well-formed. |
| Store.SqliteStore.Pull | server/src/store/sqlite.rs:235-253 | Returns the first `limit` rows above the cursor, in order of number, that are the viewer's or in a group it is a member of. |
| Store.SqliteStore.MaxSeq | server/src/store/sqlite.rs:255-260 | Returns the instance's counter, which no stored number exceeds. |
| Store.SqliteStore.PutShare | server/src/store/sqlite.rs:262-283 | Adds the row, or replaces only the wrapped key of the one there, whose first owner stays. |
| Store.SqliteStore.DeleteShare | server/src/store/sqlite.rs:299-307 | Removes the member's row exactly when the caller is its owner. |
| Store.SqliteStore.ShareOwner | server/src/store/sqlite.rs:322-328 | Some owner of the group exactly when it is shared at all. |
| Store.SqliteStore.CanWriteGroup | server/src/store/sqlite.rs:330-342 | True if and only if nobody shares the group or one of its rows names the account as owner or member. |
| Sync.Pull | server/src/routes/sync.rs:24-50 | Fetching one row too many and cutting it off gives the page by definition: the oldest rows, the last one's number as cursor, and `more` exactly when rows remain. |
| Sync.Route | server/src/routes/sync.rs:78-115 | The cached answers say whose account a record goes to, or that the caller is no member, exactly as the tables would; the caches stay true. |
| Sync.PushOne | server/src/routes/sync.rs:66-130 | One turn of the loop with any true caches equals one push alone with fresh lookups, and keeps the caches true. |
| Sync.Push | server/src/routes/sync.rs:52-138 | The batch with its two caches gives the same verdict lists, rows, counter and cursor as pushing the records one at a time with nothing cached. |
| Sync.EveryRecordGetsOneVerdict | server/src/routes/sync.rs:66-130 | Each record is named by exactly one verdict, at its place; both lists keep batch order and between them cover the batch. |
| Sync.AcceptedNumbersIncrease | server/src/routes/sync.rs:117-137 | Accepted numbers are above every earlier one, strictly increase, and are at most the returned cursor. |
| Sync.RefusedRecordsLeaveNoTrace | server/src/routes/sync.rs:67-102 | Leaving out implausible, oversized and non-member records changes neither the final tables nor the accepted list. |
| Sync.PushKeepsShares | server/src/routes/sync.rs:61-64 | No push changes a share, which is what lets a batch cache its answers. |
| Answers.PushAnswers | server/src/routes/sync.rs:66-130 | The answer to a push and all it does: refused without a trace for a clock more than 86400000 ms ahead, then more bytes than the cap, then a group that is shared and does not name the caller; then, at the price of a number, for a row no older; and otherwise stored whole under the next number. |
| Answers.PushIsTakenIff | server/src/routes/sync.rs:142-154 | It is taken if and only if all four allow it. |
| Answers.GoesToIff | server/src/routes/sync.rs:82-115 | The row it is for is the caller's, or under a shared group's key that of the owner in the row of the member whose id comes first. |
| Answers.RowsKeepToTheCap | server/src/routes/sync.rs:150-152 | No run from the empty store leaves a row with more bytes than the cap. |
| Answers.SharesHoldWhatWasGiven | server/src/store/sqlite.rs:262-307 | After any run a share is in the table if and only if it was given and not revoked by its owner since, with the key last handed in for that group and member and the owner who first shared it since it was last absent. |
| Changelog.RowsOnlyAdvance | server/src/store/sqlite.rs:198-211 | Over any run no row vanishes, and a row that changed has a strictly newer clock and a higher number. |
| Changelog.TombstonesStayDead | crates/remotier-sync-proto/src/merge.rs:8-9 | A deleted record stays deleted over any run unless a strictly newer write revives it. |
| Changelog.ReplayIsInert | server/src/routes/sync.rs:66-130 | A batch pushed again at the same time, after any other writes, is accepted nowhere and changes no row. |
| Changelog.PageSplitsTheLog | server/src/routes/sync.rs:29-49 | A page followed by the log after its cursor is the whole log, and `more` says exactly whether anything follows. |
| Changelog.PageIsFull | server/src/routes/sync.rs:29-49 | A page holds `limit` rows or all there are, says `more` exactly when there are more than `limit`, and its cursor is its last row's number, or the old one if it is empty. |
| Changelog.MoreMeansProgress | server/src/routes/sync.rs:36-43 | When a page says `more`, strictly fewer visible rows remain above its cursor, so draining ends. |
| Changelog.DrainIsExact | server/src/routes/sync.rs:24-50 | On a store nobody writes to, pulling until there is no more sends every visible row above the cursor once, in strictly increasing number, for any page size. |
| Viewing.NothingIsLostBelowTheCursor | server/src/routes/sync.rs:41-43 | Over any run, with any commits between pages of any sizes: every row visible at or below the cursor had been delivered in its stored version at every point since the viewer started from 0, if and only if each membership given since then found it caught up. |
| Viewing.NothingIsLostIff | server/src/store/sqlite.rs:235-253 | After any run whatever, with restarts, removals and late shares, nothing visible is missing below the cursor if and only if, in every group the viewer is now in, each row of others there has a number the viewer passed while a member. |
| Viewing.OthersRowIsSentIff | server/src/store/sqlite.rs:240-242 | Another's row of a group has been sent, as stored, if and only if the viewer's pages passed its number while it was a member. |
| Viewing.CommitLosesNothing | server/src/store/sqlite.rs:184-229 | One commit by anyone keeps that invariant if and only if it is no new membership, or the group's rows at or below the cursor have all been delivered. |
| Viewing.PullLosesNothing | server/src/routes/sync.rs:29-49 | One page of any size keeps that invariant. |
| Viewing.ShareLosesNothingIff | server/src/store/sqlite.rs:240-242 | After any run a share, to a newcomer, a returning or a present member, leaves nothing missing if and only if nothing was and the viewer is caught up in the group. |
| Viewing.ReturningMemberLosesNothingIff | server/src/store/sqlite.rs:299-307 | For a member removed at cursor c0 (0 for a newcomer) that is: nothing was missing, and no row of others in the group stands above c0 and at or below the cursor. |
| Viewing.ALateShareLosesARow | server/src/routes/shares.rs:32-40 | A run in which a share made after the viewer's first page hides a row below its cursor. |
| Viewing.SentWhenVisible | server/src/store/sqlite.rs:235-253 | Every version ever sent, overwritten since or not, was stored and the viewer's to see when its page was made. |
| Viewing.NonMembersAreSentOnlyTheirOwn | server/src/store/sqlite.rs:241-242 | From the time an account is not, or no longer, a member, every version of the group's rows sent to it for the first time is one filed under itself. |
| Renumbering.BurntNumbersCostNothing | server/src/store/sqlite.rs:186-232 | A store that numbers only winning writes gives, over any run, the same verdicts, rows and pages as the real one, up to an order-preserving renumbering. |
| Renumbering.NumbersTaken | server/src/store/sqlite.rs:186-190 | The real store has taken one number per write, the other one per winning write. |
| Renumbering.HiddenWritesDoNotInterfere | server/src/store/sqlite.rs:235-253 | While shares come and go, the viewer's among them, erasing every write to rows a viewer never sees leaves its pages the same in contents, order and `more`, up to an order-preserving renumbering, and the verdicts of all other writes the same. |
| Ordering.GreatestClockWins | server/src/store/sqlite.rs:202-211 | After any list of writes each row exists and is no older than any version written to it. |
| Ordering.OrderDoesNotMatter | server/src/store/sqlite.rs:202-211 | Any two orders of the same writes, repeats included, leave the same rows apart from numbers, if equal clocks on a row mean equal contents. |
| Convergence.AbsorbedIff | crates/remotier-sync-proto/src/merge.rs:26-42 | A device takes a version if and only if it has none, an earlier one, or one as late from a lesser device; its own echo changes nothing. |
| Convergence.ActKeepsInv | server/src/routes/sync.rs:24-138 | Every edit, push, page, restart and foreign commit keeps the invariant tying each device's replica and unsent edits to what the server has filed. |
| Convergence.NoneLateLosesNothing | server/src/routes/sync.rs:41-43 | Over any such run no device has lost anything below its cursor, if each new membership of the account found its devices caught up. |
| Convergence.DevicesConverge | crates/remotier-sync-proto/src/merge.rs:26-42 | In any interleaving of any devices of an account, with shares coming and going, and ids filed under as many accounts as may be: once all have pushed and drained and none has lost anything, every replica holds a version no older than each row the account may see, and each version it holds is that of a row it may see, or no newer than one it may not. |
| Convergence.ReplicasHoldTheRows | crates/remotier-sync-proto/src/record.rs:68-69 | Then a visible row whose id is filed under no other account met is in every replica with exactly the stored contents. |
| Convergence.DevicesAgreeWithEachOther | crates/remotier-sync-proto/src/merge.rs:12-18 | Then any two devices hold the same version, or none, of each id all of whose rows the account may see, if one clock on one id is one version. |
| Convergence.PrivateDevicesConverge | crates/remotier-sync-proto/src/merge.rs:26-42 | For an account with personal edits and no memberships every replica then holds exactly the account's rows, with nothing assumed about loss or about ids. |
| Sharing.Create | server/src/routes/shares.rs:16-41 | Refuses sharing with oneself and with an unknown account, and otherwise leaves that member's row with the key given, and with the caller as owner unless it was there already. |
| Sharing.Remove | server/src/routes/shares.rs:87-98 | Removes exactly the named share if it is the caller's; no share of another owner goes. |
| Sharing.SharingKeepsOneOwnerIff | server/src/store/sqlite.rs:262-283 | Sharing keeps groups single-owned if and only if the caller owns the group, nobody shares it, or the member's row is there already. |
| Sharing.AGroupCanGetTwoOwners | server/src/routes/shares.rs:32-40 | A run of handler steps from the empty store after which a group has two owners. |
| Sharing.SingleOwnerGrantsWell | server/src/store/sqlite.rs:262-342 | With one owner per group, everyone named in a group's shares was let in by the account its records go to. |
| Sharing.RewrapsItsOwnIff | server/src/store/sqlite.rs:270-273 | A stored wrapped key changes only by sharing again with that member, and under its owner alone if and only if the step is not another account doing so with a different key; the owner never changes. |
| Sharing.AnOutsiderRewraps | server/src/routes/shares.rs:32-40 | A run of handler steps after which a member's wrapped key is the one an outsider supplied. |
| Sharing.OneOwnerThroughout | server/src/store/sqlite.rs:262-342 | Over any run of pushes, guarded shares and revocations every group has one owner. |
| Sharing.OwnerIsConstant | server/src/store/sqlite.rs:322-328 | In a run where only owners share, a group's owner never changes while it stays shared, whichever of its rows is asked. |
| Sharing.SharedRecordsHaveOneRow | server/src/routes/sync.rs:78-117 | In such a run every accepted push under a shared group's key comes from its owner or a member and lands on the one row filed under the owner; a rejected one changes no row. |
| Sharing.SharedRecordsKeepOneRowIff | server/src/routes/sync.rs:78-117 | In any run, whoever shares, all pushes under the key of a group that stays shared land with one account if and only if no share or revocation changes the owner of its share with the least member id. |
| Sharing.LandsOnlyWithIff | server/src/routes/sync.rs:104-115 | All that anyone can push under a shared group's key lands with one account if and only if that is the routed owner. |
| Sharing.PushesStayHomeIff | server/src/routes/sync.rs:82-117 | Pushes under a group's key change only the caller's rows and those of the account that let it into the group, if and only if everyone named in the group's shares is the routed owner or was let in by it. |
| Sharing.BatchesStayHomeIff | server/src/routes/sync.rs:82-117 | No batch by anyone changes rows of an account that let the caller into none of the batch's groups, if and only if every group is like that. |
| Sharing.PushReachesOnlySharers | server/src/routes/sync.rs:82-117 | A batch all of whose groups are like that changes another account's row only if that account let the caller into one of them. |
| Sharing.AnOutsiderOverwrites | server/src/store/sqlite.rs:330-342 | After a run of handler steps from the empty store, a push by an account the owner never let in overwrites the owner's row. |
| Sharing.AcceptedGroupWritesReachEveryone | server/src/routes/sync.rs:83-117 | After any further commits, draining from any earlier cursor gives an accepted group write to the holder and every current member, unless a newer write replaced it. |
| Sharing.MembersAreSentItIff | server/src/store/sqlite.rs:240-242 | An account other than the holder is sent an accepted write if and only if its plaintext group is one shared with it. |
| Labels.OutsidersAreShownIff | server/src/routes/sync.rs:82-117 | An account that may not write a group shows its members a version labelled with it if and only if the envelope's plaintext group is that one, its key is personal or of another group it may write, and it would be stored. |
| Labels.AnybodyReachesMembers | server/src/store/sqlite.rs:240-242 | For every row, group and account other than the row's, however shares were granted, a push by that account that leaves the row as it was and is sent to every member of the group, whose replicas prefer it to the row. |
| Labels.AnOutsiderIsShown | server/src/routes/sync.rs:82-117 | Such a push after a run of handler steps from the empty store, by a member of nothing. |
| Labels.AMislabelledWriteMissesAMember | server/src/store/sqlite.rs:240-242 | An accepted write under a group's key, after such a run, that the group's member is never sent. |
| Sharing.NobodyWinsForEver | crates/remotier-sync-proto/src/merge.rs:44-53 | After any run of pushes served up to time T, every row gives way to a write dated more than a day after T. |
| RateLimit.CheckRefinesHistory | server/src/ratelimit.rs:33-45 | Pruning every list at every call keeps the map standing for all admitted attempts, at all times from the latest call's on; the answer is the full history's unless the clock went back, and never stricter. |
| RateLimit.RecordKeepsTheBound | server/src/ratelimit.rs:40-45 | The full history by itself keeps every interval of one window, for every address, at `max` or fewer, whatever the clock does. |
| RateLimit.RateIsBoundedOverAllTime | server/src/ratelimit.rs:29-46 | Over any run whose clock goes back by at most d, no address is ever admitted more than `max` times in any half-open interval no longer than the window less d. |
| RateLimit.RateIsBoundedIff | server/src/ratelimit.rs:29-46 | And over all such runs that is so for no longer interval, but for a limiter that admits nothing. |
| RateLimit.AnswersMatch | server/src/ratelimit.rs:33-45 | With a clock that does not go back every answer of the limiter is the full history's. |
| RateLimit.AnswersMatchIff | server/src/ratelimit.rs:29-46 | Over all runs whose clock goes back by at most d the answers are the full history's if and only if d, `max` or the window is 0. |
| RateLimit.AClockGoingBackForgets | server/src/ratelimit.rs:29-38 | For every limiter and every allowed step back, a run in which an address is admitted `max` + 1 times in one window, against the full history's answer. |
| RateLimit.MapStaysSmall | server/src/ratelimit.rs:33-38 | The map has at most as many addresses as admitted attempts still inside the window, or one more with `max` or the window at zero. |
| RateLimit.MapStaysSmallIff | server/src/ratelimit.rs:33-45 | It has no more if and only if `max` and the window are both above zero. |
| RateLimit.ARefusedCallerStaysInTheMap | server/src/ratelimit.rs:40-43 | One refused call to an empty limiter with `max` 0 leaves an entry. |
| RateLimit.RateLimit.constructor | server/src/ratelimit.rs:20-26 | An empty limiter has been asked nothing and has admitted nothing. |
| RateLimit.RateLimit.Check | server/src/ratelimit.rs:29-46 | At any time whatever: the in-place sweep, test and push extend the record exactly when they admit, answer as the full history would unless the clock went back, and keep the bound, less what it went back, and the size of the map. |
| Accounts.DecodeInvertsEncodeIff | server/src/routes/auth.rs:283-293 | A blob reads back from its stored string if and only if its nonce has no dot. |
| Accounts.AnythingDecodes | server/src/routes/auth.rs:287-293 | A stored string with a dot reads as the blob it is the encoding of whose nonce has none; one without reads as ciphertext alone. |
| Accounts.ByEmail | server/src/store/sqlite.rs:81-89 | Finds the account with the normalised address, up to the column's NOCASE, or none exactly when there is none. |
| Accounts.SameAddressIff | server/src/store/schema_sqlite.sql:7-9 | The column takes two addresses for one exactly when they differ in the case of ASCII letters at most. |
| AccountStore.SqliteAccounts.CreateAccount | server/src/store/sqlite.rs:45-79 | Adds the row under its normalised address, or changes nothing when the address or id is taken. |
| AccountStore.SqliteAccounts.RewrapAccount | server/src/store/sqlite.rs:101-118 | Replaces hashes and blobs of that row only; its address and public key stay. |
| AccountStore.SqliteAccounts.PutToken | server/src/store/sqlite.rs:120-138 | Adds a token row, or moves only the expiry of the one with that digest. |
| AccountStore.SqliteAccounts.TakeToken | server/src/store/sqlite.rs:140-154 | The account of an unexpired token of that kind, changing nothing. |
| AccountStore.SqliteAccounts.ConsumeToken | server/src/store/sqlite.rs:156-173 | As taking it, and the token is gone exactly when it was found. |
| AccountStore.SqliteAccounts.RevokeAccountTokens | server/src/store/sqlite.rs:175-181 | Removes every token of the account and no other. |
| AccountStore.SqliteAccounts.TouchDevice | server/src/store/sqlite.rs:344-358 | Adds the device's row, or replaces its name and time. |
| Auth.Issue | server/src/routes/auth.rs:226-272 | Stores one access and one refresh token for the account, notes the device if one is named, and answers with each for what it is and the decoded key material. |
| Auth.SignUp | server/src/routes/auth.rs:21-62 | Registration refuses in the handler's order, and otherwise creates the account and opens a session for it. |
| Auth.SignIn | server/src/routes/auth.rs:64-85 | Login checks limiter, address and key in order; the recovery door does the same with the recovery hash and answers with the recovery blobs. |
| Auth.Renew | server/src/routes/auth.rs:87-106 | Spends an unexpired refresh token for a new session, or refuses and changes nothing. |
| Auth.ChangePassword | server/src/routes/auth.rs:185-216 | Replaces the caller's hashes and blobs and ends all its sessions, or refuses and changes nothing. |
| Auth.SignOut | server/src/routes/auth.rs:108-112 | Ends all the caller's sessions, or refuses and changes nothing. |
| Sessions.TokensAreConserved | server/src/routes/auth.rs:87-112 | Over all runs with fresh tokens an account's refresh tokens number its sign-ins since its last logout or rewrap, and its access tokens those plus its refreshes. |
| Sessions.TokensAreNeverReissued | server/src/store/sqlite.rs:120-181 | A digest once used never returns to the table after leaving it, and never changes account or kind. |
| Sessions.RefreshTokensWorkOnce | server/src/routes/auth.rs:91-97 | A refresh token that worked is refused ever after, whatever calls come between. |
| Sessions.OldSessionsStayEnded | server/src/routes/auth.rs:213-215 | No token minted before a logout or rewrap stands for that account at any later time. |
| Sessions.TokensStandIff | server/src/routes/auth.rs:232-271 | After any session handed out and any calls since: its access token serves as a bearer, for that account, exactly for the seconds configured, unless the account logged out or rewrapped; its refresh token serves for a refresh into it exactly for ninety days, unless that happened or it was used; neither serves for the other. |
| Sessions.TokenIsThereIff | server/src/store/sqlite.rs:120-181 | A stored token stays, unchanged, until its account logs out or rewraps or it is itself traded in, and for no other reason goes. |
| Sessions.ATokenInUseKeepsItsHolder | server/src/store/sqlite.rs:127-129 | Even if a draw repeats a token in use, that stays the same account's and for the same use. |
| Sessions.RegistrationAnswers | server/src/routes/auth.rs:26-61 | After any run a registration is refused for the limiter, closed registration, the look of the address, missing recovery material, an address or id taken, in that order, and otherwise opens a session for the new account under the normalised address. |
| Sessions.RefusalsSayLittle | server/src/routes/auth.rs:72-82 | No refusal changes anything; an unknown address and a wrong key get one answer, and so does every token that will not do. |
| Sessions.RowsHoldWhatWasHandedIn | server/src/store/sqlite.rs:101-118 | After any run an account exists exactly if it registered, and its row holds the keys and encoded blobs of its latest register or rewrap. |
| Sessions.OnlyTheLatestKeyOpens | server/src/routes/auth.rs:80-84 | A login or recovery succeeds for an account if and only if the limiter allows it and it offers the address, trimmed, lower-cased and in either ASCII case, and the key last handed in for that door. |
| Sessions.SignInReturnsWhatWasHandedIn | server/src/routes/auth.rs:156-178 | Login and refresh return the password-wrapped blobs last handed in, recovery the recovery-wrapped ones, if and only if their nonces have no dots; address and public key are the registered ones, and the lifetime is the one configured. |
| Sessions.PublicKeyNeverChanges | server/src/store/sqlite.rs:101-106 | No run removes an account or changes its public key or address. |
| Sessions.DevicesAreThoseSignedInWith | server/src/routes/auth.rs:256-261 | After any run an account's devices are those named in its sign-ins and recoveries, each with the name and time of the latest. |
| Guessing.LookedAtIsTaken | server/src/routes/auth.rs:218-224 | The requests from an address whose key is looked at are exactly the attempts the limiter has admitted, whatever its clock does. |
| Guessing.GuessingIsBounded | server/src/routes/auth.rs:218-224 | Over any run of requests from anywhere, no address has more than `max` keys, recovery codes or registrations looked at in any half-open interval no longer than the window less what the limiter's clock goes back. |
| Guessing.GuessingIsBoundedIff | server/src/routes/auth.rs:218-224 | Over all runs that is so for no longer interval, but for a limiter that admits nothing. |
| Aad.BuildAad | crates/remotier-sync-proto/src/record.rs:108-118 | The buffer filled field by field is the four fields with separators between. |
| Aad.FromBeBytesInverts | crates/remotier-sync-proto/src/record.rs:114 | The eight clock bytes determine the signed 64-bit clock. |
| Aad.ClockBytes | crates/remotier-sync-proto/src/record.rs:114 | They are its eight base-256 digits modulo 2 to the 64th, most significant first. |
| Aad.Layout | crates/remotier-sync-proto/src/record.rs:108-118 | Where the id, the kind's name, the clock bytes, the device id and the three bytes 0x1f stand. |
| Aad.AadReadsBackIff | crates/remotier-sync-proto/src/record.rs:108-118 | The associated data parses back to id, kind, clock and device, whatever bytes clock and device hold, if and only if the id has no separator. |
| Aad.AadBindsFourFields | crates/remotier-sync-proto/src/record.rs:98-107 | For such ids two envelopes have equal associated data if and only if they agree on the four bound fields. |
| Aad.ASeparatorInAnIdCollides | crates/remotier-sync-proto/src/record.rs:108-118 | Two different records with equal associated data when an id may hold the separator. |
| Crypto.WrapFor | crates/remotier-sync-proto/src/crypto.rs:245-261 | The blob is throwaway public key, nonce and ciphertext, encrypted under the key expanded from the agreed secret with both public keys as salt. |
| Crypto.InfoSpells | crates/remotier-sync-proto/src/crypto.rs:48 | The bytes that name this use of the derivation and the cipher. |
| Crypto.UnwrapInvertsWrap | crates/remotier-sync-proto/src/crypto.rs:264-278 | The recipient unwraps exactly the key that was wrapped, for every throwaway key and nonce. |
| Crypto.UnwrapsIff | crates/remotier-sync-proto/src/crypto.rs:264-289 | A blob opens for somebody exactly when what they expand from their secret and salt equals what the sender expanded, and is refused otherwise. |
| Crypto.UnwrapAnswers | crates/remotier-sync-proto/src/crypto.rs:264-289 | Fewer than 56 bytes, no decryption, a plaintext that is no key, and a key are answered as such, for any bytes. |
| Crypto.WrapsAgreeIff | crates/remotier-sync-proto/src/crypto.rs:280-289 | Two wraps alike in all that is public are the same if and only if the agreed secrets are, for a derivation that tells secrets apart. |
| Crypto.PublicValuesDoNotOpen | crates/remotier-sync-proto/src/crypto.rs:239-247 | Two sets of primitives differing only in the agreed secret, in which no one key opens the blob in both: none is worked out from the public values. |
| Crypto.OnlyTheRecipientUnwraps | crates/remotier-sync-proto/src/crypto.rs:243-253 | Holders of the recipient's public key open the blob; anyone else is refused if and only if the two derivations do not collide. |
| Crypto.GenerateRecoveryCode | crates/remotier-sync-proto/src/crypto.rs:295-306 | The code is four groups of five symbols drawn from the alphabet, with hyphens between. |
| Crypto.AlphabetIs | crates/remotier-sync-proto/src/crypto.rs:296 | Thirty-two symbols: the capitals but I, L, O and U, in order, and then the digits. |
| Crypto.CodesAgreeIff | crates/remotier-sync-proto/src/crypto.rs:297-304 | Two draws give the same code if and only if they agree in the low five bits of every byte used. |
| Crypto.StripJoins | crates/remotier-sync-proto/src/crypto.rs:103 | Stripping goes character by character. |
| Crypto.StripOne | crates/remotier-sync-proto/src/crypto.rs:103 | A hyphen and a space go, and nothing else does. |
| Crypto.RetypedCodeIsRecognisedIff | crates/remotier-sync-proto/src/crypto.rs:102-103 | What is typed normalises to the same string as the code if and only if, hyphens and spaces removed, it spells the symbols in any ASCII case. |

## Left out

- The PostgreSQL store: its numbers can commit out of order and its text order depends on the collation, so none of the log properties is claimed for it.
- Store.SqliteStore.ShareOwner: the statement has LIMIT 1 and no ORDER BY; the model returns the row with the least member id, as the primary key's index would. In groups with one owner the choice makes no difference; the results about groups with several (`PushesStayHomeIff`, `BatchesStayHomeIff`, `SharedRecordsKeepOneRowIff`, `AnOutsiderOverwrites`) rest on it.
- Sync.Push: the handler is one uninterrupted batch. Other requests may commit between its statements in the program; the results about runs therefore interleave single commits, and the equality with uncached pushes needs that no share changes during the batch.
- Sync.PushOne: the loop's body is split into two methods, one per record and one for routing it. The answers are the same.
- Sync.AcceptedNumbersIncrease: the cursor in a push response is the whole instance's high-water mark. It bounds the accepted numbers and nothing is claimed about pulling from it.
- Sync.Pull: the configured page size is a natural number here; a negative one, which SQLite reads as no limit, is not modelled.
- Convergence.DevicesConverge: client code is not in the repository, so a device is a replica by kind and id updated with the resolve rule, a set of unsent edits and a cursor. It assumes that equal clocks on one row mean equal contents. One id filed under several accounts, as when a member moves a record into a shared group, is allowed; then a replica holds the version with the greatest clock it was sent or wrote, which need not be the one in the account's own row (`Labels.AnybodyReachesMembers`), and is not made to forget rows the account may no longer see.
- Ordering.OrderDoesNotMatter: assumes likewise that equal clocks on one row mean equal contents; with two contents under one clock the first to arrive would stay.
- Sessions.TokensAreConserved: assumes that the tokens drawn are new; each handler runs as one atomic step, so a rewrap and the revocation after it are not separated.
- Sessions.OnlyTheLatestKeyOpens: hashing is idealised: a digest or a password hash determines what was hashed.
- Auth.SignIn: the hash verified in vain when there is no account, which only evens out timing, is left out, and the two doors share one method.
- Accounts.ByEmail: trimming, lower-casing and the byte length of text are whatever functions they are; nothing is assumed of them.
- Crypto.UnwrapInvertsWrap: X25519, HKDF and the cipher are any functions satisfying the laws stated in the file, which `Crypto.LawsCanBeMet` and `Crypto.PublicValuesDoNotOpen` show can hold together. Secrecy and probabilities are not modelled.
- That a rewrap touches no record needs no lemma: the handlers of accounts never see the records table.
- Integer widths: integers are unbounded, but for the 64-bit clock in the associated data; overflow of a clock plus the allowed skew, of the counter and of expiry times is not modelled.
- Foreign keys: who has an account is an input of `Sharing.Create`, and the model of records does not know the accounts table.
- Database failures: every statement succeeds.
- Key lookup, the listing of devices, share listings, instance information, configuration, HTTP routing, JSON, base64, creation timestamps: plumbing with no property spanning operations.
- Deriving keys from the password, and the payloads inside the ciphertext: library calls, and data the server never opens.

/** The limiter in front of the account handlers: how often one address gets to try a key. */
module Guessing {
  import opened RateLimit
  import opened Accounts
  import opened Auth
  import opened Sessions

  /** A request, the address it comes from, and the limiter's clock when it is asked. */
  datatype Knock = Knock(address: Address, at: int, call: Call)

  datatype Server = Server(db: AuthDb, hits: map<Address, seq<int>>)

  /** Registering, signing in and recovering ask the limiter first; the other handlers do not. */
  function Answer(cfg: Config, window: nat, max: nat, server: Server, x: Knock): (Server, Reply) {
    if Opens(x.call.request) then
      var (hits, ok) := Checked(server.hits, x.address, x.at, window, max);
      var (db, reply) := Handle(server.db, cfg, x.call.(withinLimit := ok));
      (Server(db, hits), reply)
    else
      var (db, reply) := Handle(server.db, cfg, x.call);
      (Server(db, server.hits), reply)
  }

  function AnswerAll(cfg: Config, window: nat, max: nat, knocks: seq<Knock>): Server {
    if knocks == [] then Server(NOBODY, map[])
    else Answer(cfg, window, max, AnswerAll(cfg, window, max, knocks[..|knocks| - 1]), knocks[|knocks| - 1]).0
  }

  /** Requests from `a` in `[from, from + width)` whose key, or registration, was looked at. */
  function LookedAt(cfg: Config, window: nat, max: nat, knocks: seq<Knock>, a: Address, from: int, width: nat): nat {
    if knocks == [] then 0 else
      var before, x := knocks[..|knocks| - 1], knocks[|knocks| - 1];
      var reply := Answer(cfg, window, max, AnswerAll(cfg, window, max, before), x).1;
      LookedAt(cfg, window, max, before, a, from, width)
      + if Opens(x.call.request) && x.address == a && from <= x.at < from + width && reply != Failed(RateLimited)
        then 1 else 0
  }

  /** What the limiter is asked, in order. */
  function Asked(knocks: seq<Knock>): seq<Attempt> {
    if knocks == [] then [] else
      var x, earlier := knocks[|knocks| - 1], Asked(knocks[..|knocks| - 1]);
      if Opens(x.call.request) then earlier + [Attempt(x.address, x.at)] else earlier
  }

  /** Refused by the limiter, a request is answered without a look at its key or at the accounts. */
  lemma RefusedIsNotLookedAt(db: AuthDb, cfg: Config, call: Call)
    requires Opens(call.request)
    ensures Handle(db, cfg, call).1 == Failed(RateLimited) <==> !call.withinLimit
    ensures !call.withinLimit ==> Handle(db, cfg, call) == (db, Failed(RateLimited))
  {}

  lemma AnswerTakes(cfg: Config, window: nat, max: nat, server: Server, x: Knock)
    ensures var (after, reply) := Answer(cfg, window, max, server, x);
            var (hits, ok) := Checked(server.hits, x.address, x.at, window, max);
            if Opens(x.call.request) then after.hits == hits && (reply != Failed(RateLimited) <==> ok)
            else after.hits == server.hits
  {
    hide Handle, Checked;
    if Opens(x.call.request) {
      var ok := Checked(server.hits, x.address, x.at, window, max).1;
      RefusedIsNotLookedAt(server.db, cfg, x.call.(withinLimit := ok));
    }
  }

  /** What was looked at is exactly what the limiter has admitted, whatever its clock does. */
  lemma {:induction false} LookedAtIsTaken(cfg: Config, window: nat, max: nat, knocks: seq<Knock>,
                                           a: Address, from: int, width: nat)
    ensures AnswerAll(cfg, window, max, knocks).hits == RunPruned(Asked(knocks), window, max).0
    ensures LookedAt(cfg, window, max, knocks, a, from, width)
         == AdmittedIn(Taken(Asked(knocks), window, max), a, from, width)
  {
    if knocks != [] {
      var before, x := knocks[..|knocks| - 1], knocks[|knocks| - 1];
      hide Answer, Checked, RunPruned, RunFull, Taken, AdmittedIn;
      LookedAtIsTaken(cfg, window, max, before, a, from, width);
      AnswerTakes(cfg, window, max, AnswerAll(cfg, window, max, before), x);
      if Opens(x.call.request) {
        var asked, attempt := Asked(before), Attempt(x.address, x.at);
        assert Asked(knocks) == asked + [attempt];
        OneMoreCall(asked, attempt, window, max);
        AdmittedOneMore(Taken(asked, window, max), attempt, a, from, width);
      }
    }
  }

  /**
   Over any run of any requests from anywhere: in every half-open interval shorter than the
   window by as much as the limiter's clock goes back, no address has more than `max` keys,
   recovery codes or registrations looked at.
   */
  lemma GuessingIsBounded(cfg: Config, window: nat, max: nat, knocks: seq<Knock>, a: Address, from: int,
                          back: nat, width: nat)
    requires GoesBackAtMost(Asked(knocks), back) && width + back <= window
    ensures LookedAt(cfg, window, max, knocks, a, from, width) <= max
  {
    LookedAtIsTaken(cfg, window, max, knocks, a, from, width);
    RateIsBoundedOverAllTime(Asked(knocks), window, max, back, width);
  }

  /** Any calls at all can be sign-ins. */
  function AsLogin(x: Attempt): Knock {
    Knock(x.address, x.at, Call(Login("", ""), 0, true, Draw("", "", "", "", ""), NO_DEVICE))
  }

  function AsLogins(calls: seq<Attempt>): seq<Knock> {
    seq(|calls|, i requires 0 <= i < |calls| => AsLogin(calls[i]))
  }

  lemma AskedOneMore(knocks: seq<Knock>, x: Knock)
    ensures Asked(knocks + [x])
         == if Opens(x.call.request) then Asked(knocks) + [Attempt(x.address, x.at)] else Asked(knocks)
  {
    assert (knocks + [x])[..|knocks|] == knocks;
  }

  lemma {:induction false} LoginsAsk(calls: seq<Attempt>)
    ensures Asked(AsLogins(calls)) == calls
  {
    if calls != [] {
      var rest, x := calls[..|calls| - 1], calls[|calls| - 1];
      LoginsAsk(rest);
      assert AsLogins(calls) == AsLogins(rest) + [AsLogin(x)];
      AskedOneMore(AsLogins(rest), AsLogin(x));
      hide Asked, AsLogins;
      assert calls == rest + [x];
    }
  }

  ghost predicate GuessesBounded(cfg: Config, window: nat, max: nat, knocks: seq<Knock>, width: nat) {
    forall a, from :: LookedAt(cfg, window, max, knocks, a, from, width) <= max
  }

  /** And no longer interval is safe: the bound holds over all runs exactly as the limiter's own does. */
  lemma GuessingIsBoundedIff(cfg: Config, window: nat, max: nat, back: nat, width: nat)
    ensures (forall knocks | GoesBackAtMost(Asked(knocks), back) :: GuessesBounded(cfg, window, max, knocks, width))
       <==> max == 0 || width == 0 || width + back <= window
  {
    RateIsBoundedIff(window, max, back, width);
    if max == 0 || width == 0 || width + back <= window {
      forall knocks | GoesBackAtMost(Asked(knocks), back) ensures GuessesBounded(cfg, window, max, knocks, width) {
        assert Bounded(Taken(Asked(knocks), window, max), width, max);
        forall a, from ensures LookedAt(cfg, window, max, knocks, a, from, width) <= max {
          LookedAtIsTaken(cfg, window, max, knocks, a, from, width);
        }
      }
    } else {
      var calls :| GoesBackAtMost(calls, back) && !Bounded(Taken(calls, window, max), width, max);
      var a, from :| AdmittedIn(Taken(calls, window, max), a, from, width) > max;
      LoginsAsk(calls);
      LookedAtIsTaken(cfg, window, max, AsLogins(calls), a, from, width);
      assert !GuessesBounded(cfg, window, max, AsLogins(calls), width);
    }
  }
}

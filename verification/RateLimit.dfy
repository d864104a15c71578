/**
 The limiter that slows guessing down. It keeps a pruned list of times per
 address; the full history of admitted attempts is what it is measured against.
 */
module RateLimit {
  import opened Record

  type Address = Text

  datatype Attempt = Attempt(address: Address, at: int)

  /** `Instant::duration_since` is zero for an instant still ahead. */
  function Elapsed(now: int, t: int): nat { if now >= t then now - t else 0 }

  /** The times less than a window ago. */
  function Recent(times: seq<int>, now: int, window: nat): seq<int> {
    if times == [] then [] else
      var earlier := Recent(times[..|times| - 1], now, window);
      if Elapsed(now, times[|times| - 1]) < window then earlier + [times[|times| - 1]] else earlier
  }

  /** Every list pruned, and the addresses left with none dropped. */
  function Sweep(hits: map<Address, seq<int>>, now: int, window: nat): map<Address, seq<int>> {
    map a | a in hits && Recent(hits[a], now, window) != [] :: Recent(hits[a], now, window)
  }

  function TimesOf(hits: map<Address, seq<int>>, a: Address): seq<int> { if a in hits then hits[a] else [] }

  /** What one call answers and leaves behind. The entry is made even when the answer is no. */
  function Checked(hits: map<Address, seq<int>>, a: Address, now: int, window: nat, max: nat)
    : (map<Address, seq<int>>, bool)
  {
    var swept := Sweep(hits, now, window);
    var times := TimesOf(swept, a);
    if |times| >= max then (swept[a := times], false) else (swept[a := times + [now]], true)
  }

  // ---- the full history -------------------------------------------------------------------

  function History(log: seq<Attempt>, a: Address): seq<int> {
    if log == [] then [] else
      var earlier := History(log[..|log| - 1], a);
      if log[|log| - 1].address == a then earlier + [log[|log| - 1].at] else earlier
  }

  /** The limiter that forgets nothing: fewer than `max` admitted within the window. */
  predicate Admits(log: seq<Attempt>, a: Address, now: int, window: nat, max: nat) {
    |Recent(History(log, a), now, window)| < max
  }

  function Remember(log: seq<Attempt>, a: Address, now: int, window: nat, max: nat): seq<Attempt> {
    if Admits(log, a, now, window, max) then log + [Attempt(a, now)] else log
  }

  /** From `high` on, the pruned lists and the full history cannot be told apart. */
  ghost predicate Refines(hits: map<Address, seq<int>>, log: seq<Attempt>, high: int, window: nat) {
    forall a, now | now >= high ::
      Recent(TimesOf(hits, a), now, window) == Recent(History(log, a), now, window)
  }

  /** At no time at all do the pruned lists count more than the full history. */
  ghost predicate NeverStricter(hits: map<Address, seq<int>>, log: seq<Attempt>, window: nat) {
    forall a, now ::
      |Recent(TimesOf(hits, a), now, window)| <= |Recent(History(log, a), now, window)|
  }

  function Logged(log: seq<Attempt>, a: Address, now: int, ok: bool): seq<Attempt> {
    if ok then log + [Attempt(a, now)] else log
  }

  lemma {:induction false} PruningTwice(times: seq<int>, now: int, later: int, window: nat)
    ensures now <= later ==> Recent(Recent(times, now, window), later, window) == Recent(times, later, window)
    ensures |Recent(Recent(times, now, window), later, window)| <= |Recent(times, later, window)|
  {
    if times != [] {
      var rest, t := times[..|times| - 1], times[|times| - 1];
      PruningTwice(rest, now, later, window);
      var kept := Recent(rest, now, window);
      assert (kept + [t])[..|kept|] == kept;
    }
  }

  lemma RecentOneMore(times: seq<int>, t: int, now: int, window: nat)
    ensures Recent(times + [t], now, window)
         == if Elapsed(now, t) < window then Recent(times, now, window) + [t] else Recent(times, now, window)
  {
    assert (times + [t])[..|times|] == times;
  }

  lemma HistoryOneMore(log: seq<Attempt>, a: Address, now: int, b: Address)
    ensures History(log + [Attempt(a, now)], b) == if a == b then History(log, b) + [now] else History(log, b)
  {
    assert (log + [Attempt(a, now)])[..|log|] == log;
  }

  lemma SweptTimes(hits: map<Address, seq<int>>, b: Address, now: int, window: nat)
    ensures TimesOf(Sweep(hits, now, window), b) == Recent(TimesOf(hits, b), now, window)
  {}

  /** What one call does to each address's list. */
  lemma CheckedTimes(hits: map<Address, seq<int>>, a: Address, now: int, window: nat, max: nat, b: Address)
    ensures var (after, ok) := Checked(hits, a, now, window, max);
            && ok == (|Recent(TimesOf(hits, a), now, window)| < max)
            && TimesOf(after, b) == if ok && b == a then Recent(TimesOf(hits, b), now, window) + [now]
                                    else Recent(TimesOf(hits, b), now, window)
  {
    SweptTimes(hits, a, now, window);
    SweptTimes(hits, b, now, window);
    hide Recent, Sweep;
  }

  /** One address at one later time: what is left of its list after the call, and of its history. */
  lemma CheckRefinesAt(hits: map<Address, seq<int>>, log: seq<Attempt>,
                       a: Address, now: int, window: nat, max: nat, b: Address, later: int)
    ensures var (after, ok) := Checked(hits, a, now, window, max);
            var mine, full := Recent(TimesOf(hits, b), later, window), Recent(History(log, b), later, window);
            var mine', full' := Recent(TimesOf(after, b), later, window),
                                Recent(History(Logged(log, a, now, ok), b), later, window);
            && (now <= later && mine == full ==> mine' == full')
            && (|mine| <= |full| ==> |mine'| <= |full'|)
  {
    var (after, ok) := Checked(hits, a, now, window, max);
    CheckedTimes(hits, a, now, window, max, b);
    PruningTwice(TimesOf(hits, b), now, later, window);
    HistoryOneMore(log, a, now, b);
    RecentOneMore(Recent(TimesOf(hits, b), now, window), now, later, window);
    RecentOneMore(History(log, b), now, later, window);
    hide Recent, History, Checked;
  }

  /**
   Pruning the whole map at every call loses nothing that a call at a time no earlier than all
   those before could ask about, and never makes the limiter stricter - whatever the clock does.
   */
  lemma {:induction false} CheckRefinesHistory(hits: map<Address, seq<int>>, log: seq<Attempt>, high: int,
                                               a: Address, now: int, window: nat, max: nat)
    requires Refines(hits, log, high, window) && NeverStricter(hits, log, window)
    ensures var (after, ok) := Checked(hits, a, now, window, max);
            var log' := Logged(log, a, now, ok);
            && (Admits(log, a, now, window, max) ==> ok)
            && (high <= now ==> ok == Admits(log, a, now, window, max))
            && Refines(after, log', if now > high then now else high, window)
            && NeverStricter(after, log', window)
  {
    CheckedTimes(hits, a, now, window, max, a);
    var (after, ok) := Checked(hits, a, now, window, max);
    var log' := Logged(log, a, now, ok);
    hide Recent, History, Checked, Logged;
    assert |Recent(TimesOf(hits, a), now, window)| <= |Recent(History(log, a), now, window)|;
    forall b, later
      ensures later >= high && later >= now ==>
                Recent(TimesOf(after, b), later, window) == Recent(History(log', b), later, window)
      ensures |Recent(TimesOf(after, b), later, window)| <= |Recent(History(log', b), later, window)|
    {
      CheckRefinesAt(hits, log, a, now, window, max, b, later);
      assert |Recent(TimesOf(hits, b), later, window)| <= |Recent(History(log, b), later, window)|;
    }
  }

  // ---- the bound ----------------------------------------------------------------------------

  /** Attempts by `a` admitted at times in `[from, from + width)`. */
  function AdmittedIn(log: seq<Attempt>, a: Address, from: int, width: nat): nat {
    if log == [] then 0 else
      var x := log[|log| - 1];
      AdmittedIn(log[..|log| - 1], a, from, width)
      + if x.address == a && from <= x.at < from + width then 1 else 0
  }

  ghost predicate Bounded(log: seq<Attempt>, width: nat, max: nat) {
    forall a, from :: AdmittedIn(log, a, from, width) <= max
  }

  function CountIn(times: seq<int>, from: int, width: nat): nat {
    if times == [] then 0 else
      CountIn(times[..|times| - 1], from, width) + if from <= times[|times| - 1] < from + width then 1 else 0
  }

  lemma CountOneMore(times: seq<int>, t: int, from: int, width: nat)
    ensures CountIn(times + [t], from, width) == CountIn(times, from, width) + if from <= t < from + width then 1 else 0
  {
    assert (times + [t])[..|times|] == times;
  }

  lemma {:induction false} AdmittedIsCounted(log: seq<Attempt>, a: Address, from: int, width: nat)
    ensures AdmittedIn(log, a, from, width) == CountIn(History(log, a), from, width)
  {
    if log != [] {
      var rest, x := log[..|log| - 1], log[|log| - 1];
      AdmittedIsCounted(rest, a, from, width);
      CountOneMore(History(rest, a), x.at, from, width);
    }
  }

  /** Pruning drops nothing from an interval that begins less than a window ago. */
  lemma {:induction false} PruningKeepsCount(times: seq<int>, now: int, from: int, width: nat, window: nat)
    requires now < from + window && window > 0
    ensures CountIn(Recent(times, now, window), from, width) == CountIn(times, from, width)
  {
    if times != [] {
      var rest, t := times[..|times| - 1], times[|times| - 1];
      PruningKeepsCount(rest, now, from, width, window);
      CountOneMore(Recent(rest, now, window), t, from, width);
    }
  }

  /** An interval around `now`, no longer than the window, holds no more than is recent. */
  lemma {:induction false} CountIsRecent(times: seq<int>, now: int, from: int, width: nat, window: nat)
    requires from <= now < from + width <= from + window
    ensures CountIn(times, from, width) <= |Recent(times, now, window)|
  {
    if times != [] { CountIsRecent(times[..|times| - 1], now, from, width, window); }
  }

  lemma AdmittedOneMore(log: seq<Attempt>, x: Attempt, a: Address, from: int, width: nat)
    ensures AdmittedIn(log + [x], a, from, width)
         == AdmittedIn(log, a, from, width) + if x.address == a && from <= x.at < from + width then 1 else 0
  {
    assert (log + [x])[..|log|] == log;
  }

  /** The full history keeps to the bound by itself, whatever the clock does. */
  lemma {:induction false} RecordKeepsTheBound(log: seq<Attempt>, a: Address, now: int, window: nat, max: nat)
    requires Bounded(log, window, max)
    ensures Bounded(Remember(log, a, now, window, max), window, max)
  {
    forall b, from ensures AdmittedIn(Remember(log, a, now, window, max), b, from, window) <= max {
      assert AdmittedIn(log, b, from, window) <= max;
      AdmittedOneMore(log, Attempt(a, now), b, from, window);
      if from <= now < from + window {
        AdmittedIsCounted(log, a, from, window);
        CountIsRecent(History(log, a), now, from, window, window);
      }
    }
  }

  /** So does the pruned map, for intervals shorter than the window by what the clock goes back. */
  lemma CheckKeepsTheBound(hits: map<Address, seq<int>>, log: seq<Attempt>, a: Address, now: int,
                           window: nat, max: nat, back: nat, width: nat)
    requires Refines(hits, log, now + back, window) && width + back <= window
    requires Bounded(log, width, max)
    ensures Bounded(Logged(log, a, now, Checked(hits, a, now, window, max).1), width, max)
  {
    var ok := Checked(hits, a, now, window, max).1;
    CheckedTimes(hits, a, now, window, max, a);
    hide Checked;
    forall b, from ensures AdmittedIn(Logged(log, a, now, ok), b, from, width) <= max {
      assert AdmittedIn(log, b, from, width) <= max;
      AdmittedOneMore(log, Attempt(a, now), b, from, width);
      if from <= now < from + width {
        var high, mine, full := now + back, TimesOf(hits, a), History(log, a);
        AdmittedIsCounted(log, a, from, width);
        assert Recent(mine, high, window) == Recent(full, high, window);
        PruningKeepsCount(mine, high, from, width, window);
        PruningKeepsCount(full, high, from, width, window);
        CountIsRecent(mine, now, from, width, window);
      }
    }
  }

  // ---- whole runs ------------------------------------------------------------------------------

  /** Calls in the order the lock was taken: the clock goes back along them by at most `back`. */
  ghost predicate GoesBackAtMost(calls: seq<Attempt>, back: nat) {
    forall i, j | 0 <= i < j < |calls| :: calls[i].at <= calls[j].at + back
  }

  function RunPruned(calls: seq<Attempt>, window: nat, max: nat): (map<Address, seq<int>>, seq<bool>) {
    if calls == [] then (map[], []) else
      var (hits, answers) := RunPruned(calls[..|calls| - 1], window, max);
      var (after, ok) := Checked(hits, calls[|calls| - 1].address, calls[|calls| - 1].at, window, max);
      (after, answers + [ok])
  }

  /** What the limiter has admitted. */
  function Taken(calls: seq<Attempt>, window: nat, max: nat): seq<Attempt> {
    if calls == [] then [] else
      var rest, x := calls[..|calls| - 1], calls[|calls| - 1];
      Logged(Taken(rest, window, max), x.address, x.at,
             Checked(RunPruned(rest, window, max).0, x.address, x.at, window, max).1)
  }

  function RunFull(calls: seq<Attempt>, window: nat, max: nat): (seq<Attempt>, seq<bool>) {
    if calls == [] then ([], []) else
      var (log, answers) := RunFull(calls[..|calls| - 1], window, max);
      var x := calls[|calls| - 1];
      (Remember(log, x.address, x.at, window, max), answers + [Admits(log, x.address, x.at, window, max)])
  }

  lemma OneMoreCall(calls: seq<Attempt>, x: Attempt, window: nat, max: nat)
    ensures var (hits, answers) := RunPruned(calls, window, max);
            var (after, ok) := Checked(hits, x.address, x.at, window, max);
            && RunPruned(calls + [x], window, max) == (after, answers + [ok])
            && Taken(calls + [x], window, max) == Logged(Taken(calls, window, max), x.address, x.at, ok)
    ensures RunFull(calls + [x], window, max)
         == var (log, answers) := RunFull(calls, window, max);
            (Remember(log, x.address, x.at, window, max), answers + [Admits(log, x.address, x.at, window, max)])
  {
    assert (calls + [x])[..|calls|] == calls;
  }

  /** Over any run the map stands for what was admitted, for all times from the latest call's on. */
  lemma {:induction false} RunRefines(calls: seq<Attempt>, window: nat, max: nat, high: int)
    requires forall i | 0 <= i < |calls| :: calls[i].at <= high
    ensures Refines(RunPruned(calls, window, max).0, Taken(calls, window, max), high, window)
    ensures NeverStricter(RunPruned(calls, window, max).0, Taken(calls, window, max), window)
  {
    if calls != [] {
      var rest, x := calls[..|calls| - 1], calls[|calls| - 1];
      RunRefines(rest, window, max, high);
      hide Refines, NeverStricter, Checked, Logged;
      CheckRefinesHistory(RunPruned(rest, window, max).0, Taken(rest, window, max), high, x.address, x.at, window, max);
    }
  }

  /**
   Over any run, in every interval shorter than the window by as much as the clock goes back,
   aligned with a call or not, each address was admitted at most `max` times.
   */
  lemma {:induction false} RateIsBoundedOverAllTime(calls: seq<Attempt>, window: nat, max: nat, back: nat, width: nat)
    requires GoesBackAtMost(calls, back) && width + back <= window
    ensures Bounded(Taken(calls, window, max), width, max)
  {
    if calls != [] {
      var rest, x := calls[..|calls| - 1], calls[|calls| - 1];
      RateIsBoundedOverAllTime(rest, window, max, back, width);
      RunRefines(rest, window, max, x.at + back);
      hide Refines, NeverStricter, Checked, Logged, Bounded;
      CheckKeepsTheBound(RunPruned(rest, window, max).0, Taken(rest, window, max), x.address, x.at, window, max,
                         back, width);
    }
  }

  /** With a clock that does not go back every answer is the full history's. */
  lemma {:induction false} AnswersMatch(calls: seq<Attempt>, window: nat, max: nat)
    requires GoesBackAtMost(calls, 0)
    ensures RunFull(calls, window, max) == (Taken(calls, window, max), RunPruned(calls, window, max).1)
  {
    if calls != [] {
      var rest, x := calls[..|calls| - 1], calls[|calls| - 1];
      AnswersMatch(rest, window, max);
      RunRefines(rest, window, max, x.at);
      hide Refines, NeverStricter, Checked, Admits;
      CheckRefinesHistory(RunPruned(rest, window, max).0, Taken(rest, window, max), x.at, x.address, x.at, window, max);
    }
  }

  // ---- exactly how much a clock going back costs ---------------------------------------------

  /** `a`, `n` times at 0. */
  function Filled(a: Address, n: nat): (s: seq<Attempt>)
    ensures |s| == n && forall i | 0 <= i < n :: s[i] == Attempt(a, 0)
  {
    seq(n, i => Attempt(a, 0))
  }

  lemma FilledOneMore(a: Address, n: nat)
    requires n > 0
    ensures Filled(a, n) == Filled(a, n - 1) + [Attempt(a, 0)]
  {}

  lemma {:induction false} FilledHistory(a: Address, n: nat, b: Address, now: nat, window: nat)
    ensures |Recent(History(Filled(a, n), b), now, window)| == if a == b && now < window then n else 0
  {
    if n > 0 {
      var rest := Filled(a, n - 1);
      FilledOneMore(a, n);
      hide Recent, History, Filled;
      FilledHistory(a, n - 1, b, now, window);
      HistoryOneMore(rest, a, 0, b);
      RecentOneMore(History(rest, b), 0, now, window);
    }
  }

  lemma {:induction false} FilledIsCounted(a: Address, n: nat, width: nat)
    requires width > 0
    ensures AdmittedIn(Filled(a, n), a, 0, width) == n
  {
    if n > 0 {
      hide AdmittedIn, Filled;
      FilledOneMore(a, n);
      FilledIsCounted(a, n - 1, width);
      AdmittedOneMore(Filled(a, n - 1), Attempt(a, 0), a, 0, width);
    }
  }

  /** A call no earlier than those before, with room left, is admitted like them. */
  lemma OneMoreIsTaken(calls: seq<Attempt>, x: Attempt, window: nat, max: nat)
    requires Taken(calls, window, max) == calls && forall i | 0 <= i < |calls| :: calls[i].at <= x.at
    requires Admits(calls, x.address, x.at, window, max)
    ensures Taken(calls + [x], window, max) == calls + [x]
  {
    RunRefines(calls, window, max, x.at);
    hide *;
    CheckRefinesHistory(RunPruned(calls, window, max).0, calls, x.at, x.address, x.at, window, max);
    OneMoreCall(calls, x, window, max);
    LoggedIs(calls, x);
  }

  lemma LoggedIs(calls: seq<Attempt>, x: Attempt)
    ensures Logged(calls, x.address, x.at, true) == calls + [x]
  {}

  lemma {:induction false} FilledIsTaken(a: Address, n: nat, window: nat, max: nat)
    requires n <= max
    ensures Taken(Filled(a, n), window, max) == Filled(a, n)
  {
    if n > 0 {
      hide Taken, Recent, History, Filled;
      FilledOneMore(a, n);
      FilledIsTaken(a, n - 1, window, max);
      FilledHistory(a, n - 1, a, 0, window);
      OneMoreIsTaken(Filled(a, n - 1), Attempt(a, 0), window, max);
    }
  }

  lemma BackOneMore(calls: seq<Attempt>, x: Attempt, back: nat)
    requires GoesBackAtMost(calls, back) && forall i | 0 <= i < |calls| :: calls[i].at <= x.at + back
    ensures GoesBackAtMost(calls + [x], back)
  {}

  /** Another's call a window later makes the map forget all that. */
  function ThenAnother(a: Address, b: Address, window: nat, max: nat): seq<Attempt> {
    Filled(a, max) + [Attempt(b, window)]
  }

  lemma AnotherMakesItForget(a: Address, b: Address, window: nat, max: nat)
    requires max > 0 && a != b
    ensures var calls := ThenAnother(a, b, window, max);
            && Taken(calls, window, max) == calls
            && TimesOf(RunPruned(calls, window, max).0, a) == []
  {
    var rest, x := Filled(a, max), Attempt(b, window);
    var hits := RunPruned(rest, window, max).0;
    hide Checked, RunPruned, Taken, Recent, History, RunFull, Filled;
    FilledHistory(a, max, a, window, window);
    FilledHistory(a, max, b, window, window);
    FilledIsTaken(a, max, window, max);
    OneMoreIsTaken(rest, x, window, max);
    RunRefines(rest, window, max, window);
    assert Recent(TimesOf(hits, a), window, window) == Recent(History(rest, a), window, window);
    hide Refines, NeverStricter;
    OneMoreCall(rest, x, window, max);
    CheckedTimes(hits, b, window, window, max, a);
  }

  lemma RecentOfNone(now: int, window: nat)
    ensures Recent([], now, window) == []
  {}

  /** One address at 0 as often as may be; another, a window later; and the first at `t`, the clock gone back. */
  function Overrun(a: Address, b: Address, window: nat, max: nat, t: nat): seq<Attempt> {
    ThenAnother(a, b, window, max) + [Attempt(a, t)]
  }

  lemma OverrunGoesBack(a: Address, b: Address, window: nat, max: nat, t: nat, back: nat)
    requires t <= window <= t + back
    ensures GoesBackAtMost(ThenAnother(a, b, window, max), 0)
    ensures GoesBackAtMost(Overrun(a, b, window, max, t), back)
  {
    hide Filled;
    BackOneMore(Filled(a, max), Attempt(b, window), 0);
    BackOneMore(ThenAnother(a, b, window, max), Attempt(a, t), back);
  }

  lemma OverrunIsAdmitted(a: Address, b: Address, window: nat, max: nat, t: nat, width: nat)
    requires max > 0 && t < width && a != b
    ensures AdmittedIn(Taken(Overrun(a, b, window, max, t), window, max), a, 0, width) == max + 1
    ensures RunPruned(Overrun(a, b, window, max, t), window, max).1
         == RunPruned(ThenAnother(a, b, window, max), window, max).1 + [true]
  {
    var earlier := ThenAnother(a, b, window, max);
    AnotherMakesItForget(a, b, window, max);
    FilledIsCounted(a, max, width);
    RecentOfNone(t, window);
    AdmittedOneMore(Filled(a, max), Attempt(b, window), a, 0, width);
    AdmittedOneMore(earlier, Attempt(a, t), a, 0, width);
    assert AdmittedIn(earlier, a, 0, width) == max;
    hide Checked, RunPruned, Taken, Recent, RunFull, AdmittedIn, Filled, ThenAnother;
    OneMoreCall(earlier, Attempt(a, t), window, max);
    CheckedTimes(RunPruned(earlier, window, max).0, a, t, window, max, a);
  }

  lemma OverrunIsRefused(a: Address, b: Address, window: nat, max: nat, t: nat)
    requires max > 0 && t < window && a != b
    ensures RunFull(Overrun(a, b, window, max, t), window, max).1
         == RunPruned(ThenAnother(a, b, window, max), window, max).1 + [false]
  {
    var earlier := ThenAnother(a, b, window, max);
    AnotherMakesItForget(a, b, window, max);
    OverrunGoesBack(a, b, window, max, window, 0);
    HistoryOneMore(Filled(a, max), b, window, a);
    FilledHistory(a, max, a, t, window);
    assert !Admits(earlier, a, t, window, max);
    hide Checked, RunPruned, Taken, Recent, History, RunFull, Filled, ThenAnother, Admits;
    AnswersMatch(earlier, window, max);
    OneMoreCall(earlier, Attempt(a, t), window, max);
  }

  lemma {:induction false} NothingTaken(calls: seq<Attempt>, window: nat)
    ensures Taken(calls, window, 0) == []
  {
    if calls != [] { NothingTaken(calls[..|calls| - 1], window); }
  }

  lemma {:induction false} NothingInNoTime(log: seq<Attempt>, a: Address, from: int)
    ensures AdmittedIn(log, a, from, 0) == 0
  {
    if log != [] { NothingInNoTime(log[..|log| - 1], a, from); }
  }

  lemma {:induction false} NothingIsRecent(times: seq<int>, now: int)
    ensures Recent(times, now, 0) == []
  {
    if times != [] { NothingIsRecent(times[..|times| - 1], now); }
  }

  lemma {:induction false} IdleAnswersMatch(calls: seq<Attempt>, window: nat, max: nat)
    requires max == 0 || window == 0
    ensures RunPruned(calls, window, max).1 == RunFull(calls, window, max).1
  {
    if calls != [] {
      var rest, x := calls[..|calls| - 1], calls[|calls| - 1];
      IdleAnswersMatch(rest, window, max);
      var hits, log := RunPruned(rest, window, max).0, RunFull(rest, window, max).0;
      CheckedTimes(hits, x.address, x.at, window, max, x.address);
      NothingIsRecent(TimesOf(hits, x.address), x.at);
      NothingIsRecent(History(log, x.address), x.at);
      hide Checked, Recent, History;
    }
  }

  /**
   Where the clock may go back by `back` - it is read before the lock is taken - no address gets
   more than `max` attempts into any interval of `width`, whatever the run, if and only if
   `width` is at most the window less `back` (or nothing is admitted or asked about at all).
   */
  lemma {:induction false} RateIsBoundedIff(window: nat, max: nat, back: nat, width: nat)
    ensures (forall calls | GoesBackAtMost(calls, back) :: Bounded(Taken(calls, window, max), width, max))
       <==> max == 0 || width == 0 || width + back <= window
  {
    if max == 0 || width == 0 || width + back <= window {
      forall calls | GoesBackAtMost(calls, back) ensures Bounded(Taken(calls, window, max), width, max) {
        if width + back <= window {
          RateIsBoundedOverAllTime(calls, window, max, back, width);
        } else if max == 0 {
          NothingTaken(calls, window);
        } else {
          forall a, from { NothingInNoTime(Taken(calls, window, max), a, from); }
        }
      }
    } else {
      var t := if back <= window then window - back else 0;
      var a: Address, b: Address := [], [0];
      OverrunGoesBack(a, b, window, max, t, back);
      OverrunIsAdmitted(a, b, window, max, t, width);
      assert !Bounded(Taken(Overrun(a, b, window, max, t), window, max), width, max);
    }
  }

  /** And the limiter answers as the full history would, in every run, if and only if the clock never goes back. */
  lemma AnswersMatchIff(window: nat, max: nat, back: nat)
    ensures (forall calls | GoesBackAtMost(calls, back) ::
               RunPruned(calls, window, max).1 == RunFull(calls, window, max).1)
       <==> back == 0 || max == 0 || window == 0
  {
    if back == 0 || max == 0 || window == 0 {
      forall calls | GoesBackAtMost(calls, back)
        ensures RunPruned(calls, window, max).1 == RunFull(calls, window, max).1
      {
        if back == 0 { AnswersMatch(calls, window, max); } else { IdleAnswersMatch(calls, window, max); }
      }
    } else {
      var calls := AClockGoingBackForgets([], [0], window, max, back);
    }
  }

  /** Any limiter, by any backward step of the clock, can be made to admit one too many in one window. */
  lemma {:induction false} AClockGoingBackForgets(a: Address, b: Address, window: nat, max: nat, back: nat)
    returns (calls: seq<Attempt>)
    requires window > 0 && max > 0 && back > 0 && a != b
    ensures GoesBackAtMost(calls, back)
    ensures AdmittedIn(Taken(calls, window, max), a, 0, window) == max + 1
    ensures RunPruned(calls, window, max).1 != RunFull(calls, window, max).1
  {
    var t := if back <= window then window - back else 0;
    calls := Overrun(a, b, window, max, t);
    OverrunGoesBack(a, b, window, max, t, back);
    OverrunIsAdmitted(a, b, window, max, t, window);
    OverrunIsRefused(a, b, window, max, t);
    var answers := RunPruned(ThenAnother(a, b, window, max), window, max).1;
    assert (answers + [true])[|answers|] != (answers + [false])[|answers|];
  }

  // ---- the map does not grow -------------------------------------------------------------------

  function Inside(log: seq<Attempt>, now: int, window: nat): nat {
    if log == [] then 0 else
      Inside(log[..|log| - 1], now, window) + if Elapsed(now, log[|log| - 1].at) < window then 1 else 0
  }

  function AddressesInside(log: seq<Attempt>, now: int, window: nat): set<Address> {
    if log == [] then {} else
      var x, earlier := log[|log| - 1], AddressesInside(log[..|log| - 1], now, window);
      if Elapsed(now, x.at) < window then earlier + {x.address} else earlier
  }

  lemma {:induction false} FewAddresses(log: seq<Attempt>, now: int, window: nat)
    ensures |AddressesInside(log, now, window)| <= Inside(log, now, window)
  {
    if log != [] { FewAddresses(log[..|log| - 1], now, window); }
  }

  lemma {:induction false} RecentMeansInside(log: seq<Attempt>, a: Address, now: int, window: nat)
    requires Recent(History(log, a), now, window) != []
    ensures a in AddressesInside(log, now, window)
  {
    var rest, x := log[..|log| - 1], log[|log| - 1];
    if x.address == a { RecentOneMore(History(rest, a), x.at, now, window); }
    if x.address != a || Elapsed(now, x.at) >= window { RecentMeansInside(rest, a, now, window); }
  }

  /**
   After a call the map has no more addresses than admitted attempts still inside the window -
   but for the entry a limiter set to admit nothing, or never to remember, leaves for the caller.
   */
  lemma MapStaysSmall(hits: map<Address, seq<int>>, log: seq<Attempt>, a: Address, now: int, window: nat, max: nat)
    requires NeverStricter(hits, log, window)
    ensures var (after, ok) := Checked(hits, a, now, window, max);
            |after| <= Inside(Logged(log, a, now, ok), now, window) + if max == 0 || window == 0 then 1 else 0
  {
    var (after, ok) := Checked(hits, a, now, window, max);
    var log' := Logged(log, a, now, ok);
    var inside := AddressesInside(log', now, window);
    FewAddresses(log', now, window);
    forall b | b in after.Keys && (b != a || (max > 0 && window > 0)) ensures b in inside {
      CheckedTimes(hits, a, now, window, max, b);
      PruningTwice(TimesOf(hits, b), now, now, window);
      RecentOneMore(Recent(TimesOf(hits, b), now, window), now, now, window);
      CheckRefinesAt(hits, log, a, now, window, max, b, now);
      assert |Recent(TimesOf(hits, b), now, window)| <= |Recent(History(log, b), now, window)|;
      assert Recent(TimesOf(after, b), now, window) != [];
      RecentMeansInside(log', b, now, window);
    }
    assert after.Keys <= inside + {a};
    if max > 0 && window > 0 { Subset(after.Keys, inside); } else { Subset(after.Keys, inside + {a}); }
    assert |after| == |after.Keys|;
  }

  lemma {:induction false} Subset(small: set<Address>, big: set<Address>)
    requires small <= big
    ensures |small| <= |big|
  {
    if small != {} {
      var x :| x in small;
      Subset(small - {x}, big - {x});
    }
  }

  lemma {:induction false} NothingInsideAnEmptyWindow(log: seq<Attempt>, now: int)
    ensures Inside(log, now, 0) == 0
  {
    if log != [] { NothingInsideAnEmptyWindow(log[..|log| - 1], now); }
  }

  /**
   It has no more addresses than there are admitted attempts inside the window exactly when the
   limiter admits anything at all and remembers it for any time at all.
   */
  lemma MapStaysSmallIff(hits: map<Address, seq<int>>, log: seq<Attempt>, a: Address, now: int, window: nat, max: nat)
    requires NeverStricter(hits, log, window) && (max == 0 ==> log == [])
    ensures var (after, ok) := Checked(hits, a, now, window, max);
            |after| <= Inside(Logged(log, a, now, ok), now, window) <==> max > 0 && window > 0
  {
    var (after, ok) := Checked(hits, a, now, window, max);
    if max > 0 && window > 0 {
      MapStaysSmall(hits, log, a, now, window, max);
    } else {
      if window == 0 { NothingInsideAnEmptyWindow(Logged(log, a, now, ok), now); }
      Subset({a}, after.Keys);
      assert |after| == |after.Keys|;
    }
  }

  /** The smallest case: one refused call to an empty limiter that admits nothing. */
  lemma ARefusedCallerStaysInTheMap(a: Address, now: int, window: nat)
    ensures var (after, ok) := Checked(map[], a, now, window, 0);
            !ok && |after| == 1 && Inside([], now, window) == 0
  {
    assert Checked(map[], a, now, window, 0).0 == map[a := []];
  }

  // ---- the object --------------------------------------------------------------------------------

  /** All that holds after one more call of a run, whatever the clock does. */
  lemma OneMoreCheck(calls: seq<Attempt>, a: Address, now: int, window: nat, max: nat)
    ensures var hits, log := RunPruned(calls, window, max).0, Taken(calls, window, max);
            var (after, ok) := Checked(hits, a, now, window, max);
            var calls' := calls + [Attempt(a, now)];
            var log' := Logged(log, a, now, ok);
            && after == RunPruned(calls', window, max).0 && log' == Taken(calls', window, max)
            && (Admits(log, a, now, window, max) ==> ok)
            && (NoneLater(calls, now) ==> ok == Admits(log, a, now, window, max))
            && WithinBounds(calls', log', window, max)
            && |after| <= Inside(log', now, window) + (if max == 0 || window == 0 then 1 else 0)
            && (|after| <= Inside(log', now, window) <==> max > 0 && window > 0)
  {
    var hits, log := RunPruned(calls, window, max).0, Taken(calls, window, max);
    var calls' := calls + [Attempt(a, now)];
    OneMoreCall(calls, Attempt(a, now), window, max);
    var high := Highest(calls, now);
    RunRefines(calls, window, max, high);
    CheckRefinesHistory(hits, log, high, a, now, window, max);
    MapStaysSmall(hits, log, a, now, window, max);
    if max == 0 { NothingTaken(calls, window); }
    MapStaysSmallIff(hits, log, a, now, window, max);
    forall back: nat, width: nat | GoesBackAtMost(calls', back) && width + back <= window
      ensures Bounded(Taken(calls', window, max), width, max)
    {
      RateIsBoundedOverAllTime(calls', window, max, back, width);
    }
    hide RunPruned, Taken, Checked, Admits, Refines, NeverStricter, Bounded, Inside, Logged, RunFull, GoesBackAtMost;
  }

  ghost predicate NoneLater(calls: seq<Attempt>, now: int) {
    forall i | 0 <= i < |calls| :: calls[i].at <= now
  }

  /** For intervals shorter than the window by as much as the clock has gone back. */
  ghost predicate WithinBounds(calls: seq<Attempt>, log: seq<Attempt>, window: nat, max: nat) {
    forall back: nat, width: nat | GoesBackAtMost(calls, back) && width + back <= window :: Bounded(log, width, max)
  }

  function Highest(calls: seq<Attempt>, now: int): (high: int)
    ensures NoneLater(calls, high) && now <= high
    ensures NoneLater(calls, now) ==> high == now
  {
    if calls == [] then now else
      var earlier := Highest(calls[..|calls| - 1], now);
      if calls[|calls| - 1].at > earlier then calls[|calls| - 1].at else earlier
  }

  /** Sweep, entry, length test and push, one after another, are one check. */
  lemma SweepEntryPush(hits: map<Address, seq<int>>, a: Address, now: int, window: nat, max: nat)
    ensures var swept := Sweep(hits, now, window);
            var entered := if a in swept then swept else swept[a := []];
            Checked(hits, a, now, window, max)
            == if |entered[a]| >= max then (entered, false) else (entered[a := entered[a] + [now]], true)
  {
    hide Sweep, Recent;
    var swept := Sweep(hits, now, window);
    var times := TimesOf(swept, a);
    var entered := if a in swept then swept else swept[a := []];
    assert entered == swept[a := times];
    assert entered[a := times + [now]] == swept[a := times + [now]];
  }

  class RateLimit {
    const window: nat
    const max: nat
    var hits: map<Address, seq<int>>
    /** Every call ever made, and every one admitted. */
    ghost var calls: seq<Attempt>
    ghost var log: seq<Attempt>

    ghost predicate Valid()
      reads this
    {
      hits == RunPruned(calls, window, max).0 && log == Taken(calls, window, max)
    }

    constructor (max: nat, window: nat)
      ensures Valid() && calls == [] && log == [] && this.max == max && this.window == window
    {
      this.window, this.max := window, max;
      hits, calls, log := map[], [], [];
    }

    /** Whether the attempt goes through; if it does it is on record. */
    method Check(a: Address, now: int) returns (ok: bool)
      requires Valid()
      modifies this
      ensures Valid() && calls == old(calls) + [Attempt(a, now)]
      ensures log == if ok then old(log) + [Attempt(a, now)] else old(log)
      ensures Admits(old(log), a, now, window, max) ==> ok
      ensures NoneLater(old(calls), now) ==> ok == Admits(old(log), a, now, window, max)
      ensures WithinBounds(calls, log, window, max)
      ensures |hits| <= Inside(log, now, window) + if max == 0 || window == 0 then 1 else 0
      ensures |hits| <= Inside(log, now, window) <==> max > 0 && window > 0
    {
      hide Checked, Sweep, Recent, History, Admits, Inside, Bounded, NoneLater, WithinBounds, RunPruned, Taken;
      OneMoreCheck(calls, a, now, window, max);
      SweepEntryPush(hits, a, now, window, max);
      calls := calls + [Attempt(a, now)];
      hits := Sweep(hits, now, window);
      if a !in hits {
        hits := hits[a := []];
      }
      if |hits[a]| >= max {
        return false;
      }
      hits := hits[a := hits[a] + [now]];
      log := log + [Attempt(a, now)];
      ok := true;
    }
  }
}

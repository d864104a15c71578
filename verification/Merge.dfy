/** Clocks, and the order on them by which a later write replaces an earlier one. */
module Merge {
  import opened Record

  datatype Clock = Clock(updatedAt: int, deviceId: Text)

  datatype Resolution = KeepLocal | TakeRemote

  const MAX_CLOCK_SKEW_MS := 24 * 60 * 60 * 1000

  predicate ClockIsPlausible(updatedAt: int, serverNow: int) {
    updatedAt <= serverNow + MAX_CLOCK_SKEW_MS
  }

  /** Byte-wise order on text: a proper prefix comes first. */
  predicate Below(a: Text, b: Text) { BelowFrom(a, b, 0) }

  predicate BelowFrom(a: Text, b: Text, i: nat)
    decreases |b| - i
  {
    i < |b| && (i >= |a| || a[i] < b[i] || (a[i] == b[i] && BelowFrom(a, b, i + 1)))
  }

  function Resolve(local: Clock, remote: Clock): Resolution {
    if remote.updatedAt > local.updatedAt then TakeRemote
    else if remote.updatedAt < local.updatedAt then KeepLocal
    else if Below(local.deviceId, remote.deviceId) then TakeRemote
    else KeepLocal
  }

  /** `a` loses to `b`. */
  predicate Older(a: Clock, b: Clock) { Resolve(a, b) == TakeRemote }

  function ClockOf(e: Envelope): Clock { Clock(e.updatedAt, e.deviceId) }

  /** Local `a` gives way to incoming `b`. */
  predicate Loses(a: Envelope, b: Envelope) { Older(ClockOf(a), ClockOf(b)) }

  lemma {:induction false} BelowFromIsTransitive(a: Text, b: Text, c: Text, i: nat)
    requires BelowFrom(a, b, i) && BelowFrom(b, c, i)
    ensures BelowFrom(a, c, i)
    decreases |b| - i
  {
    if i < |a| && a[i] == b[i] && b[i] == c[i] {
      BelowFromIsTransitive(a, b, c, i + 1);
    }
  }

  lemma {:induction false} BelowFromIsTotal(a: Text, b: Text, i: nat)
    requires i <= |a| && i <= |b| && a[..i] == b[..i]
    ensures a == b || BelowFrom(a, b, i) || BelowFrom(b, a, i)
    ensures !(BelowFrom(a, b, i) && BelowFrom(b, a, i))
    decreases |b| - i
  {
    if i < |a| && i < |b| && a[i] == b[i] {
      assert a[..i + 1] == a[..i] + [a[i]] && b[..i + 1] == b[..i] + [b[i]];
      BelowFromIsTotal(a, b, i + 1);
    } else if i == |a| && i == |b| {
      assert a == a[..i] && b == b[..i];
    }
  }

  lemma BelowIsAStrictTotalOrder(a: Text, b: Text, c: Text)
    ensures !Below(a, a) && !(Below(a, b) && Below(b, a))
    ensures a == b || Below(a, b) || Below(b, a)
    ensures Below(a, b) && Below(b, c) ==> Below(a, c)
  {
    BelowFromIsTotal(a, a, 0);
    BelowFromIsTotal(a, b, 0);
    if Below(a, b) && Below(b, c) { BelowFromIsTransitive(a, b, c, 0); }
  }

  /**
   `Resolve` orders clocks strictly and totally, so any two devices comparing the same two
   versions from either side keep the same one, and a device never flaps on its own echo.
   */
  lemma ResolveIsAStrictTotalOrder(a: Clock, b: Clock, c: Clock)
    ensures Resolve(a, a) == KeepLocal
    ensures a != b ==> (Resolve(a, b) == TakeRemote <==> Resolve(b, a) == KeepLocal)
    ensures Resolve(a, b) == TakeRemote && Resolve(b, c) == TakeRemote ==> Resolve(a, c) == TakeRemote
    ensures Resolve(a, b) == KeepLocal && Resolve(b, a) == KeepLocal ==> a == b
  {
    BelowIsAStrictTotalOrder(a.deviceId, b.deviceId, c.deviceId);
  }

  // ---- which order it is ------------------------------------------------------------------

  /** Where the two texts first differ `a` has the smaller byte, or ends. */
  ghost predicate Precedes(a: Text, b: Text) {
    exists n: nat :: FirstDiffersAt(a, b, n) && (n == |a| || a[n] < b[n])
  }

  /** Nothing differs before `n`, and `b` goes on. */
  predicate FirstDiffersAt(a: Text, b: Text, n: nat) {
    n <= |a| && n < |b| && a[..n] == b[..n]
  }

  lemma {:induction false} BelowFromMeans(a: Text, b: Text, i: nat)
    requires i <= |a| && i <= |b| && a[..i] == b[..i]
    ensures BelowFrom(a, b, i) <==> exists n: nat :: i <= n && FirstDiffersAt(a, b, n) && (n == |a| || a[n] < b[n])
    decreases |b| - i
  {
    if i < |a| && i < |b| && a[i] == b[i] {
      assert a[..i + 1] == a[..i] + [a[i]] && b[..i + 1] == b[..i] + [b[i]];
      BelowFromMeans(a, b, i + 1);
    } else {
      if BelowFrom(a, b, i) { assert FirstDiffersAt(a, b, i); }
      forall n: nat | i < n ensures !FirstDiffersAt(a, b, n) {
        if n <= |a| && n < |b| { assert a[..n][i] == a[i] && b[..n][i] == b[i]; }
      }
    }
  }

  /** The tie-break compares bytes from the left, a proper prefix first. */
  lemma BelowIffPrecedes(a: Text, b: Text)
    ensures Below(a, b) <==> Precedes(a, b)
  {
    BelowFromMeans(a, b, 0);
  }

  /** The later time wins; on equal times the device id whose bytes come later does. */
  lemma ResolveIff(local: Clock, remote: Clock)
    ensures Resolve(local, remote) == TakeRemote
       <==> local.updatedAt < remote.updatedAt
            || (local.updatedAt == remote.updatedAt && Precedes(local.deviceId, remote.deviceId))
  {
    BelowIffPrecedes(local.deviceId, remote.deviceId);
  }
}

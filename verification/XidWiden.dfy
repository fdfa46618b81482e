/**
 * Transaction ids are stored on 32 bits. The checker widens one to 64 bits by
 * taking the id nearest the next one to be assigned, and judges the result.
 */
module XidWiden {
  import opened CInt

  const TWO64 := TWO32 * TWO32
  const BOOTSTRAP_XID := 1
  const FROZEN_XID := 2
  const FIRST_NORMAL := 3

  predicate IsNormal(xid: int) {
    FIRST_NORMAL <= xid < TWO32
  }

  /** The next full id: its low word is a normal xid, and it is not near the end of time. */
  predicate ValidNext(next: int) {
    FIRST_NORMAL <= next && IsNormal(next % TWO32) && next + TWO31 < TWO64
  }

  /** The 32-bit difference of two xids, as a signed number. */
  function Diff(xid: nat, next: nat): int {
    ToInt32((next % TWO32 - xid) % TWO32)
  }

  /** Conversion relative to the next full id; intermediate steps wrap as in C. */
  function Widen(xid: nat, next: nat): nat
    requires xid < TWO32 && ValidNext(next)
  {
    if !IsNormal(xid) then xid
    else
      var diff := Diff(xid, next);
      if diff > 0 && next - FIRST_NORMAL < diff then FIRST_NORMAL
      else (next - diff) % TWO64
  }

  /** A full id that xid may stand for: near enough to next, and normal. */
  predicate StandsFor(xid: nat, next: nat, full: nat) {
    next - TWO31 + 1 <= full <= next + TWO31 && full % TWO32 == xid && full >= FIRST_NORMAL
  }

  /** No two numbers in the window share a low word. */
  lemma AtMostOne(next: nat, f: int, g: int)
    requires next - TWO31 + 1 <= f <= next + TWO31 && next - TWO31 + 1 <= g <= next + TWO31
    requires f % TWO32 == g % TWO32
    ensures f == g
  {
    var p, q := f / TWO32, g / TWO32;
    assert -TWO32 < (p - q) * TWO32 < TWO32;
  }

  /** The difference the conversion takes, as an exact statement. */
  lemma DiffFacts(xid: nat, next: nat)
    requires IsNormal(xid) && ValidNext(next)
    ensures -TWO31 <= Diff(xid, next) < TWO31 && (next - Diff(xid, next)) % TWO32 == xid
  {
    var diff := Diff(xid, next);
    var k := ((next % TWO32 - xid) % TWO32 - diff) / TWO32;
    var j := (next % TWO32 - xid) / TWO32;
    assert next % TWO32 - xid == j * TWO32 + k * TWO32 + diff;
    assert next - diff == (next / TWO32 + j + k) * TWO32 + xid;
    ModIs(next / TWO32 + j + k, xid, next - diff);
  }

  lemma ModIs(q: int, r: nat, x: int)
    requires r < TWO32 && x == q * TWO32 + r
    ensures x % TWO32 == r
  {
  }

  /**
   * Widening gives the one full id the xid may stand for, and the first normal
   * id exactly when there is none.
   */
  lemma WidenExact(xid: nat, next: nat)
    requires IsNormal(xid) && ValidNext(next)
    ensures forall f: nat :: StandsFor(xid, next, f) ==> Widen(xid, next) == f
    ensures (forall f: nat :: !StandsFor(xid, next, f)) ==> Widen(xid, next) == FIRST_NORMAL
    ensures Widen(xid, next) >= FIRST_NORMAL
  {
    hide Diff;
    var diff := Diff(xid, next);
    DiffFacts(xid, next);
    forall f: nat | StandsFor(xid, next, f)
      ensures f == next - diff
    {
      AtMostOne(next, f, next - diff);
    }
    if next - diff >= FIRST_NORMAL {
      assert StandsFor(xid, next, next - diff);
    }
  }

  predicate InWindow(full: nat, next: nat) {
    next - TWO31 + 1 <= full <= next + TWO31
  }

  /** Widening undoes truncation exactly for the ids within 2^31 of the next one. */
  lemma WidenUndoesTruncation(full: nat, next: nat)
    requires ValidNext(next) && IsNormal(full % TWO32)
    ensures Widen(full % TWO32, next) == full <==> InWindow(full, next)
  {
    hide Widen;
    var xid := full % TWO32;
    if InWindow(full, next) {
      WidenExact(xid, next);
      assert StandsFor(xid, next, full);
    } else {
      WidenOutside(xid, next, full);
    }
  }

  lemma WidenOutside(xid: nat, next: nat, full: nat)
    requires IsNormal(xid) && ValidNext(next) && full % TWO32 == xid && !InWindow(full, next)
    ensures Widen(xid, next) != full
  {
    hide Diff;
    DiffFacts(xid, next);
    if next - Diff(xid, next) < FIRST_NORMAL {
      ClampedAway(xid, next, full);
    }
  }

  /** Where widening is clamped, the first normal id itself lies in the window. */
  lemma ClampedAway(xid: nat, next: nat, full: nat)
    requires IsNormal(xid) && ValidNext(next) && full % TWO32 == xid && !InWindow(full, next)
    requires next - Diff(xid, next) < FIRST_NORMAL
    ensures full != FIRST_NORMAL
  {
    hide Diff;
    DiffFacts(xid, next);
  }

  // ---------------------------------------------------------------- verdicts

  datatype Bounds = InvalidXid | InFuture | PrecedesClusterMin | PrecedesRelMin | BoundsOk

  datatype Status = Committed | IsCurrentXid | InProgress | Aborted

  /** The verdict on a full id by plain 64-bit comparison. */
  function Verdict(full: nat, next: nat, oldest: nat, relfrozen: nat): Bounds {
    if next <= full then InFuture
    else if full < oldest then PrecedesClusterMin
    else if full < relfrozen then PrecedesRelMin
    else BoundsOk
  }

  /** What shared memory and the commit log say when asked about one xid. */
  datatype Shared = Shared(
    next: nat, oldestXid: nat, oldestClogXid: nat, isCurrent: bool, inProgress: bool, didCommit: bool)

  predicate ValidShared(m: Shared) {
    ValidNext(m.next) && m.oldestXid < TWO32 && m.oldestClogXid < TWO32
  }

  class Context {
    var nextFxid: nat
    var nextXid: nat
    var oldestXid: nat
    var oldestFxid: nat
    var relfrozenFxid: nat
    var cachedXid: nat
    var cachedStatus: Status

    ghost predicate Valid()
      reads this
    {
      ValidNext(nextFxid) && nextXid == nextFxid % TWO32 && oldestXid < TWO32
    }

    constructor (m: Shared, relfrozen: nat)
      requires ValidShared(m)
      ensures Valid() && nextFxid == m.next && oldestXid == m.oldestXid && oldestFxid == Widen(m.oldestXid, m.next)
      ensures relfrozenFxid == relfrozen && cachedXid == 0
    {
      nextFxid, nextXid, oldestXid := m.next, m.next % TWO32, m.oldestXid;
      oldestFxid := Widen(m.oldestXid, m.next);
      relfrozenFxid, cachedXid, cachedStatus := relfrozen, 0, Aborted;
    }

    method UpdateCachedXidRange(m: Shared)
      requires Valid() && ValidShared(m)
      modifies this`nextFxid, this`nextXid, this`oldestXid, this`oldestFxid
      ensures Valid() && nextFxid == m.next && oldestXid == m.oldestXid && oldestFxid == Widen(m.oldestXid, m.next)
    {
      nextFxid, oldestXid := m.next, m.oldestXid;
      nextXid := nextFxid % TWO32;
      oldestFxid := Widen(oldestXid, nextFxid);
    }

    predicate InCachedRange(full: nat)
      reads this
    {
      oldestFxid <= full && full < nextFxid
    }

    /**
     * Judge an xid. The range is refreshed first if the xid falls outside it;
     * the verdict is then that of 64-bit comparison on the widened id.
     */
    method GetXidStatus(xid: nat, m: Shared, wantStatus: bool) returns (bounds: Bounds, status: Status)
      requires Valid() && ValidShared(m) && xid < TWO32
      modifies this
      ensures Valid() && relfrozenFxid == old(relfrozenFxid)
      ensures bounds.InvalidXid? <==> xid == 0
      ensures xid == 1 || xid == 2 ==> bounds.BoundsOk? && status.Committed?
      ensures xid >= 3 && old(oldestFxid <= Widen(xid, nextFxid) < nextFxid) ==>
                nextFxid == old(nextFxid) && oldestFxid == old(oldestFxid)
      ensures xid >= 3 && !old(oldestFxid <= Widen(xid, nextFxid) < nextFxid) ==>
                nextFxid == m.next && oldestFxid == Widen(m.oldestXid, m.next)
      ensures xid < 3 ==> nextFxid == old(nextFxid) && oldestFxid == old(oldestFxid)
      ensures xid >= 3 ==> (bounds.InFuture? <==> nextFxid <= Widen(xid, nextFxid))
      ensures xid >= 3 ==>
                (bounds.PrecedesClusterMin? <==> Widen(xid, nextFxid) < nextFxid && Widen(xid, nextFxid) < oldestFxid)
      ensures xid >= 3 ==>
                (bounds.PrecedesRelMin? <==>
                   oldestFxid <= Widen(xid, nextFxid) < nextFxid && Widen(xid, nextFxid) < relfrozenFxid)
      ensures xid >= 3 ==>
                (bounds.BoundsOk? <==>
                   oldestFxid <= Widen(xid, nextFxid) < nextFxid && relfrozenFxid <= Widen(xid, nextFxid))
      ensures xid >= 3 && bounds.BoundsOk? && wantStatus ==> cachedXid == xid && cachedStatus == status
      ensures xid >= 3 && bounds.BoundsOk? && wantStatus && old(cachedXid) == xid ==> status == old(cachedStatus)
      ensures xid >= 3 && bounds.BoundsOk? && wantStatus && old(cachedXid) != xid ==>
                if Widen(xid, nextFxid) < Widen(m.oldestClogXid, nextFxid) then status.Committed?
                else
                  && (status.IsCurrentXid? <==> m.isCurrent)
                  && (status.InProgress? <==> !m.isCurrent && m.inProgress)
                  && (status.Committed? <==> !m.isCurrent && !m.inProgress && m.didCommit)
                  && (status.Aborted? <==> !m.isCurrent && !m.inProgress && !m.didCommit)
      ensures !(xid >= 3 && bounds.BoundsOk? && wantStatus) ==>
                cachedXid == old(cachedXid) && cachedStatus == old(cachedStatus)
    {
      status := Committed;
      if xid == 0 {
        return InvalidXid, status;
      } else if xid == BOOTSTRAP_XID || xid == FROZEN_XID {
        return BoundsOk, status;
      }
      var fxid := Widen(xid, nextFxid);
      if !InCachedRange(fxid) {
        UpdateCachedXidRange(m);
        fxid := Widen(xid, nextFxid);
      }
      ghost var verdict := Verdict(fxid, nextFxid, oldestFxid, relfrozenFxid);
      if nextFxid <= fxid {
        assert verdict.InFuture?;
        return InFuture, status;
      }
      if fxid < oldestFxid {
        assert verdict.PrecedesClusterMin?;
        return PrecedesClusterMin, status;
      }
      if fxid < relfrozenFxid {
        assert verdict.PrecedesRelMin?;
        return PrecedesRelMin, status;
      }
      assert verdict.BoundsOk?;
      if !wantStatus {
        return BoundsOk, status;
      }
      if xid == cachedXid {
        return BoundsOk, cachedStatus;
      }
      var clogHorizon := Widen(m.oldestClogXid, nextFxid);
      if clogHorizon <= fxid {
        if m.isCurrent {
          status := IsCurrentXid;
        } else if m.inProgress {
          status := InProgress;
        } else if m.didCommit {
          status := Committed;
        } else {
          status := Aborted;
        }
      }
      cachedXid, cachedStatus := xid, status;
      return BoundsOk, status;
    }
  }

  /**
   * Judging by low words alone, of the id and of both horizons, gives the verdict
   * of plain comparison on the 64-bit ids, all taken within 2^31 of the next one.
   */
  lemma VerdictIsTrue(full: nat, next: nat, oldest: nat, relfrozen: nat)
    requires ValidNext(next)
    requires InWindow(full, next) && IsNormal(full % TWO32)
    requires InWindow(oldest, next) && IsNormal(oldest % TWO32)
    requires InWindow(relfrozen, next) && IsNormal(relfrozen % TWO32)
    ensures var w, o, r := Widen(full % TWO32, next), Widen(oldest % TWO32, next), Widen(relfrozen % TWO32, next);
            var v := Verdict(w, next, o, r);
            && (v.InFuture? <==> next <= full)
            && (v.PrecedesClusterMin? <==> full < next && full < oldest)
            && (v.PrecedesRelMin? <==> oldest <= full < next && full < relfrozen)
            && (v.BoundsOk? <==> oldest <= full < next && relfrozen <= full)
  {
    WidenUndoesTruncation(full, next);
    WidenUndoesTruncation(oldest, next);
    WidenUndoesTruncation(relfrozen, next);
  }
}

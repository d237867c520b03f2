/** The memory guard: samples of free memory, the streak of critical ones, and when it acts. */
module MemGuard {
  import opened Bytes

  const MIN_DROP := 256
  const MIN_STREAK := 5

  datatype Guard = Guard(bootFree: nat, prevFree: nat, streak: u32)

  /** No more than 5% free, or no more than 128 pages. */
  predicate Critical(total: nat, free: nat) {
    !(free * 100 > total * 5 && free > 128)
  }

  predicate LeakSignature(g: Guard, free: nat) {
    g.bootFree > free + MIN_DROP || g.prevFree > free
  }

  /** One sample: the new state, and whether a suspect is to be sought. */
  function Sample(g: Guard, total: nat, free: nat): (Guard, bool) {
    if total == 0 then (g, false)
    else if !Critical(total, free) then (g.(streak := 0, prevFree := free), false)
    else
      var streak := (g.streak + 1) % 0x1_0000_0000;
      (g.(streak := streak, prevFree := free), LeakSignature(g, free) && streak >= MIN_STREAK)
  }

  function Initial(free: nat): Guard {
    Guard(free, free, 0)
  }

  function After(boot: nat, total: nat, frees: seq<nat>): Guard {
    if frees == [] then Initial(boot) else Sample(After(boot, total, DropLast(frees)), total, Last(frees)).0
  }

  /** How many samples at the end of the history were critical without a break. */
  function Trailing(total: nat, frees: seq<nat>): nat {
    if frees == [] || !Critical(total, Last(frees)) then 0 else 1 + Trailing(total, DropLast(frees))
  }

  lemma {:induction false} GuardTracks(boot: nat, total: nat, frees: seq<nat>)
    requires total != 0
    ensures var g := After(boot, total, frees);
            && g.streak == Trailing(total, frees) % 0x1_0000_0000
            && g.bootFree == boot && g.prevFree == if frees == [] then boot else Last(frees)
  {
    if frees != [] {
      GuardTracks(boot, total, DropLast(frees));
    }
  }

  lemma {:induction false} TrailingAreCritical(total: nat, frees: seq<nat>)
    ensures Trailing(total, frees) <= |frees|
    ensures forall i :: |frees| - Trailing(total, frees) <= i < |frees| ==> Critical(total, frees[i])
  {
    hide Critical;
    if frees != [] {
      TrailingAreCritical(total, DropLast(frees));
    }
  }

  /** Pressure is critical with at most 128 pages or a twentieth of all pages free. */
  lemma CriticalMeans(total: nat, free: nat)
    ensures Critical(total, free) <==> free <= 128 || 20 * free <= total
  {
  }

  /** The guard acts on a sample exactly when memory has shrunk since boot by more than 256
      pages or since the last sample, and the unbroken run of critical samples, this one
      included, counts at least five in 32 bits; so this sample and the four before it were
      all critical. With no memory known it never acts. */
  lemma ActsAfterFive(boot: nat, total: nat, frees: seq<nat>, free: nat)
    ensures total == 0 ==> !Sample(After(boot, total, frees), total, free).1
    ensures total != 0 ==>
              var acts := Sample(After(boot, total, frees), total, free).1;
              && (acts <==> (boot > free + 256 || (if frees == [] then boot else Last(frees)) > free)
                            && Trailing(total, frees + [free]) % 0x1_0000_0000 >= 5)
              && (acts ==> Critical(total, free) && |frees| >= 4
                           && forall k :: |frees| - 4 <= k < |frees| ==> Critical(total, frees[k]))
  {
    hide Critical, After;
    if total != 0 {
      GuardTracks(boot, total, frees);
      assert DropLast(frees + [free]) == frees;
      StreakGrows(Trailing(total, frees));
      if Trailing(total, frees + [free]) >= 5 {
        LastFive(total, frees, free);
      }
    }
  }

  lemma StreakGrows(t: nat)
    ensures (t % 0x1_0000_0000 + 1) % 0x1_0000_0000 == (t + 1) % 0x1_0000_0000
    ensures (t + 1) % 0x1_0000_0000 <= t + 1
  {
  }

  lemma LastFive(total: nat, frees: seq<nat>, free: nat)
    requires Trailing(total, frees + [free]) >= MIN_STREAK
    ensures |frees| >= 4 && Critical(total, free)
    ensures forall k :: |frees| - 4 <= k < |frees| ==> Critical(total, frees[k])
  {
    hide Critical;
    var all := frees + [free];
    TrailingAreCritical(total, all);
    assert all[|frees|] == free;
    forall k | |frees| - 4 <= k < |frees| ensures Critical(total, frees[k]) {
      assert all[k] == frees[k];
    }
  }
}

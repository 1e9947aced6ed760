/** Counting the occupied entries of a per-process table keyed by pid. */
module PidSlots {
  import opened Kernel

  /** No two entries belong to the same process. */
  ghost predicate Distinct(pids: seq<Word32>) {
    forall i, j :: 0 <= i < j < |pids| && pids[i] == pids[j] ==> pids[i] == NO_PID
  }

  /** The pids that own an entry. */
  ghost function Owners(pids: seq<Word32>): set<Word32> {
    if pids == [] then {}
    else
      var n := |pids| - 1;
      if pids[n] == NO_PID then Owners(pids[..n]) else Owners(pids[..n]) + {pids[n]}
  }

  lemma {:induction false} OwnersAreEntries(pids: seq<Word32>, p: Word32)
    ensures p in Owners(pids) <==> p in pids && p != NO_PID
  {
    if pids != [] {
      var n := |pids| - 1;
      assert pids == pids[..n] + [pids[n]];
      OwnersAreEntries(pids[..n], p);
    }
  }

  /** A table has a free entry exactly when fewer processes than entries own one. */
  lemma {:induction false} FreeIffNotFull(pids: seq<Word32>)
    requires Distinct(pids)
    ensures |Owners(pids)| <= |pids|
    ensures NO_PID in pids <==> |Owners(pids)| < |pids|
  {
    if pids != [] {
      var n := |pids| - 1;
      assert pids == pids[..n] + [pids[n]];
      FreeIffNotFull(pids[..n]);
      OwnersAreEntries(pids[..n], pids[n]);
    }
  }
}

/**
 The 4096-byte ring behind both kinds of pipe. Byte number `k` of the unbounded log of
 everything ever written lives at index `k % RING_SIZE`, as long as it is among the
 last RING_SIZE bytes.
 */
module Ring {
  import opened Kernel

  const RING_SIZE: int := 4096

  /** The index at which the byte with absolute offset `k` is kept. */
  function Slot(k: int): int { k % RING_SIZE }

  lemma {:induction false} SlotAdds(a: int, b: int)
    ensures Slot(Slot(a) + b) == Slot(a + b)
  {
  }

  /** The ring stores `log[lo..]`, every byte at its absolute offset modulo RING_SIZE. */
  ghost predicate Holds(ring: seq<Byte>, log: seq<Byte>, lo: nat) {
    && |ring| == RING_SIZE
    && lo <= |log| <= lo + RING_SIZE
    && forall k :: lo <= k < |log| ==> ring[Slot(k)] == log[k]
  }

  lemma {:induction false} HoldsBounds(ring: seq<Byte>, log: seq<Byte>, lo: nat)
    requires Holds(ring, log, lo)
    ensures |ring| == RING_SIZE && lo <= |log| <= lo + RING_SIZE
  {
  }

  /** Reading from the front gives up bytes without moving the rest. */
  lemma {:induction false} HoldsLess(ring: seq<Byte>, log: seq<Byte>, lo: nat, lo': nat)
    requires Holds(ring, log, lo) && lo <= lo' <= |log|
    ensures Holds(ring, log, lo')
  {
  }

  /** Two absolute offsets of a window no wider than the ring never share an index. */
  lemma {:induction false} SlotsDistinct(a: int, b: int)
    requires a <= b < a + RING_SIZE
    requires Slot(a) == Slot(b)
    ensures a == b
  {
  }

  /** The copy loop of both write handlers. */
  method CopyIn(ring: array<Byte>, pos: int, data: array<Byte>, n: nat, ghost log: seq<Byte>, ghost lo: nat)
    requires Holds(ring[..], log, lo) && pos == Slot(|log|)
    requires ring != data && n <= data.Length && |log| + n <= lo + RING_SIZE
    modifies ring
    ensures Holds(ring[..], log + data[..n], lo)
  {
    for i := 0 to n
      invariant Holds(ring[..], log + data[..i], lo)
    {
      ghost var stored := log + data[..i];
      ghost var before := ring[..];
      assert Slot(pos + i) == Slot(|stored|);
      ring[Slot(pos + i)] := data[i];
      assert log + data[..i + 1] == stored + [data[i]];
      forall k | lo <= k < |stored| + 1
        ensures ring[Slot(k)] == (stored + [data[i]])[k]
      {
        if k < |stored| && Slot(k) == Slot(|stored|) {
          SlotsDistinct(k, |stored|);
        }
      }
    }
  }

  /** The copy loop of both read handlers: bytes `off .. off + n` of the log reach the caller in order. */
  method CopyOut(ring: array<Byte>, pos: int, out: array<Byte>, n: nat, ghost log: seq<Byte>, ghost lo: nat,
      ghost off: nat)
    requires Holds(ring[..], log, lo) && pos == Slot(off)
    requires ring != out && n <= out.Length && lo <= off && off + n <= |log|
    modifies out
    ensures out[..n] == log[off..off + n]
    ensures out[n..] == old(out[n..])
  {
    for i := 0 to n
      invariant out[..i] == log[off..off + i]
      invariant out[n..] == old(out[n..])
    {
      assert Slot(pos + i) == Slot(off + i);
      assert ring[..][Slot(off + i)] == log[off + i];
      out[i] := ring[Slot(pos + i)];
      assert out[..i + 1] == out[..i] + [log[off + i]];
      assert log[off..off + i + 1] == log[off..off + i] + [log[off + i]];
    }
  }
}

/** The wrap-around scan used to pick a free subnet and a free host address. */
module Rotation {
  import opened Wrappers

  lemma WrapOnce(n: nat, s: nat)
    requires s < 2 * n
    ensures s % n == if s < n then s else s - n
  {
    var q := s / n;
    assert s == n * q + s % n;
    assert q >= 2 ==> n * q >= n * 2;
    assert s >= n ==> q == 1;
  }

  /** The position hit by probe k of a sweep over n positions that begins at offset. */
  function At(n: nat, offset: nat, k: nat): (i: nat)
    requires offset < n && k < n
    ensures i == if offset + k < n then offset + k else offset + k - n
    ensures i < n
  {
    WrapOnce(n, offset + k);
    (offset + k) % n
  }

  /** The probe that hits position i: the inverse of `At`. */
  function ProbeOf(n: nat, offset: nat, i: nat): (k: nat)
    requires offset < n && i < n
    ensures k < n && At(n, offset, k) == i
  {
    if offset <= i then i - offset else i + n - offset
  }

  /** The first free position met by the probes k, k + 1, ..., n - 1. */
  function Scan(n: nat, offset: nat, free: nat -> bool, k: nat): (r: Option<nat>)
    requires offset < n && k <= n
    ensures match r
            case None => forall j :: k <= j < n ==> !free(At(n, offset, j))
            case Some(i) => i < n && free(i) && k <= ProbeOf(n, offset, i)
                            && forall j :: k <= j < ProbeOf(n, offset, i) ==> !free(At(n, offset, j))
    decreases n - k
  {
    if k == n then None
    else if free(At(n, offset, k)) then Some(At(n, offset, k))
    else Scan(n, offset, free, k + 1)
  }

  lemma ScanStep(n: nat, offset: nat, free: nat -> bool, k: nat)
    requires offset < n && k < n
    ensures Scan(n, offset, free, k)
            == if free(At(n, offset, k)) then Some(At(n, offset, k)) else Scan(n, offset, free, k + 1)
  {
  }

  /** A full sweep misses nothing, whatever its offset, and returns the free position it meets first. */
  lemma ScanFindsFirstFree(n: nat, offset: nat, free: nat -> bool)
    requires offset < n
    ensures Scan(n, offset, free, 0).None? <==> forall i: nat :: i < n ==> !free(i)
    ensures var r := Scan(n, offset, free, 0);
            r.Some? ==> r.value < n && free(r.value)
                        && forall i: nat :: i < n && ProbeOf(n, offset, i) < ProbeOf(n, offset, r.value) ==> !free(i)
  {
    var r := Scan(n, offset, free, 0);
    forall i: nat | i < n && (r.None? || ProbeOf(n, offset, i) < ProbeOf(n, offset, r.value))
      ensures !free(i)
    {
      assert At(n, offset, ProbeOf(n, offset, i)) == i;
    }
  }
}

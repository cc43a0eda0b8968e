/** ztest's choice of the number of dRAID redundancy groups. */
module DraidGroups {
  import opened Multiples

  predicate Divides(d: nat, n: nat)
    requires d > 0
  {
    n % d == 0
  }

  /** The least positive common multiple. */
  ghost predicate IsLcm(m: nat, a: nat, b: nat)
    requires a > 0 && b > 0
  {
    && m > 0 && Divides(a, m) && Divides(b, m)
    && forall k: nat :: 0 < k && Divides(a, k) && Divides(b, k) ==> m <= k
  }

  lemma MultipleDivides(k: nat, a: nat)
    requires a > 0
    ensures Divides(a, k * a)
  {
    DivideRemainder(k, a, 0);
  }

  /**
    The loop of make_vdev_raid: `width` is data plus parity, `drives` is children minus
    spares. The check made when the options are read gives width <= drives.
    */
  method CountGroups(width: nat, drives: nat) returns (ngroups: nat)
    requires 0 < width <= drives
    ensures 1 <= ngroups <= drives
    ensures IsLcm(ngroups * width, width, drives)
  {
    ngroups := 1;
    MultipleDivides(width, drives);
    assert drives * width == width * drives;
    while ngroups * width % drives != 0
      invariant 1 <= ngroups <= drives
      invariant forall k: nat :: 0 < k < ngroups ==> !Divides(drives, k * width)
      decreases drives - ngroups
    {
      ngroups := ngroups + 1;
    }
    MultipleDivides(ngroups, width);
    forall k: nat | 0 < k && Divides(width, k) && Divides(drives, k)
      ensures ngroups * width <= k
    {
      var g := k / width;
      assert k == g * width && Divides(drives, g * width);
      assert g >= ngroups;
      if g > ngroups { LaterMultiple(ngroups, g, width); }
    }
  }
}

/**
 * The RAM percentage of the sampling loop. The page counts are the
 * `natural_t` fields that `host_statistics` fills in; the sums and the
 * product are taken in that 32-bit unsigned type before the division in
 * `double`, and the quotient is truncated to an `int`.
 */
module Memory {
  import opened Words

  datatype VmStats = VmStats(wire: u32, active: u32, inactive: u32, free: u32)

  /**
   * `wire + active + inactive + free` in `natural_t`: the exact sum when it
   * fits, and in any case the exact sum less a whole number of 2^32 steps.
   */
  function Total(vm: VmStats): (t: u32)
    ensures vm.wire + vm.active + vm.inactive + vm.free < TWO_32 ==>
      t == vm.wire + vm.active + vm.inactive + vm.free
    ensures exists q :: vm.wire + vm.active + vm.inactive + vm.free == t + q * TWO_32
  {
    Wrap32Congruent(vm.wire + vm.active + vm.inactive + vm.free);
    Wrap32(vm.wire + vm.active + vm.inactive + vm.free)
  }

  /**
   * `100 * (active + inactive)` in `natural_t`, wrapped after the sum and
   * after the product: the same as wrapping the exact product once, and the
   * exact product when it fits.
   */
  function InUse(vm: VmStats): (n: u32)
    ensures n == Wrap32(100 * (vm.active + vm.inactive))
    ensures 100 * (vm.active + vm.inactive) < TWO_32 ==> n == 100 * (vm.active + vm.inactive)
  {
    WrapScale(100, vm.active + vm.inactive);
    Wrap32(100 * Wrap32(vm.active + vm.inactive))
  }

  /** No intermediate of the percentage wraps around. */
  predicate NoOverflow(vm: VmStats) {
    vm.wire + vm.active + vm.inactive + vm.free < TWO_32 &&
    100 * (vm.active + vm.inactive) < TWO_32
  }

  /** `(int)(100 * (active + inactive) / total)`: the floor of the quotient. */
  function UsedPercent(vm: VmStats): (used: nat)
    requires Total(vm) > 0
    ensures used * Total(vm) <= InUse(vm) < (used + 1) * Total(vm)
  {
    FloorDiv(InUse(vm), Total(vm))
  }

  /** Without wrap-around the percentage is the true share, between 0 and 100. */
  lemma UsedPercentInRange(vm: VmStats)
    requires NoOverflow(vm) && vm.wire + vm.active + vm.inactive + vm.free > 0
    ensures Total(vm) > 0
    ensures UsedPercent(vm) == 100 * (vm.active + vm.inactive) / (vm.wire + vm.active + vm.inactive + vm.free)
    ensures UsedPercent(vm) <= 100
  {
    var t := vm.wire + vm.active + vm.inactive + vm.free;
    assert Total(vm) == t;
    assert InUse(vm) == 100 * (vm.active + vm.inactive) <= 100 * t;
    DivAtMost(InUse(vm), t, 100);
    assert UsedPercent(vm) == InUse(vm) / t;
  }

  /** wired 10, active 20, inactive 20, free 50: 40 percent. */
  lemma FortyPercent()
    ensures Total(VmStats(10, 20, 20, 50)) == 100
    ensures UsedPercent(VmStats(10, 20, 20, 50)) == 40
  {
  }
}

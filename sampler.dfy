/**
 * One tick of the sampling loop in `start`: the RAM percentage, the two
 * network rates against the previous counters, the scaled and formatted
 * fields, and the status line. The previous counters are the only state
 * carried from one tick to the next.
 */
module Sampler {
  import opened Wrappers
  import opened Words
  import opened UnitScaler
  import opened Decimal
  import opened StatusLine
  import Battery
  import Uptime
  import opened Memory
  import opened Network

  /**
   * `(int)(curr - prev) / update_interval`: unsigned 32-bit subtraction,
   * the bits read as an `int`, then C division.
   */
  function Rate(prev: u32, curr: u32, interval: int): (r: int)
    requires interval > 0
    ensures -TWO_31 <= r < TWO_31
    ensures Wrap32(curr - prev) < TWO_31 ==> r >= 0
    ensures Wrap32(curr - prev) >= TWO_31 ==> r <= 0
  {
    TruncDiv(ToInt32(Wrap32(curr - prev)), interval)
  }

  /**
   * A counter that advanced by delta bytes (less than 2^31) since the
   * previous read, wrapping around at most once, gives delta / interval.
   */
  lemma RateOfGrowth(prev: u32, curr: u32, interval: int, delta: nat)
    requires interval > 0 && delta < TWO_31
    requires curr == Wrap32(prev + delta)
    ensures Rate(prev, curr, interval) == delta / interval
  {
    WrapAdd(prev + delta, -(prev as int));
    assert Wrap32(curr - prev) == delta;
  }

  /** A counter that went back by delta bytes gives a negative rate, truncated toward zero. */
  lemma RateOfDecline(prev: u32, curr: u32, interval: int, delta: nat)
    requires interval > 0 && 0 < delta <= TWO_31
    requires curr == Wrap32(prev - delta)
    ensures Rate(prev, curr, interval) == -(delta / interval)
  {
    WrapAdd(prev - delta, -(prev as int));
    assert Wrap32(curr - prev) == TWO_32 - delta;
  }

  /** prev 1000, curr 3000 over 2 seconds: 1000 bytes per second. */
  lemma RateExample()
    ensures Rate(1000, 3000, 2) == 1000
  {
  }

  /** The wrapped counter deltas of successive ticks, starting from the seed read. */
  function Deltas(seed: u32, counts: seq<u32>): (ds: seq<int>)
    ensures |ds| == |counts|
  {
    if counts == [] then []
    else
      var before := if |counts| == 1 then seed else counts[|counts| - 2];
      Deltas(seed, counts[..|counts| - 1]) + [Wrap32(counts[|counts| - 1] - before)]
  }

  function Sum(xs: seq<int>): int {
    if xs == [] then 0 else Sum(xs[..|xs| - 1]) + xs[|xs| - 1]
  }

  /**
   * Carrying the previous counters from tick to tick loses and repeats no
   * byte: the deltas of all ticks add up, modulo 2^32, to the change since
   * the seed read.
   */
  lemma {:induction false} DeltasTelescope(seed: u32, counts: seq<u32>)
    requires |counts| > 0
    ensures Wrap32(Sum(Deltas(seed, counts))) == Wrap32(counts[|counts| - 1] - seed)
    decreases |counts|
  {
    var ds := Deltas(seed, counts);
    var last := counts[|counts| - 1];
    if |counts| == 1 {
      assert ds == [Wrap32(last - seed)];
      assert Sum(ds) == Sum([]) + ds[0];
    } else {
      var init := counts[..|counts| - 1];
      var before: int := init[|init| - 1];
      var sInit := Sum(Deltas(seed, init));
      var d := Wrap32(last - before);
      assert ds == Deltas(seed, init) + [d];
      assert ds[..|ds| - 1] == Deltas(seed, init);
      assert Sum(ds) == sInit + d;
      DeltasTelescope(seed, init);
      WrapChain(sInit, before, last, seed);
    }
  }

  /**
   * The k-th entry of `Deltas` is the wrapped change from the counters of
   * tick k - 1 (the seed read for the first tick) to those of tick k, so
   * `Rate` on those two counter values is that delta read as an `int` and
   * divided by the interval. This is about the free function `Deltas`; a
   * run of `RateState.Tick` calls feeds it because each call leaves
   * `Prev()` at the counters it was given.
   */
  lemma {:induction false} DeltaOfTick(seed: u32, counts: seq<u32>, k: nat, interval: int)
    requires k < |counts| && interval > 0
    ensures var before := if k == 0 then seed else counts[k - 1];
      Deltas(seed, counts)[k] == Wrap32(counts[k] - before) &&
      Rate(before, counts[k], interval) == TruncDiv(ToInt32(Deltas(seed, counts)[k]), interval)
    decreases |counts|
  {
    var init := counts[..|counts| - 1];
    if k < |counts| - 1 {
      assert Deltas(seed, counts)[k] == Deltas(seed, init)[k];
      DeltaOfTick(seed, init, k, interval);
    }
  }

  /** What the metric providers reported in one tick. */
  datatype Readings = Readings(
    date: string,              // strftime "%d/%m/%Y"
    time: string,              // strftime "%H:%M"
    battery: Battery.Status,
    uptime: Uptime.Span,
    vm: Option<VmStats>)       // None: host_statistics failed

  datatype TickOutcome =
    | Published(line: string)  // the line written to the status file
    | RamFailure               // the process exits before reading the network
    | Undefined                // a step whose C behaviour is undefined: see TickResult

  /** `"%d,%d"` of the battery reading, printed into `battery_str`. */
  function BatteryField(rd: Readings): string {
    PairField(rd.battery.charging, rd.battery.capacity)
  }

  /** `"%d,%d"` of the uptime reading, printed into `uptime_str`. */
  function UptimeField(rd: Readings): string {
    PairField(rd.uptime.days, rd.uptime.hours)
  }

  /**
   * A positive rate below 2^31 is scaled to a magnitude below 1024 and a
   * unit up to 3, so its field always fits `char[NETWORK_STRLEN]`.
   */
  lemma RateFieldFits(rate: nat)
    requires rate < TWO_31
    ensures Fits(NetworkField(SetValueAndUnit(rate, Unset)), NETWORK_STRLEN)
  {
    var r := SetValueAndUnit(rate, Unset);
    if rate > 0 {
      UnitOfUnique(rate, r.unit);
      UnitOfInt32(rate);
    }
    NetworkFieldFits(r);
  }

  /**
   * The last stage of a tick: both rates from the previous counters, their
   * fields, and the line. A negative rate reaches `log`, and a field that
   * overflows `char[NETWORK_STRLEN]` is undefined.
   */
  function NetworkStage(prev: Counters, curr: Counters, interval: int, rd: Readings, ram: string): (out: TickOutcome)
    requires interval > 0
    ensures out != RamFailure
    ensures out.Published? ==> Rate(prev.sent, curr.sent, interval) >= 0
    ensures out.Published? ==> Rate(prev.received, curr.received, interval) >= 0
  {
    var sent := Rate(prev.sent, curr.sent, interval);
    var received := Rate(prev.received, curr.received, interval);
    if sent < 0 || received < 0 then Undefined
    else
      var sentText := NetworkField(SetValueAndUnit(sent, Unset));
      var receivedText := NetworkField(SetValueAndUnit(received, Unset));
      if !Fits(sentText, NETWORK_STRLEN) || !Fits(receivedText, NETWORK_STRLEN) then Undefined
      else Published(Line(sentText, receivedText, UptimeField(rd), BatteryField(rd), rd.date, rd.time, ram))
  }

  /**
   * The RAM stage of a tick after a successful `host_statistics`: the
   * `(int)` conversion is undefined for a zero total and for a percentage
   * beyond `int`, and the text must fit `char[RAM_STRLEN]`.
   */
  function MemoryStage(prev: Counters, curr: Counters, interval: int, rd: Readings, vm: VmStats): (out: TickOutcome)
    requires interval > 0
    ensures out != RamFailure
    ensures out.Published? ==> Rate(prev.sent, curr.sent, interval) >= 0
    ensures out.Published? ==> Rate(prev.received, curr.received, interval) >= 0
  {
    if Total(vm) == 0 then Undefined
    else
      var used := UsedPercent(vm);
      if used >= TWO_31 || !Fits(IntToString(used), RAM_STRLEN) then Undefined
      else NetworkStage(prev, curr, interval, rd, IntToString(used))
  }

  /**
   * The outcome of one tick, in the order of the loop body: the battery and
   * uptime fields are printed, RAM is queried and printed, the rates are
   * taken from the previous counters, scaled and printed. A step whose C
   * behaviour is undefined makes the whole tick `Undefined`: a field that
   * overflows its buffer, a `(int)` conversion of a value out of range
   * (a zero memory total, or a percentage beyond `int`), or the `log` of a
   * negative rate.
   */
  function TickResult(prev: Counters, curr: Counters, interval: int, rd: Readings): (out: TickOutcome)
    requires interval > 0
    ensures out.RamFailure? <==>
      rd.vm.None? && Fits(BatteryField(rd), BATTERY_STRLEN) && Fits(UptimeField(rd), UPTIME_STRLEN)
    ensures out.Published? ==> Rate(prev.sent, curr.sent, interval) >= 0
    ensures out.Published? ==> Rate(prev.received, curr.received, interval) >= 0
  {
    if !Fits(BatteryField(rd), BATTERY_STRLEN) || !Fits(UptimeField(rd), UPTIME_STRLEN) then Undefined
    else
      match rd.vm
      case None => RamFailure
      case Some(vm) => MemoryStage(prev, curr, interval, rd, vm)
  }

  /** The network stage publishes exactly when both rates are non-negative. */
  lemma NetworkStagePublishes(prev: Counters, curr: Counters, interval: int, rd: Readings, ram: string)
    requires interval > 0
    ensures NetworkStage(prev, curr, interval, rd, ram).Published? <==>
      Rate(prev.sent, curr.sent, interval) >= 0 && Rate(prev.received, curr.received, interval) >= 0
  {
    var sent := Rate(prev.sent, curr.sent, interval);
    var received := Rate(prev.received, curr.received, interval);
    if sent >= 0 && received >= 0 {
      RateFieldFits(sent);
      RateFieldFits(received);
    }
  }

  /**
   * A tick whose memory read succeeds with a non-zero total publishes a line
   * exactly when both rates are non-negative, the percentage is below 1000
   * and the battery and uptime fields fit their buffers.
   */
  lemma TickPublishes(prev: Counters, curr: Counters, interval: int, rd: Readings)
    requires interval > 0 && rd.vm.Some? && Total(rd.vm.value) > 0
    ensures TickResult(prev, curr, interval, rd).Published? <==>
      Rate(prev.sent, curr.sent, interval) >= 0 &&
      Rate(prev.received, curr.received, interval) >= 0 &&
      UsedPercent(rd.vm.value) < 1000 &&
      Fits(BatteryField(rd), BATTERY_STRLEN) && Fits(UptimeField(rd), UPTIME_STRLEN)
  {
    var used := UsedPercent(rd.vm.value);
    RamFits(used);
    NetworkStagePublishes(prev, curr, interval, rd, IntToString(used));
  }

  /**
   * A published line is exactly seven `|`-separated fields in the order
   * sent, received, uptime, battery, date, time, RAM, when the date and time
   * strings hold no `|`.
   */
  lemma TickLineFields(prev: Counters, curr: Counters, interval: int, rd: Readings)
    requires interval > 0 && rd.vm.Some? && Total(rd.vm.value) > 0
    requires '|' !in rd.date && '|' !in rd.time
    ensures TickResult(prev, curr, interval, rd).Published? ==>
      Split(TickResult(prev, curr, interval, rd).line, '|') ==
        [NetworkField(SetValueAndUnit(Rate(prev.sent, curr.sent, interval), Unset)),
         NetworkField(SetValueAndUnit(Rate(prev.received, curr.received, interval), Unset)),
         UptimeField(rd), BatteryField(rd), rd.date, rd.time,
         IntToString(UsedPercent(rd.vm.value))]
  {
    var out := TickResult(prev, curr, interval, rd);
    if out.Published? {
      var ram := IntToString(UsedPercent(rd.vm.value));
      assert out == MemoryStage(prev, curr, interval, rd, rd.vm.value);
      assert out == NetworkStage(prev, curr, interval, rd, ram);
    }
  }

  /** The previous network counters, owned by the sampling loop. */
  class RateState {
    var prevSent: u32
    var prevReceived: u32

    function Prev(): Counters
      reads this
    {
      Counters(prevSent, prevReceived)
    }

    /** Seeded with the network read taken before the first tick. */
    constructor (seed: Counters)
      ensures Prev() == seed
    {
      prevSent := seed.sent;
      prevReceived := seed.received;
    }

    /**
     * One tick, given the providers' readings and the current counters:
     * both rates are taken from the old counters, then both are replaced.
     */
    method Tick(rd: Readings, curr: Counters, interval: int) returns (out: TickOutcome)
      requires interval > 0
      modifies this
      ensures out == TickResult(old(Prev()), curr, interval, rd)
      ensures out.RamFailure? ==> Prev() == old(Prev())
      ensures !out.RamFailure? ==> Prev() == curr
    {
      var prev := Prev();
      var battery := BatteryField(rd);
      var uptime := UptimeField(rd);
      var overflow := !Fits(battery, BATTERY_STRLEN) || !Fits(uptime, UPTIME_STRLEN);
      if !overflow && rd.vm.None? {
        return RamFailure;
      }
      var sent := Rate(prevSent, curr.sent, interval);
      var received := Rate(prevReceived, curr.received, interval);
      prevSent := curr.sent;
      prevReceived := curr.received;
      assert Prev() == curr;
      if overflow {
        return Undefined;
      }
      var vm := rd.vm.value;
      assert TickResult(prev, curr, interval, rd) == MemoryStage(prev, curr, interval, rd, vm);
      if Total(vm) == 0 {
        return Undefined;
      }
      var used := UsedPercent(vm);
      var ram := IntToString(used);
      if used >= TWO_31 || !Fits(ram, RAM_STRLEN) {
        return Undefined;
      }
      assert MemoryStage(prev, curr, interval, rd, vm) == NetworkStage(prev, curr, interval, rd, ram);
      if sent < 0 || received < 0 {
        return Undefined;
      }
      var sentText := NetworkField(SetValueAndUnit(sent, Unset));
      var receivedText := NetworkField(SetValueAndUnit(received, Unset));
      if !Fits(sentText, NETWORK_STRLEN) || !Fits(receivedText, NETWORK_STRLEN) {
        return Undefined;
      }
      return Published(Line(sentText, receivedText, uptime, battery, rd.date, rd.time, ram));
    }
  }
}

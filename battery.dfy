/**
 * The decisions of `battery`: only the first power source is read, and the
 * charging flag is 1 exactly when its is-charging key is present and true.
 */
module Battery {
  import opened Wrappers

  /** One power-source dictionary: the is-charging key may be absent. */
  datatype PowerSource = PowerSource(isCharging: Option<bool>, capacity: int)

  /** What `battery` stores: the charging flag and the current capacity. */
  datatype Status = Status(charging: int, capacity: int)

  function ChargingFlag(key: Option<bool>): (flag: int)
    ensures flag == 0 || flag == 1
    ensures flag == 1 <==> key == Some(true)
  {
    if key.Some? && key.value then 1 else 0
  }

  /** `battery(&is_charging, &capacity)`: it fails when there is no source. */
  function Read(sources: seq<PowerSource>): (r: Option<Status>)
    ensures r.None? <==> |sources| == 0
    ensures r.Some? ==> r.value.capacity == sources[0].capacity
    ensures r.Some? ==> (r.value.charging == 1 <==> sources[0].isCharging == Some(true))
    ensures r.Some? ==> (r.value.charging == 0 || r.value.charging == 1)
  {
    if |sources| == 0 then None
    else Some(Status(ChargingFlag(sources[0].isCharging), sources[0].capacity))
  }
}

# statfile in Dafny

`statfile` is a small macOS daemon. `statfile start [-s <seconds>]` forks a
background process that, once per interval, samples uptime, battery state,
RAM use, network throughput and the date and time. It writes them as one
pipe-separated status line to `~/.statfile`:

```
<sent>,<unit>|<received>,<unit>|<days>,<hours>|<charging>,<capacity>|<dd/mm/yyyy>|<HH:MM>|<ram%>
```

`statfile stop` reads the daemon's pid from `~/.statfile.pid` and terminates it.

This project models the computations inside `main.c`. Every operating-system
query is replaced by an input value:

- `Words`: C's 32-bit integer behaviour. This covers `u_int32_t` wrap-around,
  reading a `u_int32_t` as an `int`, and C's truncating `/` and `%`.
- `UnitScaler`: `set_value_and_unit`, which turns a byte count into a
  (value, unit) pair in base-1024 steps.
  - The unit is the exact integer meaning of `floor(log(size)/log(1024))`:
    the `u` with `1024^u <= size < 1024^(u+1)`.
  - The value is the exact rational `size / 1024^u`.
- `Uptime`: dividing the seconds since boot into days and hour of day, and
  the failure cases of `uptime`.
- `Battery`: choosing the first power source, and the charging flag.
- `Network`: `network`'s walk over the interface list. It keeps the
  counters of interfaces that have both an address and a data record, and
  adds them in `u_int32_t`.
- `Memory`: the RAM percentage, with `natural_t` (32-bit unsigned)
  arithmetic written out.
- `Decimal`: the text of `%d`, `%.0f` and `%.1f`, and the `%d` conversion
  that `atoi` and `fscanf` perform.
- `StatusLine`: the network, pair and RAM fields, and the seven-field line.
- `Sampler`: one tick of the sampling loop in `start`. `RateState` is a
  class that holds the previous network counters. Its `Tick` method is
  proved against the specification function `TickResult`.
- `Cli`: `main`'s argument dispatch (with a `Settings` class for the global
  `update_interval`) and the pidfile text.

Some behaviours of the code are easy to miss:

- Inside the loop, the code ignores the return values of `battery`, `uptime`
  and `network` (main.c:212, 222, 245). The loop ends with `exit` only when
  `fopen(..., "w")` of the status file fails (main.c:187-190) or when
  `host_statistics` fails (main.c:231-234). In the second case the status
  file has already been emptied. The model takes the three ignored readings
  as given inputs. A RAM failure is the `RamFailure` outcome, with the
  counters left unchanged.
- The rate is truncated toward zero, not floored. The counter difference is
  taken in `u_int32_t`, read as an `int`, and divided with C's `/`
  (main.c:246-247). A counter that went backwards gives a negative rate
  rounded toward zero (`Sampler.RateOfDecline`).
- The fields are printed with `sprintf` into fixed-size buffers
  (main.c:25-28). The battery, uptime and RAM buffers can overflow. Examples
  are a capacity of 1000, a million days of uptime from 10 o'clock on, or a percentage of 1000
  after the `natural_t` total wraps. An overflow is undefined behaviour,
  and the model makes such a tick `Undefined`. The network fields always
  fit (`Sampler.RateFieldFits`).

## Model

| member | source | states |
|---|---|---|
| `Words.Wrap32` | main.c:130-131 | the `u_int32_t` result is in range, and equals the exact value when that is already in range |
| `Words.Wrap32Congruent` | main.c:130-131 | the wrapped value differs from the exact value by a multiple of 2^32 |
| `Words.WrapScale` | main.c:237 | wrapping a sum and then the product by a constant gives the same as wrapping the exact product once |
| `Words.ToInt32` | main.c:246-247 | `(int)` of a `u_int32_t` is the unique signed 32-bit value with the same bits mod 2^32 |
| `Words.TruncDiv` | main.c:246-247 | C division: the quotient's magnitude is the floor of the magnitudes' quotient, and its sign follows the dividend |
| `Words.TruncRem` | main.c:53 | C remainder: dividend = quotient * divisor + remainder, with the remainder's magnitude below the divisor and the dividend's sign |
| `UnitScaler.UnitOf` | main.c:101-102 | the unit of a positive size satisfies 1024^u <= size < 1024^(u+1) |
| `UnitScaler.UnitOfUnique` | main.c:101-102 | any index whose power range contains size is the unit, so the unit is unique |
| `UnitScaler.UnitOfInt32` | main.c:99-102 | every positive 32-bit `int` size has unit at most 3 |
| `UnitScaler.SetValueAndUnit` | main.c:99-105 | size 0 leaves the caller's pair unchanged; otherwise value * 1024^unit == size, 1 <= value < 1024, and the unit brackets size |
| `Uptime.Split` | main.c:52-53 | for s >= 0: hours in 0..23, days*24 + hours == s/3600, and days whole days fit in s; negative s gives hours in -23..0 |
| `Uptime.Query` | main.c:49-58 | fails exactly when the boot time is unavailable or zero; otherwise splits now - boot |
| `Uptime.SeventyTwoHours` | main.c:52-53 | 259200 s is 3 days and 0 hours |
| `Battery.ChargingFlag` | main.c:79-84 | the flag is 0 or 1, and 1 exactly when the key is present and true |
| `Battery.Read` | main.c:71-87 | fails exactly when there is no power source; otherwise reports the first source's flag and capacity |
| `Network.RecordsMembers` | main.c:121-133 | the added records are exactly those of interfaces with an address and a data record |
| `Network.Skipped` | main.c:122-132 | inserting an interface without an address or data anywhere in the list changes neither total |
| `Network.TotalsAppend` | main.c:130-131 | the totals of a joined list are the wrapped sums of the parts' totals |
| `Network.Read` | main.c:110-141 | fails exactly when the list is unavailable; otherwise returns the exact sums of the contributing counters mod 2^32 |
| `Network.EmptyList` | main.c:118-119 | an empty list gives (0, 0) |
| `Memory.Total` | main.c:236 | the `natural_t` total is the exact page sum when that fits, and otherwise differs from it by a multiple of 2^32 |
| `Memory.InUse` | main.c:237 | the `natural_t` numerator, wrapped after the sum and after the product, is the exact 100*(active+inactive) wrapped once, and equal to it when it fits |
| `Memory.UsedPercent` | main.c:236-237 | the result is the floor of the `natural_t` numerator over the `natural_t` total |
| `Memory.UsedPercentInRange` | main.c:236-237 | without wrap-around and with a positive total, the percentage is 100*(active+inactive)/total and lies in 0..100 |
| `Memory.FortyPercent` | main.c:236-237 | wired 10, active 20, inactive 20, free 50 gives 40 |
| `Decimal.NatToString` | main.c:240 | `%d` of a natural number is a non-empty digit string with no leading zero |
| `Decimal.NatToStringValue` | main.c:240 | the digits denote the number printed |
| `Decimal.NatToStringLength` | main.c:25-28 | the digits of n fit in k places exactly when n < 10^k |
| `Decimal.IntToString` | main.c:213 | `%d` text starts with a minus sign exactly for a negative number; the rest is digits without a leading zero that denote the magnitude |
| `Decimal.IntToStringLength` | main.c:25-28 | `%d` text of a non-negative n fits k characters exactly when n < 10^k; of a negative n, exactly when its magnitude fits k - 1 digits |
| `Decimal.LeadingInt` | main.c:298 | the `%d` conversion fails exactly when no digit follows the leading white space and the optional sign |
| `Decimal.NatTextRoundTrip` | main.c:298 | the digits of a natural number, followed by a non-digit, are read back by `%d` as that number |
| `Decimal.NegTextRoundTrip` | main.c:298 | a minus sign and the digits of m, followed by a non-digit, are read back by `%d` as -m |
| `Decimal.IntToStringRoundTrip` | main.c:298 | `%d` text followed by a non-digit is read back by the `%d` conversion as the same integer |
| `Decimal.RoundHalfEven` | main.c:261-263 | the rounded value is within 1/2 of x, and an exact tie goes to the even neighbour |
| `Decimal.Fixed` | main.c:260-270 | `%.0f` text is digits only; `%.1f` text is digits, a point, and exactly one digit |
| `Decimal.FixedValue` | main.c:260-270 | read back, the text is x rounded to its last printed place |
| `StatusLine.SplitJoin` | main.c:277-279 | splitting a separator-joined line gives back the fields when none contains the separator |
| `StatusLine.SplitJoinFree` | main.c:277-279 | whenever no field holds the separator, splitting the joined line gives the fields back |
| `StatusLine.PrecisionFor` | main.c:260-270 | whole numbers exactly for units 0 and 1 |
| `StatusLine.NetworkField` | main.c:260-270 | a network field splits at its only comma into the magnitude text and the unit text, and holds no pipe |
| `StatusLine.NetworkFieldDecimals` | main.c:260-270 | the magnitude has no decimal point for units 0 and 1, and exactly one decimal from unit 2 on |
| `StatusLine.PairField` | main.c:213-223 | a `"%d,%d"` field splits at its only comma into the two numbers' text, and holds no pipe |
| `StatusLine.Line` | main.c:277-279 | when no field holds a pipe, the line splits at the pipe into exactly the seven fields in their order |
| `StatusLine.NetworkFieldFits` | main.c:257-270 | a magnitude below 1024 with a unit up to 3 fits `char[9]` with its NUL |
| `StatusLine.RamFits` | main.c:239-240 | `"%d"` of a percentage fits `char[4]` exactly when it is below 1000 |
| `StatusLine.BatteryFits` | main.c:210-213 | with a 0/1 flag, the battery field fits `char[6]` exactly when the capacity is in -99..999 |
| `StatusLine.UptimeFits` | main.c:220-223 | with hours in 0..23, the uptime field fits `char[10]` exactly when days < 10^7 (hours 0-9) or days < 10^6 (hours 10-23) |
| `Sampler.Rate` | main.c:246-247 | the rate fits in an `int`; it is non-negative when the wrapped delta is below 2^31 and non-positive otherwise |
| `Sampler.RateOfGrowth` | main.c:246-247 | a counter that advanced by delta < 2^31, even across one wrap, gives delta / interval |
| `Sampler.RateOfDecline` | main.c:246-247 | a counter that went back by delta gives -(delta / interval), truncated toward zero |
| `Sampler.RateExample` | main.c:246-247 | prev 1000, curr 3000, interval 2 gives 1000 |
| `Sampler.DeltasTelescope` | main.c:183-274 | carrying prev from tick to tick: the wrapped deltas of all ticks sum, mod 2^32, to the change since the seed read |
| `Sampler.DeltaOfTick` | main.c:245-273 | the k-th entry of the free function `Deltas` is the wrapped change from tick k-1's counters (the seed read for tick 0) to tick k's, and `Rate` on those counters is that delta read as `int` and divided by the interval |
| `Sampler.RateFieldFits` | main.c:250-270 | the field of any non-negative `int` rate fits `char[9]` |
| `Sampler.NetworkStage` | main.c:245-279 | the network stage never reports a RAM failure, and publishes only with non-negative rates |
| `Sampler.MemoryStage` | main.c:236-240 | the RAM stage never reports a RAM failure, and publishes only with non-negative rates |
| `Sampler.TickResult` | main.c:207-279 | a tick fails with RamFailure exactly when `host_statistics` fails after the battery and uptime fields fit; a published line has non-negative rates |
| `Sampler.NetworkStagePublishes` | main.c:245-270 | the network stage publishes exactly when both rates are non-negative |
| `Sampler.TickPublishes` | main.c:207-279 | after a successful memory read with a non-zero total, a line is published exactly when both rates are non-negative, the percentage is below 1000, and the battery and uptime fields fit their buffers |
| `Sampler.TickLineFields` | main.c:277-279 | a published line splits into the seven fields sent, received, uptime, battery, date, time, RAM, in that order, when date and time hold no pipe |
| `Sampler.RateState.constructor` | main.c:179-183 | the first baseline is the seed read taken before the loop |
| `Sampler.RateState.Tick` | main.c:207-274 | the outcome is `TickResult` of the old counters; afterwards prev == curr, except after RamFailure, when nothing changed |
| `Cli.Atoi` | main.c:329 | `atoi` skips white space and an optional sign, then takes the value of the longest digit run, leading zeros included, negated after `-`; 0 when there is no digit |
| `Cli.AtoiZeroPadded` | main.c:329 | `-s 05` gives an interval of 5 |
| `Cli.AtoiOfText` | main.c:329 | `atoi` of `%d` text followed by a non-digit is the number written |
| `Cli.AtoiNoDigits` | main.c:329 | `atoi` is 0 when no digit follows the leading white space and the optional sign |
| `Cli.Dispatch` | main.c:312-337 | usage exactly for argument counts other than 2 and 4; start with an interval only for 4 args with `-s`; stop; any other command is unknown |
| `Cli.ExitStatus` | main.c:312-339 | only `start` ends without a status set in `main`; `main` returns 0 only after `stop`; usage and an unknown command give 1, and an unset HOME gives `EXIT_FAILURE` |
| `Cli.StartFiveSeconds` | main.c:327-331 | `start -s 5` asks for a 5-second interval |
| `Cli.PidfileText` | main.c:160 | the pidfile text ends in a newline and the `%d` conversion reads the pid back from it |
| `Cli.Settings.constructor` | main.c:30-34 | `update_interval` starts at the default 1 |
| `Cli.Settings.Run` | main.c:311-337 | returns `Dispatch`, and changes `update_interval` only for `start -s <n>`, to `atoi(n)` |

## Left out

- Process lifecycle (main.c:146-176): `fork`, `setsid`, `umask`, closing the standard streams, and the `exit` paths. These are operating-system process control.
- `stop` (main.c:290-308): opening the pidfile, `kill`, `remove`, and their diagnostics. This is file and signal I/O. Only the pidfile's text and its read-back are modelled (`Cli.PidfileText`).
- Metric providers. Each is a foreign call, and its result is an input:
  - `sysctl` boot time (main.c:46-49);
  - IOKit and CoreFoundation power-source calls (main.c:65-90);
  - `host_statistics` (main.c:231);
  - `getifaddrs` and `freeifaddrs` (main.c:113, 138).
- A power source without a capacity key (main.c:86-87). The code passes NULL to `CFNumberGetValue`. The model takes the capacity as present.
- Clock and calendar (`time`, `localtime`, `strftime`, main.c:196-203). The date and time strings are inputs. `strftime` is bounded by its buffer size, so these two fields cannot overflow.
- The endless loop, `sleep`, and opening and closing the status file (main.c:185-191, 282-284). One tick is modelled, plus lemmas about a run of ticks (`Sampler.DeltasTelescope`, `Sampler.DeltaOfTick`). A failed `fopen` of the status file, which ends the process, is not modelled.
- Failures of `battery`, `uptime` and `network` inside the loop, which the code ignores. Their outputs are taken as given inputs.
  - `is_charging`, `capacity`, `days` and `hours` are declared inside the loop body (main.c:208-209, 218-219). So any tick whose battery or uptime query fails prints indeterminate values, which the model does not represent.
  - A failed network read inside the loop leaves `curr` as it was, which equals `prev` after the first tick and gives rate 0. The model takes `curr` as an input, so this case is covered when the caller passes the previous counters.
  - A failed seed read before the loop (main.c:183) leaves `prev` uninitialised. The model always starts from a given seed (`Sampler.RateState.constructor`).
- Floating point (main.c:101-103). `log`, `pow` and `floor` are replaced by their exact integer meaning. The model does not claim the float code agrees at exact powers of 1024. The value is kept as an exact rational. The rounding of the value to `float` before printing is not modelled. `%.0f` and `%.1f` are modelled as round-half-even on that exact value.
- `getenv("HOME")` (main.c:318-325) is reduced to whether HOME is set. Building and truncating the paths with `snprintf` is not modelled.
- The `(int)` conversion of `difftime` (main.c:52-53) is taken as exact. It overflows only after about 68 years of uptime.
- `Cli.Atoi`: integers are unbounded. The C behaviour of `atoi` on values beyond `int` is undefined and not modelled.
- `Sampler.RateState.Tick`: requires an interval above 0. The code divides by `update_interval`, and `atoi` can make it 0 or negative (main.c:329). Zero is a division by zero there.
- `Sampler.TickResult`: the cases below become the `Undefined` outcome, whose C result is not defined:
  - a `sprintf` that overflows `battery_str`, `uptime_str`, `ram_str`, `sent_str` or `received_str` (main.c:25-28);
  - a negative rate, which would reach `log` (NaN, then an undefined `(int)` conversion);
  - a zero `natural_t` memory total: the `double` division gives infinity or NaN, and converting that with `(int)` is undefined (main.c:237);
  - a percentage beyond `int`, whose `(int)` conversion is undefined.
- `Sampler.RateState.Tick`: after an `Undefined` outcome the model keeps `prev == curr`. The code's state after undefined behaviour is not defined, so the model picks the state a normal tick would leave.
- `Sampler.RateState.Tick`: combining rates and the state update in one formula (`TickResult`) leaves out the order in which the code writes its local variables. Both rates are read from the old counters before either is replaced, as in the code.
- `UnitScaler.SetValueAndUnit`: takes a `nat` size. Negative sizes reach `log` in the code and are the `Undefined` tick outcome.
- `Memory.UsedPercent`: requires a non-zero `natural_t` total. For a zero total the code's `(int)` conversion is undefined.

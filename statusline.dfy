/**
 * The fields of the status line and the line itself:
 * `<sent>|<received>|<days>,<hours>|<charging>,<capacity>|<date>|<time>|<ram>`.
 * The date and time strings are what `strftime` produced and are inputs.
 */
module StatusLine {
  import opened Decimal
  import opened UnitScaler

  /** The fields joined with sep between neighbours. */
  function Join(fields: seq<string>, sep: char): string
    requires |fields| >= 1
    decreases |fields|
  {
    if |fields| == 1 then fields[0] else fields[0] + [sep] + Join(fields[1..], sep)
  }

  /** The position of the first c in s, or |s| when there is none. */
  function IndexOf(s: string, c: char): (i: nat)
    ensures i <= |s|
    ensures forall j :: 0 <= j < i ==> s[j] != c
    ensures i < |s| ==> s[i] == c
  {
    if |s| == 0 then 0
    else if s[0] == c then 0
    else 1 + IndexOf(s[1..], c)
  }

  /** The pieces of s between the occurrences of sep. */
  function Split(s: string, sep: char): (parts: seq<string>)
    ensures |parts| >= 1
    decreases |s|
  {
    var i := IndexOf(s, sep);
    if i == |s| then [s] else [s[..i]] + Split(s[i + 1..], sep)
  }

  lemma IndexOfFirst(a: string, c: char, b: string)
    requires c !in a
    ensures IndexOf(a + [c] + b, c) == |a|
  {
    var s := a + [c] + b;
    assert s[|a|] == c;
    forall j | 0 <= j < |a| ensures s[j] != c {
      assert s[j] == a[j];
    }
  }

  /** Splitting a joined line at the separator gives the fields back. */
  lemma {:induction false} SplitJoin(fields: seq<string>, sep: char)
    requires |fields| >= 1
    requires forall k :: 0 <= k < |fields| ==> sep !in fields[k]
    ensures Split(Join(fields, sep), sep) == fields
    decreases |fields|
  {
    var s := Join(fields, sep);
    if |fields| > 1 {
      var rest := Join(fields[1..], sep);
      IndexOfFirst(fields[0], sep, rest);
      assert s[..|fields[0]|] == fields[0];
      assert s[|fields[0]| + 1..] == rest;
      SplitJoin(fields[1..], sep);
    }
  }

  /** Whenever no field holds the separator, splitting the joined line gives the fields back. */
  lemma SplitJoinFree(fields: seq<string>, sep: char)
    requires |fields| >= 1
    ensures (forall k :: 0 <= k < |fields| ==> sep !in fields[k]) ==> Split(Join(fields, sep), sep) == fields
  {
    if forall k :: 0 <= k < |fields| ==> sep !in fields[k] {
      SplitJoin(fields, sep);
    }
  }

  /** The precision of a network field: whole numbers for B and KB, tenths above. */
  function PrecisionFor(unit: nat): (p: Precision)
    ensures p == Whole <==> unit <= 1
  {
    if unit == 0 || unit == 1 then Whole else Tenths
  }

  /** The sizes of the `char` buffers the fields are printed into. */
  const BATTERY_STRLEN: nat := 6
  const UPTIME_STRLEN: nat := 10
  const RAM_STRLEN: nat := 4
  const NETWORK_STRLEN: nat := 9

  /** `sprintf` of text into a `char[size]` stays in bounds: the text and its NUL fit. */
  predicate Fits(text: string, size: nat) {
    |text| < size
  }

  /**
   * `"%.0f,%d"` or `"%.1f,%d"` of a scaled rate: the magnitude and the unit
   * index, separated by the only comma.
   */
  function NetworkField(r: Scaled): (s: string)
    requires r.value >= 0.0
    ensures Split(s, ',') == [Fixed(r.value, PrecisionFor(r.unit)), IntToString(r.unit)]
    ensures '|' !in s
  {
    var m := Fixed(r.value, PrecisionFor(r.unit));
    var u := IntToString(r.unit);
    NumericFixed(r.value, PrecisionFor(r.unit));
    NumericInt(r.unit);
    NumericNoSeparator(m);
    NumericNoSeparator(u);
    SplitJoin([m, u], ',');
    assert Join([m, u], ',') == m + "," + u;
    m + "," + u
  }

  /** `"%d,%d"`, used for both the uptime and the battery fields. */
  function PairField(a: int, b: int): (s: string)
    ensures Split(s, ',') == [IntToString(a), IntToString(b)]
    ensures '|' !in s
  {
    var x := IntToString(a);
    var y := IntToString(b);
    NumericInt(a);
    NumericInt(b);
    NumericNoSeparator(x);
    NumericNoSeparator(y);
    SplitJoin([x, y], ',');
    assert Join([x, y], ',') == x + "," + y;
    x + "," + y
  }

  /**
   * The seven fields in their order, joined with `|`; when no field holds
   * `|`, splitting the line gives back exactly those fields.
   */
  function Line(sent: string, received: string, uptime: string, battery: string,
                date: string, time: string, ram: string): (s: string)
    ensures '|' !in sent && '|' !in received && '|' !in uptime && '|' !in battery &&
            '|' !in date && '|' !in time && '|' !in ram ==>
      Split(s, '|') == [sent, received, uptime, battery, date, time, ram]
  {
    var fields := [sent, received, uptime, battery, date, time, ram];
    SplitJoinFree(fields, '|');
    Join(fields, '|')
  }

  /** Characters printf produces for numbers: digits, a sign, a decimal point. */
  predicate NumericText(s: string) {
    forall i :: 0 <= i < |s| ==> IsDigit(s[i]) || s[i] == '-' || s[i] == '.'
  }

  lemma NumericFixed(x: real, p: Precision)
    requires x >= 0.0
    ensures NumericText(Fixed(x, p))
  {
    var s := Fixed(x, p);
    if p == Tenths {
      forall i | 0 <= i < |s| ensures IsDigit(s[i]) || s[i] == '-' || s[i] == '.' {
        if i < |s| - 2 {
          assert s[i] == s[..|s| - 2][i];
        }
      }
    }
  }

  lemma NumericInt(n: int)
    ensures NumericText(IntToString(n))
  {
    var s := IntToString(n);
    if n < 0 {
      forall i | 0 <= i < |s| ensures IsDigit(s[i]) || s[i] == '-' || s[i] == '.' {
        if i > 0 {
          assert s[i] == NatToString(-n)[i - 1];
        }
      }
    }
  }

  lemma NumericNoSeparator(s: string)
    requires NumericText(s)
    ensures '|' !in s && ',' !in s
  {
  }

  /**
   * The magnitude of a network field has no decimals for units 0 and 1, and
   * exactly one decimal from unit 2 on.
   */
  lemma NetworkFieldDecimals(r: Scaled)
    requires r.value >= 0.0
    ensures r.unit <= 1 ==> '.' !in Fixed(r.value, PrecisionFor(r.unit))
    ensures r.unit >= 2 ==>
      var m := Fixed(r.value, PrecisionFor(r.unit));
      m[|m| - 2] == '.' && '.' !in m[..|m| - 2] && '.' !in m[|m| - 1..]
  {
  }

  /** A magnitude below 1024 with a unit up to 3 (GB) fits `char[NETWORK_STRLEN]`. */
  lemma NetworkFieldFits(r: Scaled)
    requires 0.0 <= r.value < 1024.0 && r.unit <= 3
    ensures Fits(NetworkField(r), NETWORK_STRLEN)
  {
    var m := Fixed(r.value, PrecisionFor(r.unit));
    IntToStringLength(r.unit, 1);
    assert |NetworkField(r)| == |m| + 1 + |IntToString(r.unit)|;
    if r.unit <= 1 {
      NatToStringLength(RoundHalfEven(r.value), 4);
    } else {
      var n := RoundHalfEven(r.value * 10.0);
      assert n <= 10240;
      NatToStringLength(n / 10, 4);
      assert |m| == |NatToString(n / 10)| + 2;
    }
  }

  /** `"%d"` of a percentage fits `char[RAM_STRLEN]` exactly when it is below 1000. */
  lemma RamFits(used: nat)
    ensures Fits(IntToString(used), RAM_STRLEN) <==> used < 1000
  {
    IntToStringLength(used, 3);
  }

  /**
   * `"%d,%d"` of a charging flag and a capacity fits `char[BATTERY_STRLEN]`
   * exactly when the capacity takes at most three characters.
   */
  lemma BatteryFits(charging: int, capacity: int)
    requires 0 <= charging <= 1
    ensures Fits(PairField(charging, capacity), BATTERY_STRLEN) <==> -99 <= capacity <= 999
  {
    IntToStringLength(charging, 1);
    IntToStringLength(capacity, 3);
    assert |PairField(charging, capacity)| == |IntToString(charging)| + 1 + |IntToString(capacity)|;
  }

  /**
   * `"%d,%d"` of days and an hour of day fits `char[UPTIME_STRLEN]` exactly
   * when the days take at most seven digits (six from 10 o'clock on).
   */
  lemma UptimeFits(days: int, hours: int)
    requires days >= 0 && 0 <= hours < 24
    ensures Fits(PairField(days, hours), UPTIME_STRLEN) <==>
      days < (if hours < 10 then 10_000_000 else 1_000_000)
  {
    IntToStringLength(hours, 1);
    IntToStringLength(hours, 2);
    assert |PairField(days, hours)| == |IntToString(days)| + 1 + |IntToString(hours)|;
    if hours < 10 {
      IntToStringLength(days, 7);
    } else {
      IntToStringLength(days, 6);
    }
  }
}

/**
 * `network`: the byte counters of every interface that has an address and
 * a data record, summed in `u_int32_t` arithmetic. The interface list that
 * `getifaddrs` returns is an input.
 */
module Network {
  import opened Wrappers
  import opened Words

  /** The two `if_data` counters that are read. */
  datatype IfData = IfData(obytes: u32, ibytes: u32)

  /** One `ifaddrs` entry: whether `ifa_addr` is set, and its `ifa_data`. */
  datatype Interface = Interface(hasAddress: bool, data: Option<IfData>)

  /** Bytes sent and received, as `u_int32_t`. */
  datatype Counters = Counters(sent: u32, received: u32)

  predicate Contributes(ifa: Interface) {
    ifa.hasAddress && ifa.data.Some?
  }

  /** The data records that are added, in list order. */
  function Records(ifs: seq<Interface>): (ds: seq<IfData>)
    ensures |ds| <= |ifs|
  {
    if ifs == [] then []
    else
      var last := ifs[|ifs| - 1];
      Records(ifs[..|ifs| - 1]) + (if Contributes(last) then [last.data.value] else [])
  }

  /** Exactly the records of contributing interfaces are added. */
  lemma {:induction false} RecordsMembers(ifs: seq<Interface>)
    ensures forall d :: d in Records(ifs) ==> exists ifa :: ifa in ifs && Contributes(ifa) && ifa.data.value == d
    ensures forall ifa :: ifa in ifs && Contributes(ifa) ==> ifa.data.value in Records(ifs)
    decreases |ifs|
  {
    if ifs != [] {
      var init := ifs[..|ifs| - 1];
      var last := ifs[|ifs| - 1];
      assert forall ifa :: ifa in ifs <==> ifa in init || ifa == last;
      RecordsMembers(init);
    }
  }

  /** One more interface adds its record when it contributes. */
  lemma RecordsStep(ifs: seq<Interface>, i: nat)
    requires i < |ifs|
    ensures Records(ifs[..i + 1]) == Records(ifs[..i]) + (if Contributes(ifs[i]) then [ifs[i].data.value] else [])
  {
    assert ifs[..i + 1][..i] == ifs[..i];
  }

  /** Exact (unbounded) sums of the counters. */
  function SumSent(ds: seq<IfData>): nat {
    if ds == [] then 0 else SumSent(ds[..|ds| - 1]) + ds[|ds| - 1].obytes
  }

  function SumReceived(ds: seq<IfData>): nat {
    if ds == [] then 0 else SumReceived(ds[..|ds| - 1]) + ds[|ds| - 1].ibytes
  }

  /** The totals `network` stores: the exact sums wrapped to 32 bits. */
  function Totals(ifs: seq<Interface>): Counters {
    Counters(Wrap32(SumSent(Records(ifs))), Wrap32(SumReceived(Records(ifs))))
  }

  lemma SumsStep(ds: seq<IfData>, d: IfData)
    ensures SumSent(ds + [d]) == SumSent(ds) + d.obytes
    ensures SumReceived(ds + [d]) == SumReceived(ds) + d.ibytes
  {
    assert (ds + [d])[..|ds|] == ds;
  }

  /** The loop step: the wrapped totals after one more interface. */
  lemma TotalsStep(ifs: seq<Interface>, i: nat)
    requires i < |ifs|
    ensures Contributes(ifs[i]) ==>
      Totals(ifs[..i + 1]) == Counters(Wrap32(Totals(ifs[..i]).sent + ifs[i].data.value.obytes),
                                       Wrap32(Totals(ifs[..i]).received + ifs[i].data.value.ibytes))
    ensures !Contributes(ifs[i]) ==> Totals(ifs[..i + 1]) == Totals(ifs[..i])
  {
    var done := Records(ifs[..i]);
    RecordsStep(ifs, i);
    if Contributes(ifs[i]) {
      var d := ifs[i].data.value;
      SumsStep(done, d);
      WrapAdd(SumSent(done), d.obytes);
      WrapAdd(SumReceived(done), d.ibytes);
    } else {
      assert done + [] == done;
    }
  }

  lemma {:induction false} RecordsAppend(a: seq<Interface>, b: seq<Interface>)
    ensures Records(a + b) == Records(a) + Records(b)
    decreases |b|
  {
    if b == [] {
      assert a + b == a;
    } else {
      var b' := b[..|b| - 1];
      assert (a + b)[..|a + b| - 1] == a + b';
      assert (a + b)[|a + b| - 1] == b[|b| - 1];
      RecordsAppend(a, b');
    }
  }

  lemma {:induction false} SumsAppend(a: seq<IfData>, b: seq<IfData>)
    ensures SumSent(a + b) == SumSent(a) + SumSent(b)
    ensures SumReceived(a + b) == SumReceived(a) + SumReceived(b)
    decreases |b|
  {
    if b == [] {
      assert a + b == a;
    } else {
      var b' := b[..|b| - 1];
      assert (a + b)[..|a + b| - 1] == a + b';
      assert (a + b)[|a + b| - 1] == b[|b| - 1];
      SumsAppend(a, b');
    }
  }

  /** Inserting an interface without an address or without data changes no total. */
  lemma Skipped(a: seq<Interface>, x: Interface, b: seq<Interface>)
    requires !Contributes(x)
    ensures Totals(a + [x] + b) == Totals(a + b)
  {
    assert [x][..0] == [];
    assert Records([x]) == Records([]) == [];
    RecordsAppend(a, [x]);
    assert Records(a + [x]) == Records(a);
    RecordsAppend(a + [x], b);
    RecordsAppend(a, b);
    assert Records(a + [x] + b) == Records(a + b);
  }

  lemma SentAppend(a: seq<Interface>, b: seq<Interface>)
    ensures Totals(a + b).sent == Wrap32(Totals(a).sent + Totals(b).sent)
  {
    var ra, rb := Records(a), Records(b);
    RecordsAppend(a, b);
    SumsAppend(ra, rb);
    var sa, sb := SumSent(ra), SumSent(rb);
    calc {
      Totals(a + b).sent;
      Wrap32(SumSent(ra + rb));
      Wrap32(sa + sb);
      { WrapSum(sa, sb); }
      Wrap32(Wrap32(sa) + Wrap32(sb));
    }
  }

  lemma ReceivedAppend(a: seq<Interface>, b: seq<Interface>)
    ensures Totals(a + b).received == Wrap32(Totals(a).received + Totals(b).received)
  {
    var ra, rb := Records(a), Records(b);
    RecordsAppend(a, b);
    SumsAppend(ra, rb);
    var qa, qb := SumReceived(ra), SumReceived(rb);
    calc {
      Totals(a + b).received;
      Wrap32(SumReceived(ra + rb));
      Wrap32(qa + qb);
      { WrapSum(qa, qb); }
      Wrap32(Wrap32(qa) + Wrap32(qb));
    }
  }

  /** The totals over two lists joined are the wrapped sums of the two totals. */
  lemma TotalsAppend(a: seq<Interface>, b: seq<Interface>)
    ensures Totals(a + b).sent == Wrap32(Totals(a).sent + Totals(b).sent)
    ensures Totals(a + b).received == Wrap32(Totals(a).received + Totals(b).received)
  {
    SentAppend(a, b);
    ReceivedAppend(a, b);
  }

  /**
   * `network(&sent, &received)`: it fails when the interface list cannot
   * be obtained; otherwise it walks the list and accumulates in place.
   */
  method Read(list: Option<seq<Interface>>) returns (r: Option<Counters>)
    ensures r.None? <==> list.None?
    ensures r.Some? ==> r.value == Totals(list.value)
  {
    if list.None? {
      return None;
    }
    var ifs := list.value;
    var bytesSent: u32 := 0;
    var bytesReceived: u32 := 0;
    var i := 0;
    while i < |ifs|
      invariant 0 <= i <= |ifs|
      invariant Counters(bytesSent, bytesReceived) == Totals(ifs[..i])
    {
      var ifa := ifs[i];
      TotalsStep(ifs, i);
      if ifa.hasAddress {
        if ifa.data.Some? {
          var ifd := ifa.data.value;
          bytesSent := Wrap32(bytesSent + ifd.obytes);
          bytesReceived := Wrap32(bytesReceived + ifd.ibytes);
        }
      }
      i := i + 1;
    }
    assert ifs[..i] == ifs;
    return Some(Counters(bytesSent, bytesReceived));
  }

  /** An empty list gives zero totals. */
  lemma EmptyList()
    ensures Totals([]) == Counters(0, 0)
  {
  }
}

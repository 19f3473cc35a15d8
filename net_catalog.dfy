/** The interface enumerator (`listInterfaces`) and the catalog builder
    (`getNetMetricTypes`): every statistic kind crossed with every interface
    of a domain, as namespaces without values. */
module NetCatalog {
  import opened NetTypes
  import opened Namespace
  import opened NetStat

  // ---------------------------------------------------------------------
  // Interface enumerator

  /** The values of `attrs`, in order. */
  function Values(attrs: seq<Attr>): (r: seq<string>)
    ensures |r| == |attrs| && forall k :: 0 <= k < |attrs| ==> r[k] == attrs[k].value
  {
    seq(|attrs|, k requires 0 <= k < |attrs| => attrs[k].value)
  }

  /** Every attribute value of every target element, element by element in
      document order. */
  function AttrValues(targets: seq<Element>): seq<string> {
    if targets == [] then []
    else AttrValues(targets[..|targets| - 1]) + Values(targets[|targets| - 1].attrs)
  }

  /** The number of attributes over all elements. */
  function AttrCount(targets: seq<Element>): nat {
    if targets == [] then 0
    else AttrCount(targets[..|targets| - 1]) + |targets[|targets| - 1].attrs|
  }

  /** `listInterfaces`: appends the value of every attribute of every
      selected `target` element. */
  method ListInterfaces(doc: Document) returns (networkInterfaces: seq<string>)
    ensures networkInterfaces == AttrValues(doc.targets)
  {
    networkInterfaces := [];
    for t := 0 to |doc.targets|
      invariant networkInterfaces == AttrValues(doc.targets[..t])
    {
      var target := doc.targets[t];
      for k := 0 to |target.attrs|
        invariant networkInterfaces == AttrValues(doc.targets[..t]) + Values(target.attrs[..k])
      {
        networkInterfaces := networkInterfaces + [target.attrs[k].value];
      }
      assert doc.targets[..t + 1][..t] == doc.targets[..t];
      assert target.attrs[..|target.attrs|] == target.attrs;
    }
    assert doc.targets[..|doc.targets|] == doc.targets;
  }

  /** The enumeration of two consecutive stretches of the document is the
      enumeration of the first followed by that of the second. */
  lemma {:induction false} AttrValuesAppend(xs: seq<Element>, ys: seq<Element>)
    ensures AttrValues(xs + ys) == AttrValues(xs) + AttrValues(ys)
    decreases |ys|
  {
    if ys == [] {
      assert xs + ys == xs;
    } else {
      var ys', y := ys[..|ys| - 1], ys[|ys| - 1];
      var zs := xs + ys;
      assert zs[..|zs| - 1] == xs + ys' && zs[|zs| - 1] == y;
      assert AttrValues(zs) == AttrValues(xs + ys') + Values(y.attrs);
      AttrValuesAppend(xs, ys');
      assert AttrValues(ys) == AttrValues(ys') + Values(y.attrs);
    }
  }

  /** One element contributes its attribute values, in order. */
  lemma AttrValuesSingle(e: Element)
    ensures AttrValues([e]) == Values(e.attrs)
  {
  }

  /** Nothing is dropped, deduplicated or added: one name per attribute. */
  lemma {:induction false} AttrValuesLength(targets: seq<Element>)
    ensures |AttrValues(targets)| == AttrCount(targets)
  {
    if targets != [] {
      AttrValuesLength(targets[..|targets| - 1]);
    }
  }

  /** A name is enumerated exactly when some attribute of some target holds it. */
  lemma {:induction false} AttrValuesMember(targets: seq<Element>, v: string)
    ensures v in AttrValues(targets) <==>
      exists t, k :: 0 <= t < |targets| && 0 <= k < |targets[t].attrs| && targets[t].attrs[k].value == v
  {
    if targets != [] {
      var init, last := targets[..|targets| - 1], targets[|targets| - 1];
      AttrValuesMember(init, v);
      if v in AttrValues(targets) {
        if v in AttrValues(init) {
          var t, k :| 0 <= t < |init| && 0 <= k < |init[t].attrs| && init[t].attrs[k].value == v;
          assert targets[t] == init[t];
        } else {
          assert v in Values(last.attrs);
          var k :| 0 <= k < |last.attrs| && Values(last.attrs)[k] == v;
          assert targets[|targets| - 1].attrs[k].value == v;
        }
      } else {
        forall t, k | 0 <= t < |targets| && 0 <= k < |targets[t].attrs|
          ensures targets[t].attrs[k].value != v
        {
          if t < |targets| - 1 {
            assert targets[t] == init[t];
          } else {
            assert Values(last.attrs)[k] in AttrValues(targets);
          }
        }
      }
    }
  }

  /** The enumeration is empty, not an error, exactly when no target has an attribute. */
  lemma {:induction false} AttrValuesEmpty(targets: seq<Element>)
    ensures AttrValues(targets) == [] <==> forall t :: 0 <= t < |targets| ==> targets[t].attrs == []
  {
    if targets != [] {
      var init := targets[..|targets| - 1];
      AttrValuesEmpty(init);
      assert forall t :: 0 <= t < |init| ==> init[t] == targets[t];
    }
  }

  // ---------------------------------------------------------------------
  // Catalog builder

  /** The namespace the catalog advertises for one interface and one kind. */
  function Entry(name: string, iface: string, kind: string): MetricType {
    MetricType(["libvirt", name, "net", iface, kind], None, None)
  }

  /** The entries of one kind: one per interface, in enumeration order. */
  function Row(name: string, kind: string, ifaces: seq<string>): (r: seq<MetricType>)
    ensures |r| == |ifaces| && forall j :: 0 <= j < |ifaces| ==> r[j] == Entry(name, ifaces[j], kind)
  {
    seq(|ifaces|, j requires 0 <= j < |ifaces| => Entry(name, ifaces[j], kind))
  }

  /** The entries of `kinds`, one row per kind, in the order of `kinds`. */
  function Catalog(name: string, kinds: seq<string>, ifaces: seq<string>): seq<MetricType> {
    if kinds == [] then []
    else Catalog(name, kinds[..|kinds| - 1], ifaces) + Row(name, kinds[|kinds| - 1], ifaces)
  }

  /** `getNetMetricTypes`: reads the description, then the name, stopping at
      the first failure; then appends, kind by kind and interface by
      interface, an entry per pair. `parse` stands for reading the XML and
      selecting its `target` elements; a parse error is ignored by the
      collector, so `parse` returns whatever it selected. */
  method GetNetMetricTypes(dom: Domain, parse: string -> Document) returns (r: Result<seq<MetricType>>)
    ensures dom.xmlDesc.err.Some? ==> r == Err(HypervisorError(dom.xmlDesc.err.value))
    ensures dom.xmlDesc.err.None? && dom.name.err.Some? ==> r == Err(HypervisorError(dom.name.err.value))
    ensures dom.xmlDesc.err.None? && dom.name.err.None? ==>
      r == Ok(Catalog(dom.name.value, NetMetricsTypes, AttrValues(parse(dom.xmlDesc.value).targets)))
  {
    var domXMLDesc := dom.xmlDesc;
    if domXMLDesc.err.Some? {
      return Err(HypervisorError(domXMLDesc.err.value));
    }
    var domXML := parse(domXMLDesc.value);
    var domainName := dom.name;
    if domainName.err.Some? {
      return Err(HypervisorError(domainName.err.value));
    }
    var name := domainName.value;
    ghost var all := AttrValues(domXML.targets);
    var mts: seq<MetricType> := [];
    for k := 0 to |NetMetricsTypes|
      invariant mts == Catalog(name, NetMetricsTypes[..k], all)
    {
      var metric := NetMetricsTypes[k];
      var ifaces := ListInterfaces(domXML);
      for j := 0 to |ifaces|
        invariant mts == Catalog(name, NetMetricsTypes[..k], all) + Row(name, metric, ifaces[..j])
      {
        RowExtend(name, metric, ifaces, j);
        mts := mts + [Entry(name, ifaces[j], metric)];
      }
      assert ifaces[..|ifaces|] == ifaces;
      CatalogExtend(name, NetMetricsTypes, k, all);
    }
    assert NetMetricsTypes[..|NetMetricsTypes|] == NetMetricsTypes;
    return Ok(mts);
  }

  /** A row grows by one entry per interface. */
  lemma RowExtend(name: string, kind: string, ifaces: seq<string>, j: nat)
    requires j < |ifaces|
    ensures Row(name, kind, ifaces[..j + 1]) == Row(name, kind, ifaces[..j]) + [Entry(name, ifaces[j], kind)]
  {
  }

  /** The catalog grows by one row per kind. */
  lemma CatalogExtend(name: string, kinds: seq<string>, k: nat, ifaces: seq<string>)
    requires k < |kinds|
    ensures Catalog(name, kinds[..k + 1], ifaces) == Catalog(name, kinds[..k], ifaces) + Row(name, kinds[k], ifaces)
  {
    assert kinds[..k + 1][..k] == kinds[..k];
  }

  /** The catalog holds one entry per (kind, interface) pair. */
  lemma {:induction false} CatalogLength(name: string, kinds: seq<string>, ifaces: seq<string>)
    ensures |Catalog(name, kinds, ifaces)| == |kinds| * |ifaces|
  {
    if kinds != [] {
      CatalogLength(name, kinds[..|kinds| - 1], ifaces);
      assert |kinds| * |ifaces| == (|kinds| - 1) * |ifaces| + |ifaces|;
    }
  }

  /** Kind-major, interface-minor: the entry at `k * n + j` is for kind `k`
      and interface `j`. */
  lemma {:induction false} CatalogAt(name: string, kinds: seq<string>, ifaces: seq<string>, k: nat, j: nat)
    requires k < |kinds| && j < |ifaces|
    ensures k * |ifaces| + j < |Catalog(name, kinds, ifaces)|
    ensures Catalog(name, kinds, ifaces)[k * |ifaces| + j] == Entry(name, ifaces[j], kinds[k])
  {
    var n := |ifaces|;
    var init := kinds[..|kinds| - 1];
    CatalogLength(name, kinds, ifaces);
    CatalogLength(name, init, ifaces);
    if k < |kinds| - 1 {
      CatalogAt(name, init, ifaces, k, j);
    } else {
      assert k * n == |init| * n;
    }
    MulBound(k, |kinds|, j, n);
  }

  /** `k * n + j` stays below `m * n` when `k < m` and `j < n`. */
  lemma MulBound(k: nat, m: nat, j: nat, n: nat)
    requires k < m && j < n
    ensures k * n + j < m * n
  {
    assert (k + 1) * n <= m * n;
  }

  /** Every entry of the catalog is the one for its kind and interface. */
  lemma CatalogIndex(name: string, kinds: seq<string>, ifaces: seq<string>, i: nat)
    requires i < |Catalog(name, kinds, ifaces)|
    ensures |ifaces| > 0 && i / |ifaces| < |kinds|
    ensures Catalog(name, kinds, ifaces)[i] == Entry(name, ifaces[i % |ifaces|], kinds[i / |ifaces|])
  {
    var n := |ifaces|;
    CatalogLength(name, kinds, ifaces);
    DivModSplit(i, n, |kinds|);
    CatalogAt(name, kinds, ifaces, i / n, i % n);
  }

  /** Splitting an index below `m * n` into a row below `m` and a column below `n`. */
  lemma DivModSplit(i: nat, n: nat, m: nat)
    requires 0 < n && i < m * n
    ensures i == (i / n) * n + i % n && i % n < n && i / n < m
  {
  }

  /** The collector's catalog has exactly eight entries per interface, and is
      empty exactly when there is no interface. */
  lemma NetCatalogLength(name: string, ifaces: seq<string>)
    ensures |Catalog(name, NetMetricsTypes, ifaces)| == 8 * |ifaces|
    ensures Catalog(name, NetMetricsTypes, ifaces) == [] <==> ifaces == []
  {
    CatalogLength(name, NetMetricsTypes, ifaces);
  }

  /** Every catalog entry, handed back to the dispatcher, selects the case of
      its own kind and queries its own interface, provided the domain name
      and interface names hold no slash and no newline. */
  lemma CatalogRoundTrip(name: string, ifaces: seq<string>, k: nat, j: nat, dom: Domain, now: int)
    requires CleanSegment(name) && forall j' :: 0 <= j' < |ifaces| ==> CleanSegment(ifaces[j'])
    requires k < 8 && j < |ifaces|
    ensures k * |ifaces| + j < |Catalog(name, NetMetricsTypes, ifaces)|
    ensures var ns := Catalog(name, NetMetricsTypes, ifaces)[k * |ifaces| + j].namespace;
      && ns == ["libvirt", name, "net", ifaces[j], NetMetricsTypes[k]]
      && SwitchCase(JoinNamespace(ns)) == Some(Kinds[k])
      && InterfaceStat(ns, dom, now) == Fetch(Kinds[k], ns, dom.interfaceStats(ifaces[j]), now)
      && InterfaceStatIntended(ns, dom, now) == FetchIntended(Kinds[k], ns, dom.interfaceStats(ifaces[j]), now)
  {
    CatalogAt(name, NetMetricsTypes, ifaces, k, j);
    CatalogNamespaceDispatch(name, ifaces[j], k, dom, now);
  }

  /** A domain "vm1" with interfaces "vnet0" and "vnet1": sixteen entries,
      kind-major. */
  lemma ExampleTwoInterfaces()
    ensures var c := Catalog("vm1", NetMetricsTypes, ["vnet0", "vnet1"]);
      && |c| == 16
      && c[0] == Entry("vm1", "vnet0", "rxbytes")
      && c[1] == Entry("vm1", "vnet1", "rxbytes")
      && c[2] == Entry("vm1", "vnet0", "rxpackets")
  {
    var ifaces := ["vnet0", "vnet1"];
    NetCatalogLength("vm1", ifaces);
    CatalogAt("vm1", NetMetricsTypes, ifaces, 0, 0);
    CatalogAt("vm1", NetMetricsTypes, ifaces, 0, 1);
    CatalogAt("vm1", NetMetricsTypes, ifaces, 1, 0);
  }

  /** The `rxbytes` namespace of "vnet0" on "vm1" samples 42 when the
      hypervisor reports 42 received bytes for "vnet0". */
  lemma ExampleReceivedBytes(dom: Domain, now: int)
    requires dom.interfaceStats("vnet0") == Reply(InterfaceStats(42, 0, 0, 0, 0, 0, 0, 0), None)
    ensures InterfaceStat(["libvirt", "vm1", "net", "vnet0", "rxbytes"], dom, now) ==
      Ok(MetricType(["libvirt", "vm1", "net", "vnet0", "rxbytes"], Some(42), Some(now)))
  {
    assert CleanSegment("vm1") by {
      assert forall k :: 0 <= k < 3 ==> "vm1"[k] != '/' && "vm1"[k] != '\n';
    }
    assert CleanSegment("vnet0") by {
      assert forall k :: 0 <= k < 5 ==> "vnet0"[k] != '/' && "vnet0"[k] != '\n';
    }
    CatalogNamespaceDispatch("vm1", "vnet0", 0, dom, now);
  }
}

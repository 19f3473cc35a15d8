/** The stat dispatcher of the collector (`interfaceStat`): it joins the
    requested namespace into a path, tries the eight statistic patterns in
    case order, reads the interface name from segment 3, asks the hypervisor
    for that interface's counters and wraps one counter into a sample. */
module NetStat {
  import opened NetTypes
  import opened Namespace
  import opened Pattern

  /** The statistic kinds, in the collector's declaration order. */
  const NetMetricsTypes: seq<string> :=
    ["rxbytes", "rxpackets", "rxerrs", "rxdrop", "txbytes", "txpackets", "txerrs", "txdrop"]

  /** One case of the dispatch switch each. */
  datatype Kind = RxBytes | RxPackets | RxErrs | RxDrop | TxBytes | TxPackets | TxErrs | TxDrop

  /** The kinds in the order of the switch cases, which is that of `NetMetricsTypes`. */
  const Kinds: seq<Kind> := [RxBytes, RxPackets, RxErrs, RxDrop, TxBytes, TxPackets, TxErrs, TxDrop]

  /** The first switch case whose pattern matches `path`, if any. */
  function SwitchCase(path: string): Option<Kind> {
    if MatchesPattern(path, "rxbytes") then Some(RxBytes)
    else if MatchesPattern(path, "rxpackets") then Some(RxPackets)
    else if MatchesPattern(path, "rxerrs") then Some(RxErrs)
    else if MatchesPattern(path, "rxdrop") then Some(RxDrop)
    else if MatchesPattern(path, "txbytes") then Some(TxBytes)
    else if MatchesPattern(path, "txpackets") then Some(TxPackets)
    else if MatchesPattern(path, "txerrs") then Some(TxErrs)
    else if MatchesPattern(path, "txdrop") then Some(TxDrop)
    else None
  }

  /** The counter each case puts into its sample, as the collector has it:
      the `txdrop` case reads the received-drop counter. */
  function SourceField(kind: Kind, s: InterfaceStats): (r: int)
    ensures kind != TxDrop ==> r == IntendedField(kind, s)
    ensures kind == TxDrop ==> r == s.rxDrop
  {
    match kind
    case RxBytes => s.rxBytes
    case RxPackets => s.rxPackets
    case RxErrs => s.rxErrs
    case RxDrop => s.rxDrop
    case TxBytes => s.txBytes
    case TxPackets => s.txPackets
    case TxErrs => s.txErrs
    case TxDrop => s.rxDrop
  }

  /** The counter each kind names. */
  function IntendedField(kind: Kind, s: InterfaceStats): int {
    match kind
    case RxBytes => s.rxBytes
    case RxPackets => s.rxPackets
    case RxErrs => s.rxErrs
    case RxDrop => s.rxDrop
    case TxBytes => s.txBytes
    case TxPackets => s.txPackets
    case TxErrs => s.txErrs
    case TxDrop => s.txDrop
  }

  /** The body of one switch case, as the collector has it, once the
      hypervisor answered `reply`: every case but `txerrs` returns the
      hypervisor's error; `txerrs` only logs it and returns a sample anyway. */
  function Fetch(kind: Kind, ns: seq<string>, reply: Reply<InterfaceStats>, now: int): (r: Result<MetricType>)
    ensures r.Ok? ==> r.value == MetricType(ns, Some(SourceField(kind, reply.value)), Some(now))
    ensures r.Err? <==> reply.err.Some? && kind != TxErrs
    ensures r.Err? ==> r.error == HypervisorError(reply.err.value)
  {
    if reply.err.Some? && kind != TxErrs then Err(HypervisorError(reply.err.value))
    else Ok(MetricType(ns, Some(SourceField(kind, reply.value)), Some(now)))
  }

  /** `interfaceStat(ns, dom)` with the clock reading `now`. */
  function InterfaceStat(ns: seq<string>, dom: Domain, now: int): (r: Result<MetricType>)
    ensures SwitchCase(JoinNamespace(ns)).None? <==> r == Err(UnknownMetric(ns))
    ensures SwitchCase(JoinNamespace(ns)).Some? && |ns| <= 3 ==> r == Err(IndexOutOfRange(3, |ns|))
    ensures SwitchCase(JoinNamespace(ns)).Some? && |ns| > 3 ==>
      && r == Fetch(SwitchCase(JoinNamespace(ns)).value, ns, dom.interfaceStats(ns[3]), now)
      && (r.Err? <==> dom.interfaceStats(ns[3]).err.Some? && SwitchCase(JoinNamespace(ns)).value != TxErrs)
      && (r.Err? ==> r.error == HypervisorError(dom.interfaceStats(ns[3]).err.value))
    ensures r.Ok? ==>
      && |ns| > 3 && SwitchCase(JoinNamespace(ns)).Some?
      && r.value == MetricType(ns, Some(SourceField(SwitchCase(JoinNamespace(ns)).value, dom.interfaceStats(ns[3]).value)), Some(now))
  {
    match SwitchCase(JoinNamespace(ns))
    case None => Err(UnknownMetric(ns))
    case Some(kind) =>
      // Go panics reading ns[3] from a shorter slice.
      if |ns| <= 3 then Err(IndexOutOfRange(3, |ns|))
      else Fetch(kind, ns, dom.interfaceStats(ns[3]), now)
  }

  /** One switch case with both defects repaired. */
  function FetchIntended(kind: Kind, ns: seq<string>, reply: Reply<InterfaceStats>, now: int): (r: Result<MetricType>)
    ensures r.Ok? <==> reply.err.None?
    ensures r.Ok? ==> r.value == MetricType(ns, Some(IntendedField(kind, reply.value)), Some(now))
    ensures r.Err? ==> r.error == HypervisorError(reply.err.value)
  {
    if reply.err.Some? then Err(HypervisorError(reply.err.value))
    else Ok(MetricType(ns, Some(IntendedField(kind, reply.value)), Some(now)))
  }

  /** `interfaceStat` as evidently intended: the `txdrop` case reads the
      transmitted-drop counter and the `txerrs` case returns its error. */
  function InterfaceStatIntended(ns: seq<string>, dom: Domain, now: int): (r: Result<MetricType>)
    ensures SwitchCase(JoinNamespace(ns)).None? <==> r == Err(UnknownMetric(ns))
    ensures SwitchCase(JoinNamespace(ns)).Some? && |ns| <= 3 ==> r == Err(IndexOutOfRange(3, |ns|))
    ensures SwitchCase(JoinNamespace(ns)).Some? && |ns| > 3 ==>
      && r == FetchIntended(SwitchCase(JoinNamespace(ns)).value, ns, dom.interfaceStats(ns[3]), now)
      && (r.Ok? <==> dom.interfaceStats(ns[3]).err.None?)
      && (r.Err? ==> r.error == HypervisorError(dom.interfaceStats(ns[3]).err.value))
    ensures r.Ok? ==>
      && |ns| > 3 && SwitchCase(JoinNamespace(ns)).Some? && dom.interfaceStats(ns[3]).err.None?
      && r.value == MetricType(ns, Some(IntendedField(SwitchCase(JoinNamespace(ns)).value, dom.interfaceStats(ns[3]).value)), Some(now))
  {
    match SwitchCase(JoinNamespace(ns))
    case None => Err(UnknownMetric(ns))
    case Some(kind) =>
      if |ns| <= 3 then Err(IndexOutOfRange(3, |ns|))
      else FetchIntended(kind, ns, dom.interfaceStats(ns[3]), now)
  }

  // ---------------------------------------------------------------------
  // Dispatch: first match in case order

  /** The first of cases `i`, ..., 7 whose pattern matches `path`. */
  function FirstMatchFrom(path: string, i: nat): Option<Kind>
    requires i <= 8
    decreases 8 - i
  {
    if i == 8 then None
    else if MatchesPattern(path, NetMetricsTypes[i]) then Some(Kinds[i])
    else FirstMatchFrom(path, i + 1)
  }

  /** The switch is the first match over the cases in order. */
  lemma SwitchCaseIsFirstMatch(path: string)
    ensures SwitchCase(path) == FirstMatchFrom(path, 0)
  {
  }

  /** A first match from `i` picks case `j` exactly when pattern `j`
      matches and none between `i` and `j` does. */
  lemma {:induction false} FirstMatchFromPicks(path: string, i: nat, j: nat)
    requires i <= j < 8
    ensures FirstMatchFrom(path, i) == Some(Kinds[j]) <==>
      MatchesPattern(path, NetMetricsTypes[j]) && forall h :: i <= h < j ==> !MatchesPattern(path, NetMetricsTypes[h])
    decreases j - i
  {
    if i < j {
      FirstMatchFromPicks(path, i + 1, j);
    } else if !MatchesPattern(path, NetMetricsTypes[j]) {
      FirstMatchFromAfter(path, j + 1, j);
    }
  }

  /** A search from `i` never picks an earlier case `j`. */
  lemma {:induction false} FirstMatchFromAfter(path: string, i: nat, j: nat)
    requires j < i <= 8
    ensures FirstMatchFrom(path, i) != Some(Kinds[j])
    decreases 8 - i
  {
    if i < 8 {
      assert Kinds[i] != Kinds[j];
      FirstMatchFromAfter(path, i + 1, j);
    }
  }

  /** A first match from `i` finds nothing exactly when no pattern from `i` on matches. */
  lemma {:induction false} FirstMatchFromNone(path: string, i: nat)
    requires i <= 8
    ensures FirstMatchFrom(path, i).None? <==> forall h :: i <= h < 8 ==> !MatchesPattern(path, NetMetricsTypes[h])
    decreases 8 - i
  {
    if i < 8 {
      FirstMatchFromNone(path, i + 1);
    }
  }

  /** The switch picks case `i` exactly when pattern `i` matches and no
      earlier pattern does. */
  lemma SwitchCaseFirstMatch(path: string, i: nat)
    requires i < 8
    ensures SwitchCase(path) == Some(Kinds[i]) <==>
      RegexMatch(path, NetMetricsTypes[i]) && forall h :: 0 <= h < i ==> !RegexMatch(path, NetMetricsTypes[h])
  {
    SwitchCaseIsFirstMatch(path);
    FirstMatchFromPicks(path, 0, i);
    AllPatternsCorrect(path);
  }

  /** The switch falls through exactly when no pattern matches. */
  lemma SwitchCaseNone(path: string)
    ensures SwitchCase(path).None? <==> forall i :: 0 <= i < 8 ==> !RegexMatch(path, NetMetricsTypes[i])
  {
    SwitchCaseIsFirstMatch(path);
    FirstMatchFromNone(path, 0);
    AllPatternsCorrect(path);
  }

  lemma AllPatternsCorrect(path: string)
    ensures forall i :: 0 <= i < 8 ==> (MatchesPattern(path, NetMetricsTypes[i]) <==> RegexMatch(path, NetMetricsTypes[i]))
  {
    forall i | 0 <= i < 8
      ensures MatchesPattern(path, NetMetricsTypes[i]) <==> RegexMatch(path, NetMetricsTypes[i])
    {
      MatchesPatternCorrect(path, NetMetricsTypes[i]);
    }
  }

  // ---------------------------------------------------------------------
  // Shape of a matching namespace

  /** The pattern's literals hold five slashes. */
  lemma PatternSlashes(a: string, b: string, kind: string, c: string)
    ensures Slashes("/libvirt/" + a + "/net/" + b + "/" + kind + c) ==
      5 + Slashes(a) + Slashes(b) + Slashes(kind) + Slashes(c)
  {
  }

  /** With slash-free segments, a namespace that any pattern matches has at
      least five segments, so reading segment 3 never panics. */
  lemma MatchNeedsFiveSegments(ns: seq<string>, kind: string)
    requires forall i :: 0 <= i < |ns| ==> SlashFree(ns[i])
    requires RegexMatch(JoinNamespace(ns), kind)
    ensures |ns| >= 5
  {
    var a, b, c :| Decomposes(JoinNamespace(ns), kind, a, b, c);
    PatternSlashes(a, b, kind, c);
    JoinNamespaceSlashes(ns);
  }

  /** With slash-free segments the dispatcher returns a sample, the
      hypervisor's error or the unknown-metric error, and never panics. */
  lemma InterfaceStatNoPanic(ns: seq<string>, dom: Domain, now: int)
    requires forall i :: 0 <= i < |ns| ==> SlashFree(ns[i])
    ensures InterfaceStat(ns, dom, now).Err? ==> !InterfaceStat(ns, dom, now).error.IndexOutOfRange?
    ensures InterfaceStatIntended(ns, dom, now).Err? ==> !InterfaceStatIntended(ns, dom, now).error.IndexOutOfRange?
  {
    var path := JoinNamespace(ns);
    if SwitchCase(path).Some? {
      SwitchCaseNone(path);
      var i :| 0 <= i < 8 && RegexMatch(path, NetMetricsTypes[i]);
      MatchNeedsFiveSegments(ns, NetMetricsTypes[i]);
    }
  }

  // ---------------------------------------------------------------------
  // Round trip of a catalog namespace

  /** No kind begins another kind, even one followed by more text. */
  lemma KindsPrefixFree(i: nat, j: nat, suffix: string)
    requires i < 8 && j < 8
    requires NetMetricsTypes[i] <= NetMetricsTypes[j] + suffix
    ensures i == j
  {
    var s, t := NetMetricsTypes[i], NetMetricsTypes[j] + suffix;
    assert s[0] == t[0] && s[2] == t[2];
  }

  lemma KindsSlashFree(i: nat)
    requires i < 8
    ensures SlashFree(NetMetricsTypes[i]) && NetMetricsTypes[i] != ""
  {
  }

  /** When the path of a catalog namespace is spelled as a match, the
      match's gaps hold no slash: both spellings count the same slashes. */
  lemma MatchGapsSlashFree(name: string, iface: string, kind: string, a: string, b: string, other: string, c: string)
    requires SlashFree(name) && SlashFree(iface) && SlashFree(kind)
    requires "/libvirt/" + name + "/net/" + iface + "/" + kind + "" == "/libvirt/" + a + "/net/" + b + "/" + other + c
    ensures SlashFree(a) && SlashFree(b)
  {
    PatternSlashes(a, b, other, c);
    PatternSlashes(name, iface, kind, "");
    SlashFreeCount(name);
    SlashFreeCount(iface);
    SlashFreeCount(kind);
    SlashFreeCount("");
    SlashFreeCount(a);
    SlashFreeCount(b);
  }

  /** In the path of a catalog namespace, a pattern can only match with a
      kind that begins the namespace's own kind. */
  lemma MatchedKindIsPrefix(name: string, iface: string, kind: string, other: string)
    requires SlashFree(name) && SlashFree(iface) && SlashFree(kind)
    requires RegexMatch("/libvirt/" + name + "/net/" + iface + "/" + kind, other)
    ensures other <= kind
  {
    var path := "/libvirt/" + name + "/net/" + iface + "/" + kind;
    var a, b, c :| Decomposes(path, other, a, b, c);
    // MatchGapsSlashFree takes the catalog path with an empty tail after the kind.
    assert path == path + "";
    MatchGapsSlashFree(name, iface, kind, a, b, other, c);
    // Cut at the slash after the domain name, then at the one after the interface.
    var rest := path[9..];
    assert rest == name + "/" + ("net/" + iface + "/" + kind);
    assert rest == a + "/" + ("net/" + b + "/" + (other + c));
    SplitAtSlash(name, "net/" + iface + "/" + kind, a, "net/" + b + "/" + (other + c));
    var tail := "net/" + iface + "/" + kind;
    assert tail[4..] == iface + "/" + kind;
    assert tail[4..] == b + "/" + (other + c);
    SplitAtSlash(iface, kind, b, other + c);
  }

  /** A five-segment namespace whose last segment is kind `i` followed by
      any slash-free text dispatches to case `i` and queries segment 3: the
      patterns have no `$`, so the text after the kind is ignored. */
  lemma TrailedKindDispatch(name: string, iface: string, i: nat, suffix: string, dom: Domain, now: int)
    requires CleanSegment(name) && CleanSegment(iface) && SlashFree(suffix) && i < 8
    ensures var ns := ["libvirt", name, "net", iface, NetMetricsTypes[i] + suffix];
      && SwitchCase(JoinNamespace(ns)) == Some(Kinds[i])
      && InterfaceStat(ns, dom, now) == Fetch(Kinds[i], ns, dom.interfaceStats(iface), now)
      && InterfaceStatIntended(ns, dom, now) == FetchIntended(Kinds[i], ns, dom.interfaceStats(iface), now)
  {
    var kind := NetMetricsTypes[i];
    var last := kind + suffix;
    var ns := ["libvirt", name, "net", iface, last];
    var path := JoinNamespace(ns);
    JoinNamespaceFive("libvirt", name, "net", iface, last);
    assert path == "/libvirt/" + name + "/net/" + iface + "/" + last;
    assert path == "/libvirt/" + name + "/net/" + iface + "/" + kind + suffix;
    assert Decomposes(path, kind, name, iface, suffix);
    KindsSlashFree(i);
    assert SlashFree(last);
    forall h | 0 <= h < i
      ensures !RegexMatch(path, NetMetricsTypes[h])
    {
      if RegexMatch(path, NetMetricsTypes[h]) {
        MatchedKindIsPrefix(name, iface, last, NetMetricsTypes[h]);
        KindsPrefixFree(h, i, suffix);
      }
    }
    SwitchCaseFirstMatch(path, i);
  }

  /** The namespace the catalog builds for kind `i` dispatches to case `i`
      and queries its own interface, in the collector and in its corrected
      form alike. */
  lemma CatalogNamespaceDispatch(name: string, iface: string, i: nat, dom: Domain, now: int)
    requires CleanSegment(name) && CleanSegment(iface) && i < 8
    ensures var ns := ["libvirt", name, "net", iface, NetMetricsTypes[i]];
      && SwitchCase(JoinNamespace(ns)) == Some(Kinds[i])
      && InterfaceStat(ns, dom, now) == Fetch(Kinds[i], ns, dom.interfaceStats(iface), now)
      && InterfaceStatIntended(ns, dom, now) == FetchIntended(Kinds[i], ns, dom.interfaceStats(iface), now)
  {
    assert NetMetricsTypes[i] + "" == NetMetricsTypes[i];
    TrailedKindDispatch(name, iface, i, "", dom, now);
  }

  // ---------------------------------------------------------------------
  // The two defects, and how far the collector is from its intent

  /** The `txdrop` case samples the received-drop counter, so its sample is
      right only when the two drop counters happen to agree. */
  lemma TxDropReadsRxDrop(ns: seq<string>, reply: Reply<InterfaceStats>, now: int)
    requires reply.err.None?
    ensures Fetch(TxDrop, ns, reply, now).value.data == Some(reply.value.rxDrop)
    ensures Fetch(TxDrop, ns, reply, now) == FetchIntended(TxDrop, ns, reply, now) <==>
      reply.value.rxDrop == reply.value.txDrop
  {
  }

  /** A concrete case: received drops 1, transmitted drops 2, sample 1. */
  lemma TxDropCounterexample(ns: seq<string>, now: int)
    ensures var reply := Reply(InterfaceStats(0, 0, 0, 1, 0, 0, 0, 2), None);
      && Fetch(TxDrop, ns, reply, now) == Ok(MetricType(ns, Some(1), Some(now)))
      && FetchIntended(TxDrop, ns, reply, now) == Ok(MetricType(ns, Some(2), Some(now)))
  {
  }

  /** The `txerrs` case drops the hypervisor's error and returns a sample
      built from whatever counters came with it. */
  lemma TxErrsSwallowsError(ns: seq<string>, reply: Reply<InterfaceStats>, now: int)
    requires reply.err.Some?
    ensures Fetch(TxErrs, ns, reply, now) == Ok(MetricType(ns, Some(reply.value.txErrs), Some(now)))
    ensures FetchIntended(TxErrs, ns, reply, now) == Err(HypervisorError(reply.err.value))
  {
  }

  /** The collector and its corrected form disagree exactly in the two
      defective situations. */
  lemma DefectsAreTheOnlyDifference(ns: seq<string>, dom: Domain, now: int)
    ensures InterfaceStat(ns, dom, now) != InterfaceStatIntended(ns, dom, now) <==>
      && |ns| > 3
      && var kind, reply := SwitchCase(JoinNamespace(ns)), dom.interfaceStats(ns[3]);
      || (kind == Some(TxDrop) && reply.err.None? && reply.value.rxDrop != reply.value.txDrop)
      || (kind == Some(TxErrs) && reply.err.Some?)
  {
  }

  /** A fetch depends on the hypervisor only through the counters of the
      interface it names: a failure on another interface cannot change it. */
  lemma InterfaceStatQueriesOwnInterface(ns: seq<string>, dom: Domain, dom': Domain, now: int)
    requires |ns| > 3 && dom.interfaceStats(ns[3]) == dom'.interfaceStats(ns[3])
    ensures InterfaceStat(ns, dom, now) == InterfaceStat(ns, dom', now)
    ensures InterfaceStatIntended(ns, dom, now) == InterfaceStatIntended(ns, dom', now)
  {
  }
}

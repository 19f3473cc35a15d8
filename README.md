# Network statistics of the libvirt collector, in Dafny

This project models the network part of a metrics collector for virtual
machines managed through libvirt (`libvirt/net.go`). The collector does three
things:

- **Interface enumerator** (`listInterfaces`). It lists a domain's virtual
  network interfaces: the value of every attribute of every
  `//domain/devices/interface/target` element, in document order, with
  duplicates kept.
- **Catalog builder** (`getNetMetricTypes`). It advertises one namespace
  `["libvirt", <domain name>, "net", <interface>, <kind>]` per pair of
  statistic kind and interface. Kinds form the outer loop and interfaces the
  inner loop. It gives up at the first failure of the hypervisor, first on
  the XML description and then on the name.
- **Stat dispatcher** (`interfaceStat`). It joins a requested namespace into a
  path and tries the eight patterns `^/libvirt/.*/net/.*/<kind>` in case
  order. It reads segment 3 as the interface and asks the hypervisor for that
  interface's counters. It returns one counter as a timestamped sample.

Modules:

- `NetTypes` (`net_types.dfy`): the values involved. These are Go's
  `(value, error)` replies, the counters, the metric record, the parsed
  document and the domain.
- `Namespace` (`namespace.dfy`): joining a namespace into a path, and slash
  counting.
- `Pattern` (`pattern.dfy`): an executable matcher for the patterns. It is
  proved to decide exactly the decomposition
  `path == "/libvirt/" + a + "/net/" + b + "/" + kind + c`, where `a` and `b`
  hold no newline (Go's `.` does not match `'\n'`) and `c` is free text (the
  patterns have no `$`).
- `NetStat` (`net_stat.dfy`): the dispatcher, exactly as written. It also has
  a corrected version, the first-match law, the round trip for catalog
  namespaces and the two defects.
- `NetCatalog` (`net_catalog.dfy`): `ListInterfaces` and `GetNetMetricTypes`
  as loop-based methods. Each is proved against a specification function
  (`AttrValues`, `Catalog`), and lemmas state the properties of those
  functions.

Assumptions:

- `joinNamespace` is not part of this model. It is taken to be `"/"` followed
  by the segments joined with `"/"`. The `^/libvirt/` anchor of the patterns
  presupposes that form.
- A Go runtime panic on `ns[3]` is modelled as the result
  `Err(IndexOutOfRange(3, |ns|))`.

Behaviour of the code that the model keeps:

- The dispatcher never compares the last segment with the kinds. It matches
  the joined path against patterns with no end anchor, so a kind followed by
  more text still matches (`TrailedKindDispatch`). The segment count is never
  checked, so segment 3 is queried even when it is not the interface, and a
  path that matches with fewer than four segments panics on `ns[3]`.
- `InterfaceStat` models the `txdrop` and `txerrs` cases as written.
  `InterfaceStatIntended` is the corrected version; see "## Findings".
- Hypervisor errors pass through unchanged. The only error the code builds is
  `Unknown error processing [...]` (`Error.Text`, `UnknownMetricText`).

## Model

| member | source | states |
|---|---|---|
| `Namespace.JoinNamespace` | libvirt/net.go:37 | the assumed `joinNamespace`: the path starts with a slash, and the empty namespace joins to `"/"`; its slash count is stated by `JoinNamespaceSlashes` |
| `Namespace.JoinNamespaceSlashes` | libvirt/net.go:37 | with slash-free segments, the joined path has exactly one slash per segment, or a single slash for an empty namespace |
| `Pattern.MatchesGapsSound` | libvirt/net.go:37 | a successful `.*lit...` search yields a newline-free gap, the literal, and a rest matching the remaining literals |
| `Pattern.MatchesGapsComplete` | libvirt/net.go:37 | every newline-free gap followed by the literal and a matching rest is found by the search |
| `Pattern.MatchesPattern` | libvirt/net.go:37 | one `regexp.MustCompile(...).MatchString` of a case pattern (lines 37, 48, ..., 114); what it decides is stated by `MatchesPatternCorrect` |
| `Pattern.MatchesPatternCorrect` | libvirt/net.go:37 | the executable pattern match holds if and only if the path decomposes as `/libvirt/` a `/net/` b `/` kind c with a and b newline-free |
| `NetStat.NetMetricsTypes` | libvirt/net.go:32-33 | the eight kinds in declaration order, which is also the order of the switch cases (`SwitchCaseIsFirstMatch`); no kind begins another (`KindsPrefixFree`) |
| `NetStat.SwitchCase` | libvirt/net.go:36-125 | which case the switch takes; stated as a first match over the decompositions by `SwitchCaseFirstMatch` and `SwitchCaseNone` |
| `NetStat.SwitchCaseIsFirstMatch` | libvirt/net.go:36-125 | the switch is the first match over the eight cases in the order of `netMetricsTypes` |
| `NetStat.FirstMatchFromPicks` | libvirt/net.go:36-125 | a first-match search picks case j if and only if pattern j matches and no earlier pattern does |
| `NetStat.FirstMatchFromNone` | libvirt/net.go:36-126 | a first-match search finds nothing if and only if no remaining pattern matches |
| `NetStat.SwitchCaseFirstMatch` | libvirt/net.go:36-125 | the dispatcher takes case i if and only if the path decomposes for kind i and for no earlier kind |
| `NetStat.SwitchCaseNone` | libvirt/net.go:36-126 | the switch falls through if and only if no kind's decomposition exists |
| `NetStat.SourceField` | libvirt/net.go:45-122 | the counter each case puts in `Data_`: the one the kind names for seven kinds, and the received-drop counter for `txdrop` (line 122) |
| `NetStat.Fetch` | libvirt/net.go:38-124 | one case body: an error from the hypervisor is returned for every kind except `txerrs`; otherwise the sample carries the input namespace, the case's counter and the capture time |
| `NetStat.InterfaceStat` | libvirt/net.go:35-127 | the `Unknown error processing` error for `ns` if and only if no pattern matches; a match with at most three segments gives the `IndexOutOfRange` error at index 3; otherwise the selected case runs on the reply for interface `ns[3]`: the hypervisor's error comes back exactly when the reply has one and the kind is not `txerrs`, and a sample carries the input namespace, the clock reading and the selected counter |
| `NetStat.FetchIntended` | libvirt/net.go:103-124 | corrected case body: the result is a sample if and only if the hypervisor answered without error, and the sample holds the counter the kind names |
| `NetStat.InterfaceStatIntended` | libvirt/net.go:35-127 | corrected dispatcher: the unknown-namespace error exactly when nothing matches; `IndexOutOfRange` for a match with at most three segments; otherwise a sample exactly when the reply for `ns[3]` has no error, carrying the counter the kind names, and the hypervisor's error when it has one |
| `NetTypes.UnknownMetricText` | libvirt/net.go:126 | the unknown-metric error for `["a", "b"]` prints as `Unknown error processing [a b]`, as `%v` renders a string slice |
| `NetStat.MatchNeedsFiveSegments` | libvirt/net.go:37-38 | with slash-free segments, any pattern match implies at least five segments |
| `NetStat.InterfaceStatNoPanic` | libvirt/net.go:38 | with slash-free segments, reading `ns[3]` never panics, in either version |
| `NetStat.KindsPrefixFree` | libvirt/net.go:32-33 | no kind begins another kind, even when text follows it |
| `NetStat.MatchGapsSlashFree` | libvirt/net.go:37 | when a catalog path is spelled as a pattern match, the match's gaps contain no slash |
| `NetStat.MatchedKindIsPrefix` | libvirt/net.go:37 | in a catalog path, a pattern can only match with a kind that begins the path's own last segment |
| `NetStat.TrailedKindDispatch` | libvirt/net.go:36-125 | a namespace whose last segment is kind i plus any slash-free text dispatches to case i and queries segment 3 |
| `NetStat.CatalogNamespaceDispatch` | libvirt/net.go:36-125 | the namespace built for kind i and interface `iface` dispatches to case i and queries `iface`, in both versions |
| `NetStat.TxDropReadsRxDrop` | libvirt/net.go:114-124 | the `txdrop` sample holds the received-drop counter, so it agrees with the corrected version exactly when both drop counters are equal |
| `NetStat.TxDropCounterexample` | libvirt/net.go:120-124 | with received drops 1 and transmitted drops 2, the `txdrop` sample is 1 where 2 is intended |
| `NetStat.TxErrsSwallowsError` | libvirt/net.go:103-113 | on a hypervisor error, the `txerrs` case returns a sample of the accompanying counters, whereas the corrected case returns the error |
| `NetStat.DefectsAreTheOnlyDifference` | libvirt/net.go:103-124 | the dispatcher and its corrected version differ exactly for `txdrop` with unequal drop counters and for `txerrs` with a hypervisor error |
| `NetStat.InterfaceStatQueriesOwnInterface` | libvirt/net.go:38-39 | a fetch depends on the hypervisor only through the reply for its own interface, so a failure on another interface cannot change it |
| `NetCatalog.ListInterfaces` | libvirt/net.go:129-138 | the nested append loops return exactly `AttrValues` of the selected target elements |
| `NetCatalog.AttrValuesAppend` | libvirt/net.go:131-136 | enumerating two consecutive stretches of the document gives the first stretch's names followed by the second's |
| `NetCatalog.AttrValuesSingle` | libvirt/net.go:132-134 | one element contributes its attribute values in attribute order |
| `NetCatalog.AttrValuesLength` | libvirt/net.go:131-136 | one name per attribute: nothing is dropped or deduplicated |
| `NetCatalog.AttrValuesMember` | libvirt/net.go:131-136 | a name is enumerated if and only if some attribute of some target element holds it |
| `NetCatalog.AttrValuesEmpty` | libvirt/net.go:130-137 | the enumeration is empty (not an error) if and only if no target element has an attribute |
| `NetCatalog.GetNetMetricTypes` | libvirt/net.go:140-162 | a description error wins over a name error; a name error is returned next; otherwise the result is the catalog of the name and the enumerated interfaces |
| `NetCatalog.CatalogLength` | libvirt/net.go:154-160 | the catalog has one entry per (kind, interface) pair |
| `NetCatalog.CatalogAt` | libvirt/net.go:154-158 | kind-major, interface-minor: the entry at `k*n + j` is `["libvirt", name, "net", ifaces[j], kinds[k]]` |
| `NetCatalog.CatalogIndex` | libvirt/net.go:154-158 | every entry i is the one for interface `i % n` and kind `i / n` |
| `NetCatalog.NetCatalogLength` | libvirt/net.go:154-161 | the collector's catalog has exactly 8 entries per interface, and is empty if and only if there is no interface |
| `NetCatalog.CatalogRoundTrip` | libvirt/net.go:154-158 | with slash- and newline-free names, the catalog entry at `k*n + j` is the namespace of kind k and interface j; handed back to the dispatcher it selects case k and queries interface j, in both versions |
| `NetCatalog.ExampleTwoInterfaces` | libvirt/net.go:154-158 | domain "vm1" with "vnet0" and "vnet1" gives 16 entries, kind-major: both `rxbytes` entries come before the first `rxpackets` entry |
| `NetCatalog.ExampleReceivedBytes` | libvirt/net.go:38-46 | the `rxbytes` namespace of "vnet0" on "vm1" samples 42, with the capture time, when the hypervisor reports 42 received bytes for "vnet0" |

## Left out

- The libvirt bindings (`GetXMLDesc`, `GetName`, `InterfaceStats`) are foreign calls. They become fields of `Domain` that hold fixed replies. The flags argument `0` of `GetXMLDesc` is dropped.
- XML parsing and the XPath search (`etree`) are library code. They become the parameter `parse`, which yields the selected `target` elements in document order. The collector ignores parse errors, so `parse` returns whatever it selected.
- The regular-expression engine is replaced by the `Pattern` matcher and its proved decomposition. The patterns are recompiled on every call in the source; that has no observable effect and is not modelled.
- `time.Now()` is a clock read. It becomes the parameter `now`, so no bound of the timestamp relative to the call is stated.
- The `fmt.Println` of the swallowed `txerrs` error is logging. Only the fact that the error is not returned is kept.
- `plugin.PluginMetricType` becomes a plain record (namespace, optional counter, optional timestamp). The framework's serialisation is out of scope.
- The counters are Go `int64` values that are only copied, never computed with, so they are unbounded integers here.
- GetNetMetricTypes: that `GetName` is never called after `GetXMLDesc` fails is shown only as error precedence (the description's error is returned whatever the name's reply). Replies are values here, so the order of calls is not observable.
- InterfaceStat: concurrent fetches are not modelled. Every operation is a function of its inputs, and the source has no shared state.

## Findings

| source | as written | input that shows it | evidently intended | confidence | as-written member | corrected member |
|---|---|---|---|---|---|---|
| libvirt/net.go:122 | the `txdrop` case samples `ifaceStat.RxDrop` | namespace `/libvirt/vm1/net/vnet0/txdrop` with RxDrop 1 and TxDrop 2 gives a sample of 1 | sample `TxDrop`, here 2 | high (copy of the `rxdrop` case); not executed | `NetStat.TxDropCounterexample` | `NetStat.InterfaceStatIntended` |
| libvirt/net.go:106-108 | the `txerrs` case prints the `InterfaceStats` error and returns a sample with a nil error | a `txerrs` namespace whose interface query fails gives a sample of the counters returned beside the error | return nil and the error, as the seven other cases do | high; not executed | `NetStat.TxErrsSwallowsError` | `NetStat.InterfaceStatIntended` |

`InterfaceStat` stays the model of the code as written. `InterfaceStatIntended`
differs from it only in these two places (`DefectsAreTheOnlyDifference`). The
catalog round trip (`CatalogRoundTrip`) is proved for both versions.

/** Values shared by the network-statistics collector: Go's (value, error)
    pairs, the hypervisor's interface counters, the metric record handed to
    the collection framework, and the domain as the hypervisor presents it. */
module NetTypes {

  datatype Option<+T> = None | Some(value: T)

  /** What a hypervisor call returning `(T, error)` hands back: on failure Go
      still returns a value beside the error, so both are kept; the error is
      known by its message. */
  datatype Reply<+T> = Reply(value: T, err: Option<string>)

  /** The outcome of a Go function returning `(*T, error)` or `([]T, error)`:
      `Ok(v)` is `(v, nil)`, `Err(e)` is `(nil, e)`. */
  datatype Result<+T> = Ok(value: T) | Err(error: Error)

  datatype Error =
    /** An error produced by the hypervisor binding, with its message. */
    | HypervisorError(msg: string)
    /** The error built when no namespace pattern matches; it carries the namespace. */
    | UnknownMetric(ns: seq<string>)
    /** A Go runtime panic: indexing a slice of length `len` at `index`. */
    | IndexOutOfRange(index: int, len: int)
  {
    /** A short text for the error. Only the `UnknownMetric` text is the
        one the collector builds (`%v` renders a `[]string` as its elements
        separated by spaces, inside brackets); a hypervisor error keeps its
        message, and the panic is named without the runtime's exact wording. */
    function Text(): string {
      match this
      case HypervisorError(msg) => msg
      case UnknownMetric(ns) => "Unknown error processing [" + JoinWith(ns, " ") + "]"
      case IndexOutOfRange(_, _) => "index out of range"
    }
  }

  /** How the unknown-metric error prints for a two-segment namespace. */
  lemma UnknownMetricText()
    ensures UnknownMetric(["a", "b"]).Text() == "Unknown error processing [a b]"
  {
    assert JoinWith(["a", "b"], " ") == "a b" by {
      assert JoinWith(["b"], " ") == "b";
    }
  }

  /** Elements of `parts` separated by `sep`, as Go's strings.Join. */
  function JoinWith(parts: seq<string>, sep: string): string
    decreases |parts|
  {
    if parts == [] then ""
    else if |parts| == 1 then parts[0]
    else parts[0] + sep + JoinWith(parts[1..], sep)
  }

  /** The eight 64-bit counters of one virtual interface, as the hypervisor
      reports them. They are only copied, never computed with, so their width
      plays no part. */
  datatype InterfaceStats = InterfaceStats(
    rxBytes: int, rxPackets: int, rxErrs: int, rxDrop: int,
    txBytes: int, txPackets: int, txErrs: int, txDrop: int)

  /** A metric record of the collection framework. Catalog entries carry only
      a namespace; samples also carry the counter and the capture time. */
  datatype MetricType = MetricType(namespace: seq<string>, data: Option<int>, timestamp: Option<int>)

  /** An XML attribute of a `target` element. */
  datatype Attr = Attr(key: string, value: string)

  /** A `target` element with its attributes in document order. */
  datatype Element = Element(attrs: seq<Attr>)

  /** A parsed domain description, reduced to what the path
      `//domain/devices/interface/target` selects from it, in document order. */
  datatype Document = Document(targets: seq<Element>)

  /** A running virtual machine as its hypervisor answers for it: the XML
      description, the name, and the counters of each interface by name. */
  datatype Domain = Domain(
    xmlDesc: Reply<string>,
    name: Reply<string>,
    interfaceStats: string -> Reply<InterfaceStats>)
}

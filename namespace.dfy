/** Metric namespaces as slash-separated paths, and the facts about slashes
    that let a path be cut back into its segments. */
module Namespace {
  import opened NetTypes

  /** The namespace as one path with a slash before every segment. The
      collector's `joinNamespace` is defined outside net.go; this is the form
      its patterns, anchored at `^/libvirt/`, presuppose. */
  function JoinNamespace(ns: seq<string>): (r: string)
    ensures |r| >= 1 && r[0] == '/'
    ensures ns == [] ==> r == "/"
  {
    "/" + JoinWith(ns, "/")
  }

  /** The number of slashes in `s`. */
  function Slashes(s: string): nat {
    multiset(s)['/']
  }

  predicate SlashFree(s: string) {
    '/' !in s
  }

  predicate NewlineFree(s: string) {
    '\n' !in s
  }

  /** A segment that neither splits the path nor stops a `.*`. */
  predicate CleanSegment(s: string) {
    SlashFree(s) && NewlineFree(s)
  }

  lemma SlashesConcat(s: string, t: string)
    ensures Slashes(s + t) == Slashes(s) + Slashes(t)
  {
  }

  lemma SlashFreeCount(s: string)
    ensures SlashFree(s) <==> Slashes(s) == 0
  {
  }

  lemma SlashCount()
    ensures Slashes("/") == 1
  {
  }

  /** With slash-free segments, the joined path has one slash per segment
      (and the lone leading slash when there is none). */
  lemma {:induction false} JoinNamespaceSlashes(ns: seq<string>)
    requires forall i :: 0 <= i < |ns| ==> SlashFree(ns[i])
    ensures Slashes(JoinNamespace(ns)) == if ns == [] then 1 else |ns|
  {
    SlashCount();
    SlashesConcat("/", JoinWith(ns, "/"));
    if ns != [] {
      JoinWithSlashes(ns);
    } else {
      assert JoinWith(ns, "/") == "";
    }
  }

  lemma {:induction false} JoinWithSlashes(ns: seq<string>)
    requires ns != []
    requires forall i :: 0 <= i < |ns| ==> SlashFree(ns[i])
    ensures Slashes(JoinWith(ns, "/")) == |ns| - 1
  {
    SlashFreeCount(ns[0]);
    if |ns| > 1 {
      JoinWithSlashes(ns[1..]);
      SlashCount();
      SlashesConcat(ns[0], "/");
      SlashesConcat(ns[0] + "/", JoinWith(ns[1..], "/"));
    }
  }

  /** The path of a five-segment namespace, written out. */
  lemma JoinNamespaceFive(a: string, b: string, c: string, d: string, e: string)
    ensures JoinNamespace([a, b, c, d, e]) == "/" + a + "/" + b + "/" + c + "/" + d + "/" + e
  {
    var ns := [a, b, c, d, e];
    assert JoinWith(ns[4..], "/") == e;
    assert JoinWith(ns[3..], "/") == d + "/" + e;
    assert JoinWith(ns[2..], "/") == c + "/" + d + "/" + e;
    assert JoinWith(ns[1..], "/") == b + "/" + c + "/" + d + "/" + e;
  }

  /** Cutting at the first slash: a slash-free head is determined by the path. */
  lemma SplitAtSlash(x: string, y: string, u: string, v: string)
    requires SlashFree(x) && SlashFree(u)
    requires x + "/" + y == u + "/" + v
    ensures x == u && y == v
  {
    var s := x + "/" + y;
    assert s[|x|] == '/';
    assert s[|u|] == '/';
    assert x == s[..|x|] == u;
    assert y == s[|x| + 1..] == v;
  }
}

// The namespace patterns of the collector, `^/libvirt/.*/net/.*/<kind>`:
// an executable matcher, and the decomposition it is proved to decide.
// Go's `.` matches any character except a newline, and the patterns carry
// no `$`, so any text may follow the kind.
module Pattern {
  import opened Namespace

  // `s` begins with `x0 + lits[0] + x1 + lits[1] + ...` where every gap `xi`
  // is newline-free: the search a Go regexp performs for `.*lit0.*lit1...`
  // at the start of `s`, trying the shortest gap first.
  predicate MatchesGaps(s: string, lits: seq<string>)
    decreases |lits|, |s|
  {
    if lits == [] then true
    else if lits[0] <= s && MatchesGaps(s[|lits[0]|..], lits[1..]) then true
    else |s| > 0 && s[0] != '\n' && MatchesGaps(s[1..], lits)
  }

  // Whether `regexp.MustCompile("^/libvirt/.*/net/.*/" + kind).MatchString(path)`.
  predicate MatchesPattern(path: string, kind: string) {
    "/libvirt/" <= path && MatchesGaps(path[9..], ["/net/", "/" + kind])
  }

  /** `path` is the pattern's literals with the gaps `a`, `b` and the free tail `c`. */
  ghost predicate Decomposes(path: string, kind: string, a: string, b: string, c: string) {
    NewlineFree(a) && NewlineFree(b) && path == "/libvirt/" + a + "/net/" + b + "/" + kind + c
  }

  /** What the pattern means: some choice of gaps and tail spells `path`. */
  ghost predicate RegexMatch(path: string, kind: string) {
    exists a, b, c :: Decomposes(path, kind, a, b, c)
  }

  /** `s` is a newline-free gap `x`, then `lit`, then the rest `t`. */
  ghost predicate GapThen(s: string, x: string, lit: string, t: string) {
    NewlineFree(x) && s == x + lit + t
  }

  /** `s` is a gap, the first of `lits`, and a rest matching the others. */
  ghost predicate GapSplit(s: string, x: string, lits: seq<string>, t: string)
    requires lits != []
  {
    GapThen(s, x, lits[0], t) && MatchesGaps(t, lits[1..])
  }

  /** A successful search found a gap, the first literal, and a rest that
      matches the remaining literals. */
  lemma {:induction false} MatchesGapsSound(s: string, lits: seq<string>)
    requires lits != [] && MatchesGaps(s, lits)
    ensures exists x, t :: GapSplit(s, x, lits, t)
    decreases |s|
  {
    if lits[0] <= s && MatchesGaps(s[|lits[0]|..], lits[1..]) {
      GapAtStart(s, lits);
    } else {
      assert |s| > 0 && s[0] != '\n' && MatchesGaps(s[1..], lits);
      MatchesGapsSound(s[1..], lits);
      var x, t :| GapSplit(s[1..], x, lits, t);
      GapExtend(s, x, lits[0], t);
      assert GapSplit(s, [s[0]] + x, lits, t);
    }
  }

  /** A literal right at the start is found with an empty gap. */
  lemma GapAtStart(s: string, lits: seq<string>)
    requires lits != [] && lits[0] <= s && MatchesGaps(s[|lits[0]|..], lits[1..])
    ensures GapSplit(s, "", lits, s[|lits[0]|..])
  {
    assert s == "" + lits[0] + s[|lits[0]|..];
  }

  /** A newline-free character in front of a gap widens the gap. */
  lemma GapExtend(s: string, x: string, lit: string, t: string)
    requires |s| > 0 && s[0] != '\n' && GapThen(s[1..], x, lit, t)
    ensures GapThen(s, [s[0]] + x, lit, t)
  {
    assert s == [s[0]] + s[1..];
  }

  /** Any gap, literal and matching rest is found by the search. */
  lemma {:induction false} MatchesGapsComplete(s: string, lits: seq<string>, x: string, t: string)
    requires lits != [] && GapThen(s, x, lits[0], t) && MatchesGaps(t, lits[1..])
    ensures MatchesGaps(s, lits)
    decreases |x|
  {
    if x == "" {
      assert s == lits[0] + t;
      assert s[|lits[0]|..] == t;
    } else {
      assert s[1..] == x[1..] + lits[0] + t;
      MatchesGapsComplete(s[1..], lits, x[1..], t);
    }
  }

  /** The executable matcher decides exactly the decomposition. */
  lemma MatchesPatternCorrect(path: string, kind: string)
    ensures MatchesPattern(path, kind) <==> RegexMatch(path, kind)
  {
    var lits := ["/net/", "/" + kind];
    if MatchesPattern(path, kind) {
      var rest := path[9..];
      MatchesGapsSound(rest, lits);
      var a, t :| GapSplit(rest, a, lits, t);
      MatchesGapsSound(t, lits[1..]);
      var b, c :| GapSplit(t, b, lits[1..], c);
      assert rest == a + "/net/" + t;
      assert t == b + ("/" + kind) + c;
      assert path == "/libvirt/" + rest;
      assert Decomposes(path, kind, a, b, c);
    }
    if RegexMatch(path, kind) {
      var a, b, c :| Decomposes(path, kind, a, b, c);
      var t := b + ("/" + kind) + c;
      assert path == "/libvirt/" + (a + "/net/" + t);
      var rest := path[9..];
      assert rest == a + "/net/" + t;
      assert MatchesGaps(c, lits[1..][1..]);
      MatchesGapsComplete(t, lits[1..], b, c);
      MatchesGapsComplete(rest, lits, a, t);
    }
  }
}

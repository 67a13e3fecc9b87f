/**
 * The POSIX behaviour of Node's `path.basename` and `path.extname`, the two
 * library calls the upload filename callback is built from. Both look only at
 * the last segment of a path: trailing '/' characters are ignored and
 * everything up to the preceding '/' is dropped.
 */
module NodePath {
  import opened Wrappers

  /** `p` without its trailing run of '/'. */
  function TrimTrailingSlashes(p: string): (q: string)
    ensures q <= p
    ensures q == [] || q[|q| - 1] != '/'
    ensures forall i :: |q| <= i < |p| ==> p[i] == '/'
  {
    if |p| > 0 && p[|p| - 1] == '/' then TrimTrailingSlashes(p[..|p| - 1]) else p
  }

  /** The part of `q` after its last '/', or all of `q` when it has none. */
  function AfterLastSlash(q: string): (s: string)
    ensures |s| <= |q| && s == q[|q| - |s|..]
    ensures '/' !in s
    ensures |s| < |q| ==> q[|q| - |s| - 1] == '/'
  {
    if q == [] || q[|q| - 1] == '/' then [] else AfterLastSlash(q[..|q| - 1]) + [q[|q| - 1]]
  }

  /** The last segment of `p`: what `path.basename(p)` returns. */
  function Segment(p: string): (s: string)
    ensures '/' !in s
  {
    AfterLastSlash(TrimTrailingSlashes(p))
  }

  /** Index in `p` where `Segment(p)` begins. */
  function SegmentStart(p: string): (k: nat)
    ensures k + |Segment(p)| <= |p|
    ensures p[k..k + |Segment(p)|] == Segment(p)
    ensures forall i :: k + |Segment(p)| <= i < |p| ==> p[i] == '/'
    ensures k > 0 ==> p[k - 1] == '/'
    ensures Segment(p) == [] ==> forall i :: 0 <= i < |p| ==> p[i] == '/'
  {
    var q := TrimTrailingSlashes(p);
    assert p[..|q|] == q;
    var k := |q| - |Segment(p)|;
    assert p[k..k + |Segment(p)|] == q[k..];
    assert k > 0 ==> p[k - 1] == q[k - 1];
    k
  }

  /** Index of the last '.' in `s`, if any. */
  function LastDot(s: string): (d: Option<nat>)
    ensures d.None? <==> '.' !in s
    ensures d.Some? ==> d.value < |s| && s[d.value] == '.' && '.' !in s[d.value + 1..]
  {
    if s == [] then None
    else if s[|s| - 1] == '.' then Some(|s| - 1)
    else
      var d := LastDot(s[..|s| - 1]);
      assert s == s[..|s| - 1] + [s[|s| - 1]];
      if d.Some? then assert s[d.value + 1..] == s[..|s| - 1][d.value + 1..] + [s[|s| - 1]]; d
      else d
  }

  /**
   * The extension of one segment `s`: from its last '.' to its end; empty
   * when `s` has no '.', when its only '.' is its first character
   * (".profile") and when `s` is "..".
   */
  function SegmentExt(s: string): (e: string)
  {
    match LastDot(s)
    case None => ""
    case Some(d) => if d == 0 || s == ".." then "" else s[d..]
  }

  /** `path.extname(p)`: the extension of the last segment of `p`. */
  function ExtName(p: string): (e: string)
  {
    SegmentExt(Segment(p))
  }

  /**
   * `path.basename(p, suffix)`. A non-empty suffix that ends the last segment
   * and is shorter than it is removed. Node's loop also has two quirks kept
   * here: a suffix equal to the whole path gives "", and a suffix longer than
   * the segment that ends with the whole segment gives the segment together
   * with its trailing slashes.
   */
  function BaseName(p: string, suffix: string): (b: string)
  {
    if |suffix| == 0 || |suffix| > |p| then Segment(p)
    else if suffix == p then ""
    else
      var s := Segment(p);
      if |suffix| < |s| && s[|s| - |suffix|..] == suffix then s[..|s| - |suffix|]
      else if |suffix| > |s| && suffix[|suffix| - |s|..] == s then p[SegmentStart(p)..]
      else s
  }

  /**
   * The extension is a proper end piece of the segment: empty, or a '.'
   * followed by no further '.', with at least one character before it.
   */
  lemma SegmentExtShape(s: string)
    ensures var e := SegmentExt(s);
      && |e| <= |s| && s[|s| - |e|..] == e
      && (e != [] ==> |e| < |s| && e[0] == '.' && '.' !in e[1..])
  {
  }

  /**
   * The extension is empty exactly when the segment has no '.', has its
   * only '.' first, or is "..".
   */
  lemma SegmentExtEmpty(s: string)
    ensures SegmentExt(s) == [] <==> ('.' !in s || (s[0] == '.' && '.' !in s[1..]) || s == "..")
  {
    match LastDot(s)
    case None =>
    case Some(d) =>
      if d == 0 {
        assert s[1..] == s[d + 1..];
      } else if s != ".." {
        assert s[d] in s[1..];
      }
  }

  /** A suffix shorter than the last segment that ends it is cut off. */
  lemma BaseNameCutsSuffix(p: string, suffix: string)
    requires var s := Segment(p); 0 < |suffix| < |s| && s[|s| - |suffix|..] == suffix
    ensures BaseName(p, suffix) == Segment(p)[..|Segment(p)| - |suffix|]
  {
    var k := SegmentStart(p);
    assert |suffix| < |p|;
  }

  /**
   * Without a suffix, the base name is the last segment. `suffix` is a
   * parameter fixed to `[]` rather than the literal itself: with a literal
   * argument Dafny unfolds `BaseName` and `Segment` without bound, which
   * makes this one-line fact expensive to prove.
   */
  lemma BaseNameWithoutSuffix(p: string, suffix: string)
    requires suffix == []
    ensures BaseName(p, suffix) == Segment(p)
  {
  }

  /**
   * The filename callback splits the last segment in two:
   * `basename(p, extname(p)) + extname(p)` is exactly that segment, whatever
   * directories or trailing slashes `p` carries.
   */
  lemma BaseNamePlusExt(p: string)
    ensures BaseName(p, ExtName(p)) + ExtName(p) == Segment(p)
  {
    var s := Segment(p);
    var e := SegmentExt(s);
    assert ExtName(p) == e;
    SegmentExtShape(s);
    if e == [] {
      BaseNameWithoutSuffix(p, e);
      assert s + [] == s;
    } else {
      BaseNameCutsSuffix(p, e);
      SplitAt(s, |s| - |e|);
    }
  }

  lemma SplitAt(s: string, k: nat)
    requires k <= |s|
    ensures s[..k] + s[k..] == s
  {
  }

  /** Neither half of the split can hold a directory separator. */
  lemma BaseNameHasNoSlash(p: string)
    ensures '/' !in BaseName(p, ExtName(p))
    ensures '/' !in ExtName(p)
  {
    var b, e := BaseName(p, ExtName(p)), ExtName(p);
    BaseNamePlusExt(p);
    assert forall i :: 0 <= i < |b| ==> b[i] == (b + e)[i];
    assert forall i :: 0 <= i < |e| ==> e[i] == (b + e)[|b| + i];
  }
}

/** `path.extname` of Node's POSIX path module, on which the upload filter and file names depend. */
module NodePath {
  import opened Wrappers
  import opened Text

  /** `p` without the run of '/' at its end. */
  function TrimTrailingSlashes(p: string): (r: string)
    ensures r <= p
    ensures forall i :: |r| <= i < |p| ==> p[i] == '/'
    ensures |r| == 0 || r[|r| - 1] != '/'
  {
    if |p| > 0 && p[|p| - 1] == '/' then TrimTrailingSlashes(p[..|p| - 1]) else p
  }

  /** The index of the last `c` in `s`, if any. */
  function LastIndexOf(s: string, c: char): (r: Option<nat>)
    ensures r.None? ==> c !in s
    ensures r.Some? ==> r.value < |s| && s[r.value] == c && c !in s[r.value + 1..]
  {
    if |s| == 0 then None
    else if s[|s| - 1] == c then Some(|s| - 1)
    else LastIndexOf(s[..|s| - 1], c)
  }

  /** The last path component, trailing slashes ignored. */
  function BaseName(p: string): (b: string)
    ensures '/' !in b
    ensures EndsWith(TrimTrailingSlashes(p), b)
    ensures var t := TrimTrailingSlashes(p); |b| == |t| || t[|t| - |b| - 1] == '/'
  {
    var t := TrimTrailingSlashes(p);
    match LastIndexOf(t, '/')
    case None => t
    case Some(k) => t[k + 1..]
  }

  /**
   * `path.extname(p)`: from the last '.' of the last component to its end; empty
   * when that component has no '.', when its only leading character is the '.',
   * or when it is "..".
   */
  function ExtName(p: string): (ext: string)
    ensures ext == [] || ext[0] == '.'
    ensures forall i :: 0 < i < |ext| ==> ext[i] != '.' && ext[i] != '/'
    ensures EndsWith(TrimTrailingSlashes(p), ext)
    ensures EndsWith(BaseName(p), ext)
    ensures ext != [] <==> BaseName(p) != ".." && exists k :: 0 < k < |BaseName(p)| && BaseName(p)[k] == '.'
  {
    var b := BaseName(p);
    match LastIndexOf(b, '.')
    case None => ""
    case Some(k) =>
      if k == 0 || b == ".." then
        NoDotAfterLast(b, k);
        ""
      else
        ExtensionOfBase(TrimTrailingSlashes(p), b, k);
        b[k..]
  }

  /** The part of the base name from its last '.' is a '.'-led suffix of the path without '.' or '/' after it. */
  lemma ExtensionOfBase(t: string, b: string, k: nat)
    requires '/' !in b && EndsWith(t, b)
    requires k < |b| && b[k] == '.' && '.' !in b[k + 1..]
    ensures forall i :: 0 < i < |b[k..]| ==> b[k..][i] != '.' && b[k..][i] != '/'
    ensures EndsWith(t, b[k..]) && EndsWith(b, b[k..])
  {
    forall i | 0 < i < |b[k..]| ensures b[k..][i] != '.' && b[k..][i] != '/' {
      assert b[k..][i] == b[k + 1..][i - 1] == b[k + i];
    }
    assert t[|t| - |b[k..]|..] == t[|t| - |b|..][k..];
  }

  /** With its last '.' at index `k`, a string has a '.' after index 0 only if `k` is not 0. */
  lemma NoDotAfterLast(b: string, k: nat)
    requires k < |b| && '.' !in b[k + 1..]
    ensures (exists j :: 0 < j < |b| && b[j] == '.') ==> k > 0 || b[k] != '.'
  {
    if k == 0 && b[k] == '.' {
      forall j | 0 < j < |b| ensures b[j] != '.' {
        assert b[j] == b[1..][j - 1];
      }
    }
  }
}

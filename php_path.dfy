/**
 * PHP's `basename()` and the `filename` / `extension` entries of `pathinfo()`,
 * as the controller relies on them when it cleans a download file name. Only
 * '/' separates directories (the non-Windows behaviour), and every other
 * character belongs to a component, as PHP has it when the locale decodes the
 * name. '.' and '/' are ASCII, so splitting characters splits the UTF-8 bytes
 * at the same places.
 */
module PhpPath {
  import opened Wrappers

  /** The position of the last occurrence of `c` in `s`, if any (`memrchr`). */
  function LastIndexOf(s: string, c: char): (r: Option<nat>)
    ensures r.None? ==> forall i :: 0 <= i < |s| ==> s[i] != c
    ensures r.Some? ==> r.value < |s| && s[r.value] == c
    ensures r.Some? ==> forall i :: r.value < i < |s| ==> s[i] != c
  {
    if |s| == 0 then None
    else if s[|s| - 1] == c then Some(|s| - 1)
    else LastIndexOf(s[..|s| - 1], c)
  }

  /** `s` with every trailing '/' removed. */
  function TrimTrailingSlashes(s: string): (r: string)
    ensures r <= s
    ensures r == [] || r[|r| - 1] != '/'
    ensures forall i :: |r| <= i < |s| ==> s[i] == '/'
  {
    if |s| > 0 && s[|s| - 1] == '/' then TrimTrailingSlashes(s[..|s| - 1]) else s
  }

  /** `basename($path)`: the last '/'-separated component once trailing slashes are dropped. */
  function Basename(path: string): string
  {
    var t := TrimTrailingSlashes(path);
    match LastIndexOf(t, '/')
    case None => t
    case Some(i) => t[i + 1..]
  }

  /** The basename is the longest slash-free tail of the path with its trailing slashes trimmed. */
  lemma BasenameIsLastComponent(path: string)
    ensures var t := TrimTrailingSlashes(path);
      var b := Basename(path);
      && |b| <= |t|
      && b == t[|t| - |b|..]
      && (forall i :: 0 <= i < |b| ==> b[i] != '/')
      && (|b| < |t| ==> t[|t| - |b| - 1] == '/')
  {
    var t := TrimTrailingSlashes(path);
    match LastIndexOf(t, '/')
    case None =>
      assert Basename(path) == t[0..];
    case Some(i) =>
      var b := t[i + 1..];
      assert Basename(path) == b;
      assert |t| - |b| == i + 1;
      forall j | 0 <= j < |b| ensures b[j] != '/' {
        assert b[j] == t[i + 1 + j];
      }
  }

  /** Position `k` of `s` holds a '.' and no '.' follows it. */
  predicate IsLastDot(s: string, k: int)
  {
    0 <= k < |s| && s[k] == '.' && forall j :: k < j < |s| ==> s[j] != '.'
  }

  /** The `filename` entry of `pathinfo()` and its `extension` entry, absent when not set. */
  datatype PathParts = PathParts(filename: string, extension: Option<string>)

  /**
   * How `pathinfo()` splits a basename: at its last '.', the part before is
   * `filename` and the part after (possibly empty) is `extension`. With no '.'
   * there is no extension and `filename` is the whole basename.
   */
  function SplitExtension(b: string): (p: PathParts)
    ensures p.extension.None? <==> forall i :: 0 <= i < |b| ==> b[i] != '.'
    ensures p.extension.None? ==> p.filename == b
    ensures p.extension.Some? ==>
      && IsLastDot(b, |p.filename|)
      && p.filename == b[..|p.filename|]
      && p.extension.value == b[|p.filename| + 1..]
  {
    match LastIndexOf(b, '.')
    case None => PathParts(b, None)
    case Some(i) => PathParts(b[..i], Some(b[i + 1..]))
  }

  /** `pathinfo($path)`, its `filename` and `extension` entries: the basename, split. */
  function PathInfo(path: string): PathParts
  {
    SplitExtension(Basename(path))
  }

  /** Putting the parts back together with the '.' gives the basename again. */
  lemma SplitExtensionRejoins(b: string)
    ensures var p := SplitExtension(b);
      b == if p.extension.Some? then p.filename + "." + p.extension.value else p.filename
  {
    var p := SplitExtension(b);
    if p.extension.Some? {
      var k := |p.filename|;
      var e := p.extension.value;
      calc {
        p.filename + "." + e;
        b[..k] + [b[k]] + b[k + 1..];
        { assert b[..k] + [b[k]] == b[..k + 1]; }
        b[..k + 1] + b[k + 1..];
        b;
      }
    }
  }

  /** Whatever position holds the last '.' of the basename, the split is there. */
  lemma SplitsAtLastDot(b: string, k: int)
    requires IsLastDot(b, k)
    ensures SplitExtension(b) == PathParts(b[..k], Some(b[k + 1..]))
  {
    var i := LastIndexOf(b, '.');
    assert i.Some? by {
      assert b[k] == '.';
    }
    assert i.value == k by {
      assert IsLastDot(b, i.value);
    }
  }

  /** The same, for every last-dot position at once, with the '.' kept on the extension side. */
  lemma SplitAtEveryLastDot(b: string)
    ensures var p := SplitExtension(b);
      forall k :: IsLastDot(b, k) ==>
        p.extension.Some? && p.filename == b[..k] && "." + p.extension.value == b[k..]
  {
    forall k | IsLastDot(b, k)
      ensures SplitExtension(b).extension.Some? && SplitExtension(b).filename == b[..k]
      ensures "." + SplitExtension(b).extension.value == b[k..]
    {
      SplitsAtLastDot(b, k);
      assert b[k..] == [b[k]] + b[k + 1..];
    }
  }

  /** A name without any '/' is its own basename. */
  lemma BasenameOfPlainName(name: string)
    requires forall i :: 0 <= i < |name| ==> name[i] != '/'
    ensures Basename(name) == name
  {
    BasenameIsLastComponent(name);
  }
}

/**
 * The JavaScript string operations the gallery relies on, on `string` = `seq<char>`:
 * `split('/').pop()`, `includes`, `replace` with a string pattern and with the
 * regular expressions `/\.[^.]+$/`, `/\/$/`, `/^\//`, the case-insensitive extension
 * tests of the thumbnail script, and Node's `path.parse(name).name`.
 */
module Strings {

  /** Index of the last occurrence of `c` in `s`, or -1 when `c` does not occur. */
  function LastIndexOf(s: string, c: char): (r: int)
    ensures -1 <= r < |s|
    ensures r >= 0 ==> s[r] == c
    ensures forall k :: r < k < |s| ==> s[k] != c
  {
    if s == [] then -1
    else if s[|s| - 1] == c then |s| - 1
    else LastIndexOf(s[..|s| - 1], c)
  }

  /** `s.split('/').pop()`: the text after the last '/', or all of `s` when it has none. */
  function LastSegment(s: string): (r: string)
    ensures '/' !in r
    ensures |r| <= |s| && r == s[|s| - |r|..]
    ensures |r| < |s| ==> s[|s| - |r| - 1] == '/'
  {
    s[LastIndexOf(s, '/') + 1..]
  }

  /** The last segment of a path that ends in "/" + `name` is `name`. */
  lemma LastSegmentOfJoin(prefix: string, name: string)
    requires '/' !in name
    ensures LastSegment(prefix + "/" + name) == name
  {
    var s := prefix + "/" + name;
    assert s[|prefix|] == '/';
    assert forall k :: |prefix| < k < |s| ==> s[k] == name[k - |prefix| - 1];
    assert LastIndexOf(s, '/') == |prefix|;
    assert s[|prefix| + 1..] == name;
  }

  /** `pat` occurs in `s` starting at index `k`. */
  predicate OccursAt(s: string, pat: string, k: int)
  {
    0 <= k && k + |pat| <= |s| && s[k..k + |pat|] == pat
  }

  /** First index at or after `from` where `pat` occurs in `s`, or -1. */
  function IndexOfFrom(s: string, pat: string, from: nat): (r: int)
    requires from <= |s|
    ensures r == -1 || (from <= r && OccursAt(s, pat, r))
    ensures forall k :: from <= k && (r == -1 || k < r) ==> !OccursAt(s, pat, k)
    decreases |s| - from
  {
    if from + |pat| > |s| then -1
    else if s[from..from + |pat|] == pat then from
    else IndexOfFrom(s, pat, from + 1)
  }

  /** `s.indexOf(pat)`: the first occurrence of `pat` in `s`, or -1. */
  function IndexOf(s: string, pat: string): (r: int)
    ensures r == -1 || OccursAt(s, pat, r)
    ensures forall k :: 0 <= k && (r == -1 || k < r) ==> !OccursAt(s, pat, k)
  {
    IndexOfFrom(s, pat, 0)
  }

  /** `s.includes(pat)`. */
  predicate Contains(s: string, pat: string)
  {
    IndexOf(s, pat) >= 0
  }

  lemma ContainsAt(s: string, pat: string, k: int)
    requires OccursAt(s, pat, k)
    ensures Contains(s, pat)
  {
  }

  /** `s.replace(pat, '')` for a string pattern: only the first occurrence is removed. */
  function RemoveFirst(s: string, pat: string): (r: string)
    ensures !Contains(s, pat) ==> r == s
    ensures Contains(s, pat) ==>
      var i := IndexOf(s, pat); |r| == |s| - |pat| && s == r[..i] + pat + r[i..]
  {
    var i := IndexOf(s, pat);
    if i < 0 then s
    else
      var r := s[..i] + s[i + |pat|..];
      assert r[..i] == s[..i] && r[i..] == s[i + |pat|..];
      assert s == s[..i] + s[i..i + |pat|] + s[i + |pat|..];
      r
  }

  /** Removing a prefix that `s` starts with leaves the rest. */
  lemma {:induction false} RemoveFirstOfPrefix(pat: string, rest: string)
    ensures RemoveFirst(pat + rest, pat) == rest
  {
    var s := pat + rest;
    assert s[0..|pat|] == pat;
    assert OccursAt(s, pat, 0);
    assert IndexOf(s, pat) == 0;
    assert s[|pat|..] == rest;
  }

  /** `s.replace(/\/$/, '')`: one trailing '/' removed. */
  function TrimTrailingSlash(s: string): (r: string)
    ensures s == r || s == r + "/"
    ensures (s != [] && s[|s| - 1] == '/') <==> s == r + "/"
  {
    if s != [] && s[|s| - 1] == '/' then s[..|s| - 1] else s
  }

  /** `s.replace(/^\//, '')`: one leading '/' removed. */
  function TrimLeadingSlash(s: string): (r: string)
    ensures s == r || s == "/" + r
    ensures (s != [] && s[0] == '/') <==> s == "/" + r
  {
    if s != [] && s[0] == '/' then s[1..] else s
  }

  /**
   * The regular expression `/\.[^.]+$/` matches `s` at `p`: a '.' at `p` followed by
   * one or more characters, none of them '.', up to the end of `s`.
   */
  predicate ExtensionAt(s: string, p: int)
  {
    0 <= p < |s| - 1 && s[p] == '.' && forall k :: p < k < |s| ==> s[k] != '.'
  }

  /** A name `stem.ext` whose extension has no '.' has its extension replaced, whatever `stem` is. */
  lemma ReplaceExtensionOf(stem: string, ext: string, replacement: string)
    requires ext != [] && '.' !in ext
    ensures ReplaceExtension(stem + "." + ext, replacement) == stem + replacement
  {
    var s := stem + "." + ext;
    assert forall k :: |stem| < k < |s| ==> s[k] == ext[k - |stem| - 1];
    assert ExtensionAt(s, |stem|);
    assert s[..|stem|] == stem;
  }

  /** `s.replace(/\.[^.]+$/, replacement)`: the last extension, if any, replaced. */
  function ReplaceExtension(s: string, replacement: string): (r: string)
    ensures forall p :: ExtensionAt(s, p) ==> r == s[..p] + replacement
    ensures (forall p :: 0 <= p < |s| ==> !ExtensionAt(s, p)) ==> r == s
  {
    var p := LastIndexOf(s, '.');
    if 0 <= p < |s| - 1 then
      assert ExtensionAt(s, p);
      s[..p] + replacement
    else
      s
  }

  /** The last dot of a name with an extension is the extension's dot. */
  lemma ExtensionAtIsLastDot(s: string, p: int)
    requires ExtensionAt(s, p)
    ensures LastIndexOf(s, '.') == p
  {
    var r := LastIndexOf(s, '.');
    assert !(r < p) && !(r > p);
  }

  /** A name that ends in `.ext`, for a non-empty dot-free `ext`, has its extension at that dot. */
  lemma EndsWithExtensionAt(s: string, ext: string)
    requires EndsWithExtension(s, ext) && ext != [] && '.' !in ext
    ensures ExtensionAt(s, |s| - |ext| - 1)
    ensures LastIndexOf(s, '.') == |s| - |ext| - 1
  {
    var tail := s[|s| - |ext|..];
    forall q | |s| - |ext| <= q < |s| ensures s[q] != '.' {
      assert s[q] == tail[q - |s| + |ext|];
      assert ToLower(s[q]) == ext[q - |s| + |ext|];
    }
    ExtensionAtIsLastDot(s, |s| - |ext| - 1);
  }

  /** ASCII lower case, which is what a JavaScript `/i` regular expression folds ASCII letters to. */
  function ToLower(c: char): (d: char)
    ensures 'A' <= c <= 'Z' ==> d as int == c as int + 32
    ensures !('A' <= c <= 'Z') ==> d == c
  {
    if 'A' <= c <= 'Z' then (c as int + 32) as char else c
  }

  function LowerString(s: string): (r: string)
    ensures |r| == |s|
    ensures forall k :: 0 <= k < |s| ==> r[k] == ToLower(s[k])
  {
    seq(|s|, k requires 0 <= k < |s| => ToLower(s[k]))
  }

  lemma {:induction false} LowerStringIdempotent(s: string)
    ensures LowerString(LowerString(s)) == LowerString(s)
  {
    var l := LowerString(s);
    forall k | 0 <= k < |s| ensures LowerString(l)[k] == l[k] {
      assert ToLower(ToLower(s[k])) == ToLower(s[k]);
    }
  }

  /**
   * `s` ends with '.' followed by `ext`, the letters compared case-insensitively: the
   * alternative `ext` of a regular expression `/\.(…|ext|…)$/i` matches `s`.
   */
  predicate EndsWithExtension(s: string, ext: string)
  {
    |s| > |ext| && s[|s| - |ext| - 1] == '.' && LowerString(s[|s| - |ext|..]) == ext
  }

  /** The extension test ignores case: lowering `s` first changes nothing. */
  lemma {:induction false} EndsWithExtensionIgnoresCase(s: string, ext: string)
    ensures EndsWithExtension(s, ext) <==> EndsWithExtension(LowerString(s), ext)
  {
    var l := LowerString(s);
    if |s| > |ext| {
      var n := |s| - |ext|;
      assert l[n - 1] == ToLower(s[n - 1]);
      assert (s[n - 1] == '.') <==> (l[n - 1] == '.');
      assert l[n..] == LowerString(s[n..]);
      LowerStringIdempotent(s[n..]);
    }
  }

  /** The last '.' of `s` is at `p`. */
  predicate LastDotAt(s: string, p: int)
  {
    0 <= p < |s| && s[p] == '.' && forall k :: p < k < |s| ==> s[k] != '.'
  }

  /**
   * Node's `path.parse(name).name` for a single path segment: `name` without its
   * extension. A name with no '.', whose only '.' is the first character, or that is
   * exactly ".." has no extension and is returned whole.
   */
  function ParseName(name: string): (r: string)
    requires '/' !in name
    ensures (forall k :: 0 < k < |name| ==> name[k] != '.') ==> r == name
    ensures name == ".." ==> r == name
    ensures forall p :: LastDotAt(name, p) && p > 0 && name != ".." ==> r == name[..p]
  {
    var p := LastIndexOf(name, '.');
    if p <= 0 || name == ".." then name else name[..p]
  }
}

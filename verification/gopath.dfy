/**
 The two Go path functions the program relies on: filepath.Ext (on a
 slash-separated system) and path.Base.
 */
module GoPath {
  import opened Wrappers
  import opened Text

  /** Every '.' in `s[..i]` is followed by a '/' before index `i`. */
  predicate NoDotBefore(s: string, i: nat)
    requires i <= |s|
  {
    forall k :: 0 <= k < i && s[k] == '.' ==> '/' in s[k + 1..i]
  }

  /** No '.' lies in the last slash-separated element of `s`. */
  predicate NoDotInLastElement(s: string) {
    NoDotBefore(s, |s|)
  }

  /** A '/' at index `i - 1` ends every element that starts before it. */
  lemma NoDotBeforeSlash(s: string, i: nat)
    requires 0 < i <= |s| && s[i - 1] == '/'
    ensures NoDotBefore(s, i)
  {
    forall k | 0 <= k < i && s[k] == '.'
      ensures '/' in s[k + 1..i]
    {
      assert s[k + 1..i][i - 1 - (k + 1)] == '/';
    }
  }

  /** A '.' at index `i - 1` lies in the element that ends at `i`. */
  lemma DotBeforeEnd(s: string, i: nat)
    requires 0 < i <= |s| && s[i - 1] == '.'
    ensures !NoDotBefore(s, i)
  {
    assert s[i - 1] == '.' && '/' !in s[i..i];
  }

  /** A character that is neither '.' nor '/' does not change the answer. */
  lemma NoDotBeforeOther(s: string, i: nat)
    requires 0 < i <= |s| && s[i - 1] != '.' && s[i - 1] != '/'
    ensures NoDotBefore(s, i) <==> NoDotBefore(s, i - 1)
  {
    forall k | 0 <= k < i - 1 && s[k] == '.'
      ensures '/' in s[k + 1..i] <==> '/' in s[k + 1..i - 1]
    {
      assert s[k + 1..i] == s[k + 1..i - 1] + [s[i - 1]];
    }
  }

  /**
   Scan `s` backwards from index `i - 1` to the first '.' or '/'; the part
   already scanned, `s[i..]`, holds neither.
   */
  function ExtScan(s: string, i: nat): (r: string)
    requires i <= |s|
    requires forall k :: i <= k < |s| ==> s[k] != '.' && s[k] != '/'
    ensures r == "" || (r[0] == '.' && HasSuffix(s, r))
    ensures forall k :: 1 <= k < |r| ==> r[k] != '.' && r[k] != '/'
    ensures r == "" <==> NoDotBefore(s, i)
  {
    if i == 0 then ""
    else if s[i - 1] == '/' then NoDotBeforeSlash(s, i); ""
    else if s[i - 1] == '.' then DotBeforeEnd(s, i); s[i - 1..]
    else NoDotBeforeOther(s, i); ExtScan(s, i - 1)
  }

  /**
   filepath.Ext: the suffix of `name` that starts at its last '.', provided
   no '/' follows that '.'; the empty string otherwise.
   */
  function Ext(name: string): (r: string)
    ensures r == "" || (r[0] == '.' && HasSuffix(name, r))
    ensures forall k :: 1 <= k < |r| ==> r[k] != '.' && r[k] != '/'
    ensures r == "" <==> NoDotInLastElement(name)
  {
    ExtScan(name, |name|)
  }

  /** Go's loop in path.Base that strips every trailing '/'. */
  function StripTrailingSlashes(p: string): (r: string)
    ensures r <= p
    ensures r == "" || r[|r| - 1] != '/'
    ensures forall k :: |r| <= k < |p| ==> p[k] == '/'
  {
    if |p| > 0 && p[|p| - 1] == '/' then StripTrailingSlashes(p[..|p| - 1]) else p
  }

  /** strings.LastIndex(s, "/") for a one-character pattern. */
  function LastSlash(s: string): (r: Option<nat>)
    ensures r.Some? ==> r.value < |s| && s[r.value] == '/' && '/' !in s[r.value + 1..]
    ensures r.None? ==> '/' !in s
  {
    if |s| == 0 then None
    else if s[|s| - 1] == '/' then Some(|s| - 1)
    else
      var r := LastSlash(s[..|s| - 1]);
      assert s == s[..|s| - 1] + [s[|s| - 1]];
      r
  }

  /**
   path.Base: the last element of a slash-separated path after trailing
   slashes are removed; "." for the empty path and "/" for a path of slashes.
   */
  function Base(p: string): (r: string)
    ensures r != ""
    ensures r == "/" || '/' !in r
    ensures p == "" ==> r == "."
  {
    if p == "" then "."
    else
      var q := StripTrailingSlashes(p);
      var last := match LastSlash(q)
                  case Some(i) => q[i + 1..]
                  case None => q;
      if last == "" then "/" else last
  }

  /** The base of `dir + "/" + name` is `name` for any directory and any non-empty `name` without a slash. */
  lemma BaseOfJoin(dir: string, name: string)
    requires name != "" && '/' !in name
    ensures Base(dir + "/" + name) == name
  {
    var p := dir + "/" + name;
    assert StripTrailingSlashes(p) == p;
    assert p[|dir|] == '/';
    var i := LastSlash(p).value;
    assert i == |dir|;
    assert p[i + 1..] == name;
  }
}

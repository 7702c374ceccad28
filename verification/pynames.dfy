/**
 The Python program's split of a listed file name into a name and a
 lower-cased extension, with the parts of Python's str it uses:
 split on one character, join, and lower (ASCII letters only).
 */
module PyNames {

  /** str.split(c): the pieces between occurrences of `c`; there is always at least one. */
  function Split(s: string, c: char): (r: seq<string>)
    ensures |r| >= 1
    ensures forall k :: 0 <= k < |r| ==> c !in r[k]
  {
    if |s| == 0 then [""]
    else
      var rest := Split(s[1..], c);
      if s[0] == c then [""] + rest
      else [[s[0]] + rest[0]] + rest[1..]
  }

  /** str.join: the parts with `sep` between neighbours. */
  function Join(sep: string, parts: seq<string>): string {
    if |parts| == 0 then ""
    else if |parts| == 1 then parts[0]
    else parts[0] + sep + Join(sep, parts[1..])
  }

  /** Joining the pieces of a split with the separator gives the string back. */
  lemma {:induction false} JoinSplit(s: string, c: char)
    ensures Join([c], Split(s, c)) == s
  {
    if |s| > 0 {
      var rest := Split(s[1..], c);
      JoinSplit(s[1..], c);
      if s[0] != c {
        assert s == [s[0]] + s[1..];
        if |rest| > 1 {
          assert Split(s, c)[1..] == rest[1..];
        }
      }
    }
  }

  /** A split yields a single piece exactly when the separator does not occur. */
  lemma {:induction false} SplitSingle(s: string, c: char)
    ensures |Split(s, c)| == 1 <==> c !in s
  {
    if |s| > 0 {
      SplitSingle(s[1..], c);
      assert s == [s[0]] + s[1..];
    }
  }

  /** Joining all but the last part, the separator and the last part is joining all of them. */
  lemma {:induction false} JoinSnoc(sep: string, parts: seq<string>)
    requires |parts| >= 2
    ensures Join(sep, parts[..|parts| - 1]) + sep + parts[|parts| - 1] == Join(sep, parts)
    decreases |parts|
  {
    if |parts| > 2 {
      JoinSnoc(sep, parts[1..]);
      assert parts[1..][..|parts| - 2] == parts[..|parts| - 1][1..];
    }
  }

  function LowerChar(ch: char): char {
    if 'A' <= ch <= 'Z' then (ch as int - 'A' as int + 'a' as int) as char else ch
  }

  /** str.lower, for ASCII letters. */
  function Lower(s: string): (r: string)
    ensures |r| == |s|
    ensures forall k :: 0 <= k < |s| ==> r[k] == LowerChar(s[k])
  {
    if |s| == 0 then "" else [LowerChar(s[0])] + Lower(s[1..])
  }

  /** Lower-casing never introduces a '.'. */
  lemma LowerKeepsNoDot(x: string)
    requires '.' !in x
    ensures '.' !in Lower(x)
  {
    forall k | 0 <= k < |x|
      ensures Lower(x)[k] != '.'
    {
      assert x[k] != '.';
    }
  }

  /** One entry of the traversal: the directory it was listed in, its name and its extension. */
  datatype File = File(dir: string, name: string, ext: string)

  /**
   The name/extension split of get_files: split on '.', the extension is the
   last piece lower-cased (empty when there is no '.') and the name is the
   remaining pieces joined by '.'.
   */
  function SplitName(entry: string): (nameExt: (string, string)) {
    var t := Split(entry, '.');
    if |t| == 1 then (t[0], "")
    else (Join(".", t[..|t| - 1]), Lower(t[|t| - 1]))
  }

  /** Without a '.', the whole entry is the name and the extension is empty. */
  lemma SplitNameWithoutDot(entry: string)
    requires '.' !in entry
    ensures SplitName(entry) == (entry, "")
  {
    SplitSingle(entry, '.');
    JoinSplit(entry, '.');
  }

  /**
   With a '.', the name, a '.' and the last piece give the entry back; the
   extension is that last piece lower-cased and holds no '.'.
   */
  lemma SplitNameWithDot(entry: string)
    requires '.' in entry
    ensures var t := Split(entry, '.');
            && SplitName(entry).0 + "." + t[|t| - 1] == entry
            && SplitName(entry).1 == Lower(t[|t| - 1])
            && '.' !in SplitName(entry).1
  {
    var t := Split(entry, '.');
    SplitSingle(entry, '.');
    var last := t[|t| - 1];
    var front := t[..|t| - 1];
    assert SplitName(entry) == (Join(".", front), Lower(last));
    JoinSplit(entry, '.');
    JoinSnoc(".", t);
    LowerKeepsNoDot(last);
  }

  /** A string without the separator splits into itself alone. */
  lemma {:induction false} SplitWithoutSep(s: string, c: char)
    requires c !in s
    ensures Split(s, c) == [s]
  {
    if |s| > 0 {
      SplitWithoutSep(s[1..], c);
      assert s == [s[0]] + s[1..];
    }
  }

  /** Splitting at a first separator: the part before it, then the split of the rest. */
  lemma {:induction false} SplitAtFirst(a: string, c: char, b: string)
    requires c !in a
    ensures Split(a + [c] + b, c) == [a] + Split(b, c)
  {
    if |a| > 0 {
      SplitAtFirst(a[1..], c, b);
      assert (a + [c] + b)[1..] == a[1..] + [c] + b;
      assert a == [a[0]] + a[1..];
    } else {
      assert (a + [c] + b)[1..] == b;
    }
  }

  /** A stem and an extension, neither holding '.', joined by '.' split back into the stem and the lower-cased extension. */
  lemma StemAndExtension(stem: string, ext: string)
    requires '.' !in stem && '.' !in ext
    ensures SplitName(stem + "." + ext) == (stem, Lower(ext))
  {
    SplitAtFirst(stem, '.', ext);
    SplitWithoutSep(ext, '.');
    assert Split(stem + "." + ext, '.') == [stem, ext];
    assert [stem, ext][..1] == [stem];
  }
}

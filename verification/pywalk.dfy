/**
 The Python traversal `get_files` over an abstract remote tree. A listing
 is what client.list returns for a directory: a raised exception or a
 sequence of names, whose first element is the directory itself; a name
 ending in '/' is a subdirectory, and `below` is what listing it returns.
 */
module PyWalk {
  import opened Wrappers
  import opened Text
  import opened PyNames

  datatype Item = Item(name: string, below: Listing)

  datatype Listing =
    | Raised
    | Listed(items: seq<Item>)

  /** What the generator produced before it finished or raised. */
  datatype Gen = Gen(files: seq<File>, raised: bool)

  predicate IsDirName(name: string) {
    HasSuffix(name, "/")
  }

  /** The record yielded for a file entry listed in `dir`. */
  function MakeFile(dir: string, entry: string): (f: File)
    ensures f.dir == dir && '.' !in f.ext
    ensures '.' !in entry ==> f == File(dir, entry, "")
  {
    assert '.' !in SplitName(entry).1 && ('.' !in entry ==> SplitName(entry) == (entry, "")) by {
      if '.' in entry {
        SplitNameWithDot(entry);
      } else {
        SplitNameWithoutDot(entry);
      }
    }
    var (name, ext) := SplitName(entry);
    File(dir, name, ext)
  }

  /**
   get_files(dir): skip the first listed name; recurse into names ending in
   '/' with `dir + name`; yield every other name split into name and
   extension. An exception from a listing ends the generator.
   */
  function GetFiles(dir: string, l: Listing): (g: Gen)
    ensures forall k :: 0 <= k < |g.files| ==> dir <= g.files[k].dir && '.' !in g.files[k].ext
    decreases l, 1
  {
    match l
    case Raised => Gen([], true)
    case Listed(items) =>
      if |items| == 0 then Gen([], false) else GetFrom(dir, l, 1)
  }

  function GetFrom(dir: string, l: Listing, i: nat): (g: Gen)
    requires l.Listed? && 1 <= i <= |l.items|
    ensures forall k :: 0 <= k < |g.files| ==> dir <= g.files[k].dir && '.' !in g.files[k].ext
    decreases l, 0, |l.items| - i
  {
    if i == |l.items| then Gen([], false)
    else
      var item := l.items[i];
      if IsDirName(item.name) then
        var sub := GetFiles(dir + item.name, item.below);
        if sub.raised then sub
        else
          var rest := GetFrom(dir, l, i + 1);
          Gen(sub.files + rest.files, rest.raised)
      else
        var rest := GetFrom(dir, l, i + 1);
        Gen([MakeFile(dir, item.name)] + rest.files, rest.raised)
  }

  /**
   Follow `addr`, one index into the listed names per level, from `dir`;
   index 0 (the directory itself) is never followed, and every index but
   the last must name a subdirectory. The result is the directory the
   entry was listed in and the entry.
   */
  ghost function EntryAt(dir: string, l: Listing, addr: seq<nat>): Option<(string, Item)>
    decreases l
  {
    if |addr| == 0 then None
    else match l
      case Raised => None
      case Listed(items) =>
        var i := addr[0];
        if !(1 <= i < |items|) then None
        else if |addr| == 1 then Some((dir, items[i]))
        else if IsDirName(items[i].name) then EntryAt(dir + items[i].name, items[i].below, addr[1..])
        else None
  }

  /** The address `addr` reaches a file entry, and `f` is the record made for it. */
  ghost predicate YieldsAt(dir: string, l: Listing, addr: seq<nat>, f: File) {
    match EntryAt(dir, l, addr)
    case None => false
    case Some((d, item)) => !IsDirName(item.name) && f == MakeFile(d, item.name)
  }

  ghost predicate IsFileAddr(dir: string, l: Listing, addr: seq<nat>) {
    match EntryAt(dir, l, addr)
    case None => false
    case Some((_, item)) => !IsDirName(item.name)
  }

  /** Strict lexicographic order on addresses; an address is never below its own prefix. */
  predicate LexLess(a: seq<nat>, b: seq<nat>) {
    |a| > 0 && |b| > 0 && (a[0] < b[0] || (a[0] == b[0] && LexLess(a[1..], b[1..])))
  }

  ghost predicate StrictlyOrdered(ps: seq<seq<nat>>) {
    forall k1, k2 :: 0 <= k1 < k2 < |ps| ==> LexLess(ps[k1], ps[k2])
  }

  function Prefixed(i: nat, ps: seq<seq<nat>>): (r: seq<seq<nat>>)
    ensures |r| == |ps|
    ensures forall k :: 0 <= k < |ps| ==> r[k] == [i] + ps[k]
  {
    seq(|ps|, k requires 0 <= k < |ps| => [i] + ps[k])
  }

  /**
   The addresses of the entries get_files yields, in the order it yields
   them; used only to state which entries are yielded and in what order.
   */
  ghost function Positions(dir: string, l: Listing): seq<seq<nat>>
    decreases l, 1
  {
    match l
    case Raised => []
    case Listed(items) =>
      if |items| == 0 then [] else PositionsFrom(dir, l, 1)
  }

  ghost function PositionsFrom(dir: string, l: Listing, i: nat): seq<seq<nat>>
    requires l.Listed? && 1 <= i <= |l.items|
    decreases l, 0, |l.items| - i
  {
    if i == |l.items| then []
    else
      var item := l.items[i];
      if IsDirName(item.name) then
        var sub := Prefixed(i, Positions(dir + item.name, item.below));
        if GetFiles(dir + item.name, item.below).raised then sub
        else sub + PositionsFrom(dir, l, i + 1)
      else
        [[i]] + PositionsFrom(dir, l, i + 1)
  }

  /** Stepping into subdirectory `i` of `l` and then following `a` is following `[i] + a` from `l`. */
  lemma EntryAtStep(dir: string, l: Listing, i: nat, a: seq<nat>)
    requires l.Listed? && 1 <= i < |l.items| && IsDirName(l.items[i].name) && |a| > 0
    ensures EntryAt(dir, l, [i] + a) == EntryAt(dir + l.items[i].name, l.items[i].below, a)
  {
  }

  /** Record `fs[k]` is made from the file entry at address `ps[k]`, for every k. */
  ghost predicate Aligned(dir: string, l: Listing, ps: seq<seq<nat>>, fs: seq<File>) {
    && |ps| == |fs|
    && forall k :: 0 <= k < |ps| ==> YieldsAt(dir, l, ps[k], fs[k])
  }

  lemma AlignedConcat(dir: string, l: Listing, p1: seq<seq<nat>>, f1: seq<File>, p2: seq<seq<nat>>, f2: seq<File>)
    requires Aligned(dir, l, p1, f1) && Aligned(dir, l, p2, f2)
    ensures Aligned(dir, l, p1 + p2, f1 + f2)
  {
    forall k | 0 <= k < |p1 + p2|
      ensures YieldsAt(dir, l, (p1 + p2)[k], (f1 + f2)[k])
    {
      if k >= |p1| {
        assert (p1 + p2)[k] == p2[k - |p1|] && (f1 + f2)[k] == f2[k - |p1|];
      } else {
        assert (p1 + p2)[k] == p1[k] && (f1 + f2)[k] == f1[k];
      }
    }
  }

  /** Records aligned inside subdirectory `i` stay aligned once their addresses are prefixed with `i`. */
  lemma AlignedLift(dir: string, l: Listing, i: nat, subP: seq<seq<nat>>, subF: seq<File>)
    requires l.Listed? && 1 <= i < |l.items| && IsDirName(l.items[i].name)
    requires Aligned(dir + l.items[i].name, l.items[i].below, subP, subF)
    ensures Aligned(dir, l, Prefixed(i, subP), subF)
  {
    forall k | 0 <= k < |subP|
      ensures YieldsAt(dir, l, [i] + subP[k], subF[k])
    {
      EntryAtStep(dir, l, i, subP[k]);
    }
  }

  /** Each yielded record is made from the file entry at the matching position. */
  lemma {:induction false} PositionsAligned(dir: string, l: Listing)
    ensures Aligned(dir, l, Positions(dir, l), GetFiles(dir, l).files)
    decreases l, 1
  {
    if l.Listed? && |l.items| > 0 {
      PositionsFromAligned(dir, l, 1);
    }
  }

  lemma {:induction false} PositionsFromAligned(dir: string, l: Listing, i: nat)
    requires l.Listed? && 1 <= i <= |l.items|
    ensures Aligned(dir, l, PositionsFrom(dir, l, i), GetFrom(dir, l, i).files)
    decreases l, 0, |l.items| - i
  {
    if i < |l.items| {
      var item := l.items[i];
      if IsDirName(item.name) {
        var sd := dir + item.name;
        PositionsAligned(sd, item.below);
        var subP, subF := Positions(sd, item.below), GetFiles(sd, item.below).files;
        AlignedLift(dir, l, i, subP, subF);
        if !GetFiles(sd, item.below).raised {
          PositionsFromAligned(dir, l, i + 1);
          AlignedConcat(dir, l, Prefixed(i, subP), subF, PositionsFrom(dir, l, i + 1), GetFrom(dir, l, i + 1).files);
        }
      } else {
        PositionsFromAligned(dir, l, i + 1);
        assert EntryAt(dir, l, [i]) == Some((dir, item));
        assert Aligned(dir, l, [[i]], [MakeFile(dir, item.name)]);
        AlignedConcat(dir, l, [[i]], [MakeFile(dir, item.name)], PositionsFrom(dir, l, i + 1), GetFrom(dir, l, i + 1).files);
      }
    }
  }

  /** Every address in `ps` starts at index `i` or later. */
  predicate StartAtLeast(ps: seq<seq<nat>>, i: nat) {
    forall k :: 0 <= k < |ps| ==> |ps[k]| > 0 && ps[k][0] >= i
  }

  /** Prefixing every address with the same index keeps their order. */
  lemma PrefixedOrdered(i: nat, ps: seq<seq<nat>>)
    requires StrictlyOrdered(ps)
    ensures StrictlyOrdered(Prefixed(i, ps))
  {
    var head := Prefixed(i, ps);
    forall k1, k2 | 0 <= k1 < k2 < |head|
      ensures LexLess(head[k1], head[k2])
    {
      assert head[k1][1..] == ps[k1] && head[k2][1..] == ps[k2];
    }
  }

  /** Addresses under index `i` followed by addresses under later indices stay ordered. */
  lemma OrderedConcat(i: nat, head: seq<seq<nat>>, rest: seq<seq<nat>>)
    requires StrictlyOrdered(head) && StrictlyOrdered(rest)
    requires forall k :: 0 <= k < |head| ==> |head[k]| > 0 && head[k][0] == i
    requires StartAtLeast(rest, i + 1)
    ensures StrictlyOrdered(head + rest)
  {
    forall k1, k2 | 0 <= k1 < k2 < |head + rest|
      ensures LexLess((head + rest)[k1], (head + rest)[k2])
    {
      if k2 >= |head| && k1 < |head| {
        assert (head + rest)[k1] == head[k1] && (head + rest)[k2] == rest[k2 - |head|];
      } else if k1 >= |head| {
        assert (head + rest)[k1] == rest[k1 - |head|] && (head + rest)[k2] == rest[k2 - |head|];
      } else {
        assert (head + rest)[k1] == head[k1] && (head + rest)[k2] == head[k2];
      }
    }
  }

  /**
   The yielded entries come in strictly increasing address order: listing
   order within a directory, a subdirectory's entries in its place (pre-order).
   Distinct positions also mean no entry is yielded twice.
   */
  lemma {:induction false} PositionsOrdered(dir: string, l: Listing)
    ensures StrictlyOrdered(Positions(dir, l))
    decreases l, 1
  {
    if l.Listed? && |l.items| > 0 {
      PositionsFromOrdered(dir, l, 1);
    }
  }

  lemma {:induction false} PositionsFromOrdered(dir: string, l: Listing, i: nat)
    requires l.Listed? && 1 <= i <= |l.items|
    ensures StrictlyOrdered(PositionsFrom(dir, l, i))
    ensures StartAtLeast(PositionsFrom(dir, l, i), i)
    decreases l, 0, |l.items| - i
  {
    if i < |l.items| {
      var item := l.items[i];
      PositionsFromOrdered(dir, l, i + 1);
      var rest := PositionsFrom(dir, l, i + 1);
      if IsDirName(item.name) {
        var sd := dir + item.name;
        PositionsOrdered(sd, item.below);
        var head := Prefixed(i, Positions(sd, item.below));
        PrefixedOrdered(i, Positions(sd, item.below));
        if !GetFiles(sd, item.below).raised {
          OrderedConcat(i, head, rest);
        }
      } else {
        OrderedConcat(i, [[i]], rest);
      }
    }
  }

  /**
   When no listing raised, every file entry below the first listed name of
   every reached directory is yielded.
   */
  lemma {:induction false} PositionsComplete(dir: string, l: Listing, addr: seq<nat>)
    requires !GetFiles(dir, l).raised
    requires IsFileAddr(dir, l, addr)
    ensures addr in Positions(dir, l)
    decreases l, 1
  {
    PositionsFromComplete(dir, l, 1, addr);
  }

  lemma {:induction false} PositionsFromComplete(dir: string, l: Listing, i: nat, addr: seq<nat>)
    requires l.Listed? && 1 <= i <= |l.items|
    requires !GetFrom(dir, l, i).raised
    requires IsFileAddr(dir, l, addr) && addr[0] >= i
    ensures addr in PositionsFrom(dir, l, i)
    decreases l, 0, |l.items| - i
  {
    var item := l.items[i];
    if addr[0] > i {
      PositionsFromComplete(dir, l, i + 1, addr);
    } else if IsDirName(item.name) {
      var sd := dir + item.name;
      var a := addr[1..];
      assert addr == [i] + a;
      EntryAtStep(dir, l, i, a);
      PositionsComplete(sd, item.below, a);
      var subP := Positions(sd, item.below);
      var k :| 0 <= k < |subP| && subP[k] == a;
      assert Prefixed(i, subP)[k] == addr;
      assert PositionsFrom(dir, l, i)[k] == addr;
    } else {
      assert addr == [addr[0]];
      assert PositionsFrom(dir, l, i)[0] == addr;
    }
  }

  /** Every listing reachable through subdirectory names returns normally. */
  predicate Listable(l: Listing)
    decreases l
  {
    match l
    case Raised => false
    case Listed(items) =>
      forall i :: 1 <= i < |items| ==> (IsDirName(items[i].name) ==> Listable(items[i].below))
  }

  /** The generator raises only if some reached listing raises. */
  lemma {:induction false} ListableNeverRaises(dir: string, l: Listing)
    requires Listable(l)
    ensures !GetFiles(dir, l).raised
    decreases l, 1
  {
    if |l.items| > 0 {
      ListableFromNeverRaises(dir, l, 1);
    }
  }

  lemma {:induction false} ListableFromNeverRaises(dir: string, l: Listing, i: nat)
    requires l.Listed? && 1 <= i <= |l.items| && Listable(l)
    ensures !GetFrom(dir, l, i).raised
    decreases l, 0, |l.items| - i
  {
    if i < |l.items| {
      var item := l.items[i];
      if IsDirName(item.name) {
        ListableNeverRaises(dir + item.name, item.below);
      }
      ListableFromNeverRaises(dir, l, i + 1);
    }
  }

  /** A file entry "stem.ext" yields the stem as name and the lower-cased extension. */
  lemma {:induction false} RecordOfStemAndExtension(dir: string, stem: string, ext: string)
    requires '.' !in stem && '.' !in ext
    ensures MakeFile(dir, stem + "." + ext) == File(dir, stem, Lower(ext))
  {
    StemAndExtension(stem, ext);
  }

  /**
   A directory listed as itself followed by two files "a.x" and "b.y": the
   first name is skipped and both files are yielded, in listing order, split
   at their '.' with the extensions lower-cased.
   */
  lemma TwoFileDirectory(dir: string, self: Item, a: string, x: string, b: string, y: string, below1: Listing, below2: Listing)
    requires '.' !in a && '.' !in x && '.' !in b && '.' !in y
    requires '/' !in x && '/' !in y
    ensures GetFiles(dir, Listed([self, Item(a + "." + x, below1), Item(b + "." + y, below2)]))
            == Gen([File(dir, a, Lower(x)), File(dir, b, Lower(y))], false)
  {
    var l := Listed([self, Item(a + "." + x, below1), Item(b + "." + y, below2)]);
    RecordOfStemAndExtension(dir, a, x);
    RecordOfStemAndExtension(dir, b, y);
    forall stem, ext | '/' !in ext
      ensures !IsDirName(stem + "." + ext)
    {
      var n := stem + "." + ext;
      assert n[|n| - 1] == if |ext| > 0 then ext[|ext| - 1] else '.';
      assert n[|n| - 1..] == [n[|n| - 1]];
    }
    assert GetFrom(dir, l, 3) == Gen([], false);
    assert GetFrom(dir, l, 2) == Gen([File(dir, b, Lower(y))], false);
    assert GetFrom(dir, l, 1) == Gen([File(dir, a, Lower(x)), File(dir, b, Lower(y))], false);
  }
}

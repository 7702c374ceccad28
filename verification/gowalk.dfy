/**
 The Go directory walker over an abstract remote tree. A directory's
 listing is what ReadDir returns for it: either an error or its entries in
 order. The callback is a parameter; its result is the callback's error.
 */
module GoWalk {
  import opened Wrappers

  datatype Error = Error(message: string)

  datatype Entry =
    | File(name: string)
    | Dir(name: string, listing: Listing)

  datatype Listing =
    | ReadDirFailed(err: Error)
    | Entries(entries: seq<Entry>)

  /** One callback invocation: the file's name and the directory path it was found in. */
  datatype Visit = Visit(name: string, dir: string)

  datatype WalkResult = WalkResult(visits: seq<Visit>, err: Option<Error>)

  /**
   walk as written: list `path`; on an error return it; otherwise look at
   the first entry only and either recurse into it (a directory) or call
   the callback on it (a file), returning that result at once.
   */
  function Walk(l: Listing, path: string, callback: Visit -> Option<Error>): (r: WalkResult)
    ensures |r.visits| <= 1
    ensures |r.visits| == 1 ==> r.err == callback(r.visits[0])
  {
    match l
    case ReadDirFailed(e) => WalkResult([], Some(e))
    case Entries(es) =>
      if |es| == 0 then WalkResult([], None)
      else match es[0]
        case Dir(n, sub) => Walk(sub, path + "/" + n, callback)
        case File(n) => WalkResult([Visit(n, path)], callback(Visit(n, path)))
  }

  /**
   Every file of the tree in pre-order: the entries of each directory in
   listing order, a subdirectory's files in place of the subdirectory.
   Unreadable directories contribute nothing.
   */
  function AllFiles(l: Listing, path: string): seq<Visit>
    decreases l, 1
  {
    match l
    case ReadDirFailed(_) => []
    case Entries(es) => AllFilesOf(l, path, 0)
  }

  function AllFilesOf(l: Listing, path: string, i: nat): seq<Visit>
    requires l.Entries? && i <= |l.entries|
    decreases l, 0, |l.entries| - i
  {
    if i == |l.entries| then []
    else FilesOfEntry(l, path, i) + AllFilesOf(l, path, i + 1)
  }

  /** The files contributed by entry `i` of the listing `l`. */
  function FilesOfEntry(l: Listing, path: string, i: nat): seq<Visit>
    requires l.Entries? && i < |l.entries|
    decreases l, 0, 0
  {
    match l.entries[i]
    case File(n) => [Visit(n, path)]
    case Dir(n, sub) => AllFiles(sub, path + "/" + n)
  }

  /** The entry an address reaches and the directory path it sits in. */
  datatype Located = Located(entry: Entry, dir: string)

  /**
   Follow `addr`, one entry index per level, from the directory `path`
   whose listing is `l`; every index but the last must name a directory.
   */
  function Locate(l: Listing, path: string, addr: seq<nat>): Option<Located>
    decreases l
  {
    if |addr| == 0 then None
    else match l
      case ReadDirFailed(_) => None
      case Entries(es) =>
        if addr[0] >= |es| then None
        else if |addr| == 1 then Some(Located(es[addr[0]], path))
        else match es[addr[0]]
          case File(_) => None
          case Dir(n, sub) => Locate(sub, path + "/" + n, addr[1..])
  }

  /** The address of the first entry, of the first entry within it, and so on, `d` levels down. */
  function Zeros(d: nat): (r: seq<nat>)
    ensures |r| == d
    ensures forall k :: 0 <= k < d ==> r[k] == 0
  {
    if d == 0 then [] else [0] + Zeros(d - 1)
  }

  /** No directory anywhere in the tree fails to list. */
  predicate Readable(l: Listing)
    decreases l
  {
    match l
    case ReadDirFailed(_) => false
    case Entries(es) =>
      forall i :: 0 <= i < |es| ==> (es[i].Dir? ==> Readable(es[i].listing))
  }

  /** A failed listing is returned unchanged and no callback is made. */
  lemma WalkListingError(e: Error, path: string, callback: Visit -> Option<Error>)
    ensures Walk(ReadDirFailed(e), path, callback) == WalkResult([], Some(e))
  {
  }

  /** An empty directory yields nil and no callback. */
  lemma WalkEmptyListing(path: string, callback: Visit -> Option<Error>)
    ensures Walk(Entries([]), path, callback) == WalkResult([], None)
  {
  }

  /** Whatever walk visits is the start of the full pre-order listing of files. */
  lemma {:induction false} WalkIsPrefixOfAllFiles(l: Listing, path: string, callback: Visit -> Option<Error>)
    ensures Walk(l, path, callback).visits <= AllFiles(l, path)
    decreases l
  {
    match l
    case ReadDirFailed(_) =>
    case Entries(es) =>
      if |es| > 0 {
        assert AllFiles(l, path) == FilesOfEntry(l, path, 0) + AllFilesOf(l, path, 1);
        match es[0]
        case Dir(n, sub) =>
          WalkIsPrefixOfAllFiles(sub, path + "/" + n, callback);
        case File(n) =>
      }
  }

  /**
   walk reaches only first entries: the one file it hands to the callback is
   found by taking entry 0 at every level.
   */
  lemma {:induction false} WalkReachesOnlyFirstEntries(l: Listing, path: string, callback: Visit -> Option<Error>)
    ensures |Walk(l, path, callback).visits| == 1 ==>
              var v := Walk(l, path, callback).visits[0];
              exists d: nat :: Locate(l, path, Zeros(d)) == Some(Located(File(v.name), v.dir))
    decreases l
  {
    match l
    case ReadDirFailed(_) =>
    case Entries(es) =>
      if |es| > 0 {
        match es[0]
        case Dir(n, sub) =>
          WalkReachesOnlyFirstEntries(sub, path + "/" + n, callback);
          if |Walk(l, path, callback).visits| == 1 {
            var v := Walk(l, path, callback).visits[0];
            var d: nat :| Locate(sub, path + "/" + n, Zeros(d)) == Some(Located(File(v.name), v.dir));
            assert Zeros(d + 1)[1..] == Zeros(d);
            assert Locate(l, path, Zeros(d + 1)) == Some(Located(File(v.name), v.dir));
          }
        case File(n) =>
          assert Locate(l, path, Zeros(1)) == Some(Located(File(n), path));
      }
  }

  /** A directory holding two files: walk hands only the first one to the callback. */
  lemma OnlyFirstEntryReached(path: string, callback: Visit -> Option<Error>)
    ensures var l := Entries([File("a.mkv"), File("b.mkv")]);
            && Walk(l, path, callback).visits == [Visit("a.mkv", path)]
            && AllFiles(l, path) == [Visit("a.mkv", path), Visit("b.mkv", path)]
  {
  }

  /** An empty first subdirectory hides every later entry: walk visits nothing and reports no error. */
  lemma EmptyFirstDirHidesSiblings(path: string, callback: Visit -> Option<Error>)
    ensures var l := Entries([Dir("extras", Entries([])), File("a.mkv")]);
            && Walk(l, path, callback) == WalkResult([], None)
            && AllFiles(l, path) == [Visit("a.mkv", path)]
  {
  }

  /**
   A corrected walker: every entry of every directory in
   order, recursing into subdirectories and calling the callback on files,
   stopping at the first listing or callback error.
   */
  function WalkAll(l: Listing, path: string, callback: Visit -> Option<Error>): (r: WalkResult)
    ensures r.visits <= AllFiles(l, path)
    ensures r.err.None? ==> r.visits == AllFiles(l, path)
    decreases l, 1
  {
    match l
    case ReadDirFailed(e) => WalkResult([], Some(e))
    case Entries(es) => WalkAllFrom(l, path, callback, 0)
  }

  function WalkAllFrom(l: Listing, path: string, callback: Visit -> Option<Error>, i: nat): (r: WalkResult)
    requires l.Entries? && i <= |l.entries|
    ensures r.visits <= AllFilesOf(l, path, i)
    ensures r.err.None? ==> r.visits == AllFilesOf(l, path, i)
    decreases l, 0, |l.entries| - i
  {
    if i == |l.entries| then WalkResult([], None)
    else
      match l.entries[i]
      case Dir(n, sub) =>
        var r := WalkAll(sub, path + "/" + n, callback);
        if r.err.Some? then r
        else
          var rest := WalkAllFrom(l, path, callback, i + 1);
          WalkResult(r.visits + rest.visits, rest.err)
      case File(n) =>
        var e := callback(Visit(n, path));
        if e.Some? then WalkResult([Visit(n, path)], e)
        else
          var rest := WalkAllFrom(l, path, callback, i + 1);
          WalkResult([Visit(n, path)] + rest.visits, rest.err)
  }

  /** On a readable tree whose callback never fails, the corrected walker visits every file, in pre-order. */
  lemma {:induction false} WalkAllVisitsEveryFile(l: Listing, path: string, callback: Visit -> Option<Error>)
    requires Readable(l)
    requires forall v :: callback(v).None?
    ensures WalkAll(l, path, callback) == WalkResult(AllFiles(l, path), None)
    decreases l, 1
  {
    WalkAllFromVisitsEveryFile(l, path, callback, 0);
  }

  lemma {:induction false} WalkAllFromVisitsEveryFile(l: Listing, path: string, callback: Visit -> Option<Error>, i: nat)
    requires l.Entries? && i <= |l.entries| && Readable(l)
    requires forall v :: callback(v).None?
    ensures WalkAllFrom(l, path, callback, i).err.None?
    decreases l, 0, |l.entries| - i
  {
    if i < |l.entries| {
      match l.entries[i]
      case Dir(n, sub) =>
        WalkAllVisitsEveryFile(sub, path + "/" + n, callback);
        WalkAllFromVisitsEveryFile(l, path, callback, i + 1);
      case File(n) =>
        WalkAllFromVisitsEveryFile(l, path, callback, i + 1);
    }
  }

  /** Every file an address reaches is in the full pre-order listing. */
  lemma {:induction false} AllFilesComplete(l: Listing, path: string, addr: seq<nat>, name: string, dir: string)
    requires Locate(l, path, addr) == Some(Located(File(name), dir))
    ensures Visit(name, dir) in AllFiles(l, path)
    decreases l
  {
    var j := addr[0];
    if |addr| > 1 {
      var n, sub := l.entries[j].name, l.entries[j].listing;
      AllFilesComplete(sub, path + "/" + n, addr[1..], name, dir);
    }
    assert Visit(name, dir) in FilesOfEntry(l, path, j);
    EntryFilesInAllFiles(l, path, 0, j);
  }

  lemma {:induction false} EntryFilesInAllFiles(l: Listing, path: string, i: nat, j: nat)
    requires l.Entries? && i <= j < |l.entries|
    ensures forall v :: v in FilesOfEntry(l, path, j) ==> v in AllFilesOf(l, path, i)
    decreases j - i
  {
    if i < j {
      EntryFilesInAllFiles(l, path, i + 1, j);
    }
  }

  /** Every file in the full pre-order listing is reached by some address. */
  lemma {:induction false} AllFilesSound(l: Listing, path: string, v: Visit)
    requires v in AllFiles(l, path)
    ensures exists addr :: Locate(l, path, addr) == Some(Located(File(v.name), v.dir))
    decreases l, 1
  {
    var addr := AllFilesOfSound(l, path, 0, v);
  }

  lemma {:induction false} AllFilesOfSound(l: Listing, path: string, i: nat, v: Visit) returns (addr: seq<nat>)
    requires l.Entries? && i <= |l.entries|
    requires v in AllFilesOf(l, path, i)
    ensures Locate(l, path, addr) == Some(Located(File(v.name), v.dir))
    decreases l, 0, |l.entries| - i
  {
    if v in FilesOfEntry(l, path, i) {
      match l.entries[i]
      case File(n) =>
        addr := [i];
      case Dir(n, sub) =>
        AllFilesSound(sub, path + "/" + n, v);
        var rest :| Locate(sub, path + "/" + n, rest) == Some(Located(File(v.name), v.dir));
        addr := [i] + rest;
        assert addr[1..] == rest;
    } else {
      addr := AllFilesOfSound(l, path, i + 1, v);
    }
  }
}

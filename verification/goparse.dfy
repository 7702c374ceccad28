/**
 The per-file decision of the Go program (`parse`) and the strings handed to
 its two terminal actions (`generateSTRM` and `downloadFile`). The actions
 are described by the paths and content they would create; the disk and
 network I/O itself is not modelled.
 */
module GoParse {
  import opened Text
  import opened GoPath
  import opened GoSort

  /** What one call of parse would do. */
  datatype Effect =
    | WriteStrm(dir: string, file: string, content: string)
      // create `dir` if missing, then write `content` into the file `file`
    | CopyRemote(remote: string, dir: string, file: string)
      // create `dir` if missing, then copy the remote file `remote` into `file`
    | Nothing

  datatype Kind = Pointer | FullCopy | Ignore

  /** The classification rule: the strm list is consulted first, then the download list. */
  function Classify(ext: string, strmExts: seq<string>, downloadExts: seq<string>): Kind {
    if ext in strmExts then Pointer
    else if ext in downloadExts then FullCopy
    else Ignore
  }

  function KindOf(e: Effect): Kind {
    match e
    case WriteStrm(_, _, _) => Pointer
    case CopyRemote(_, _, _) => FullCopy
    case Nothing => Ignore
  }

  /** The address a pointer file names: the WebDAV host with its first "/dav" turned into "/d". */
  function DirectLink(host: string): (r: string)
    ensures (forall j :: 0 <= j <= |host| ==> !OccursAt(host, "/dav", j)) ==> r == host
    ensures forall i :: 0 <= i <= |host| && FirstOccurrence(host, "/dav", i) ==>
              r == host[..i] + "/d" + host[i + 4..]
  {
    ReplaceFirst(host, "/dav", "/d")
  }

  /** generateSTRM: a file `fileName` in `localDir` holding the direct link of `remotePath`. */
  function GenerateStrm(host: string, remotePath: string, localDir: string, fileName: string): Effect {
    WriteStrm(localDir, localDir + "/" + fileName, DirectLink(host) + "/" + remotePath)
  }

  /** downloadFile: a copy of `remotePath` named after its last path element, in `localDir`. */
  function DownloadFile(remotePath: string, localDir: string): Effect {
    CopyRemote(remotePath, localDir, localDir + "/" + Base(remotePath))
  }

  /** The name of the pointer file made for `filename`: its extension replaced by ".strm". */
  function StrmName(filename: string): (r: string)
    ensures HasSuffix(r, ".strm")
    ensures r[..|r| - 5] + Ext(filename) == filename
  {
    TrimSuffix(filename, Ext(filename)) + ".strm"
  }

  /**
   parse: sort copies of both lists, look the extension up by binary search
   in the strm list and then in the download list, and choose the effect.
   */
  method Parse(host: string, filename: string, path: string, localDir: string,
               downloadExts: seq<string>, strmExts: seq<string>) returns (e: Effect)
    ensures KindOf(e) == Classify(Ext(filename), strmExts, downloadExts)
    ensures e.WriteStrm? ==>
              e == GenerateStrm(host, path + "/" + filename, localDir + "/" + path, StrmName(filename))
    ensures e.CopyRemote? ==> e == DownloadFile(path + "/" + filename, localDir + "/" + path)
  {
    var fileExt := Ext(filename);
    var sortedDownload := SortStrings(downloadExts);
    var sortedStrm := SortStrings(strmExts);
    var index := SearchStrings(sortedStrm, fileExt);
    SearchFindsMember(sortedStrm, fileExt, index);
    SortKeepsMembers(strmExts, fileExt);
    if index < |sortedStrm| && sortedStrm[index] == fileExt {
      return GenerateStrm(host, path + "/" + filename, localDir + "/" + path, StrmName(filename));
    }
    index := SearchStrings(sortedDownload, fileExt);
    SearchFindsMember(sortedDownload, fileExt, index);
    SortKeepsMembers(downloadExts, fileExt);
    if index < |sortedDownload| && sortedDownload[index] == fileExt {
      return DownloadFile(path + "/" + filename, localDir + "/" + path);
    }
    return Nothing;
  }

  /** An extension listed for both actions gets a pointer file, never a download. */
  lemma StrmTakesPrecedence(ext: string, strmExts: seq<string>, downloadExts: seq<string>)
    requires ext in strmExts && ext in downloadExts
    ensures Classify(ext, strmExts, downloadExts) == Pointer
  {
  }

  /**
   The extension splits the name: trimming it and appending it again gives
   the name back; it is empty exactly when the last element has no '.'.
   */
  lemma ExtSplitsName(filename: string)
    ensures TrimSuffix(filename, Ext(filename)) + Ext(filename) == filename
    ensures Ext(filename) == "" <==> NoDotInLastElement(filename)
    ensures '.' !in filename ==> Ext(filename) == ""
  {
  }

  /**
   The pointer file always ends in ".strm" and replaces exactly the
   extension: what precedes ".strm" is the name without its extension.
   */
  lemma StrmNameShape(filename: string)
    ensures HasSuffix(StrmName(filename), ".strm")
    ensures StrmName(filename)[..|StrmName(filename)| - 5] + Ext(filename) == filename
    ensures Ext(filename) == "" ==> StrmName(filename) == filename + ".strm"
  {
  }

  /**
   The pointer file for `filename` found in remote directory `path` is
   written into `localDir/path` and names `path/filename` after the direct link.
   */
  lemma StrmTarget(host: string, filename: string, path: string, localDir: string)
    ensures var e := GenerateStrm(host, path + "/" + filename, localDir + "/" + path, StrmName(filename));
            && e.WriteStrm? && e.dir == localDir + "/" + path
            && e.file == localDir + "/" + path + "/" + StrmName(filename)
            && HasSuffix(e.file, ".strm")
            && e.content == DirectLink(host) + "/" + path + "/" + filename
  {
  }

  /**
   A downloaded file keeps its remote name: for a non-empty `filename`
   without '/', the copy lands at `localDir/path/filename`.
   */
  lemma DownloadTarget(filename: string, path: string, localDir: string)
    requires filename != "" && '/' !in filename
    ensures var e := DownloadFile(path + "/" + filename, localDir + "/" + path);
            && e.CopyRemote? && e.remote == path + "/" + filename && e.dir == localDir + "/" + path
            && e.file == localDir + "/" + path + "/" + filename
  {
    BaseOfJoin(path, filename);
  }
}

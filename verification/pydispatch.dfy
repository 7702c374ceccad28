/**
 The per-file decision of the Python program (`generate_strm_by_files`).
 The local filesystem is an abstract set of paths that exist; a step
 records the directory it would create and the file it would write. The
 path functions of os.path are parameters, since their behaviour is the
 platform's.
 */
module PyDispatch {
  import opened Wrappers
  import opened Text
  import opened PyNames
  import opened PyWalk

  /** os.path.normpath, os.path.relpath, os.path.join and os.path.dirname. */
  datatype PathLib = PathLib(
    normpath: string -> string,
    relpath: (string, string) -> string,
    join: (string, string) -> string,
    dirname: string -> string)

  datatype Config = Config(
    hostname: string,       // webdav_hostname
    remotePath: string,     // remote_path
    saveDir: string,        // save_dir
    downloadExts: seq<string>,
    strmExts: seq<string>,
    os: PathLib)

  datatype Write =
    | Download(remote: string, local: string)   // download_sync(remote, local)
    | WriteStrm(local: string, content: string) // open(local, 'w').write(content)

  /** What handling one file does: the directory it creates (if any) and the file it writes (if any). */
  datatype Step = Step(madeDir: Option<string>, write: Option<Write>)

  datatype Run = Run(steps: seq<Step>, final: set<string>)

  function Target(w: Write): string {
    match w
    case Download(_, local) => local
    case WriteStrm(local, _) => local
  }

  /** absolute_path: the file's remote path rebuilt from its record, normalised, with '\' turned into '/'. */
  function AbsolutePath(f: File, cfg: Config): string {
    ReplaceChar(cfg.os.normpath(f.dir + f.name + "." + f.ext), '\\', '/')
  }

  /** save_path: the local mirror of the remote path under save_dir. */
  function SavePath(f: File, cfg: Config): string {
    var relative := cfg.os.relpath(AbsolutePath(f, cfg), cfg.remotePath);
    ReplaceChar(cfg.os.join(cfg.saveDir, relative), '\\', '/')
  }

  /** The local directory of the file (the inner save_dir). */
  function LocalDir(f: File, cfg: Config): string {
    cfg.os.dirname(SavePath(f, cfg))
  }

  function StrmPath(f: File, cfg: Config): string {
    cfg.os.join(LocalDir(f, cfg), f.name + ".strm")
  }

  /** The pointer file's text: the host, then the remote path with its first "/dav" turned into "/d". */
  function StrmContent(f: File, cfg: Config): string {
    cfg.hostname + ReplaceFirst(AbsolutePath(f, cfg), "/dav", "/d")
  }

  /**
   The local file a record is meant to produce, decided by its extension
   alone: the download list is consulted first, then the strm list.
   */
  function TargetOf(f: File, cfg: Config): Option<string> {
    if f.ext in cfg.downloadExts then Some(SavePath(f, cfg))
    else if f.ext in cfg.strmExts then Some(StrmPath(f, cfg))
    else None
  }

  /** Both paths are written with '/' only: no '\\' survives the replacement, whatever the platform's path functions return. */
  lemma PathsUseForwardSlashes(f: File, cfg: Config)
    ensures '\\' !in AbsolutePath(f, cfg)
    ensures '\\' !in SavePath(f, cfg)
  {
  }

  /**
   One iteration of the loop: create the local directory if it is missing,
   then download or write the pointer file unless the target already exists.
   */
  function Decide(f: File, cfg: Config, existing: set<string>): (s: Step)
    ensures s.madeDir.Some? <==> LocalDir(f, cfg) !in existing
    ensures s.madeDir.Some? ==> s.madeDir.value == LocalDir(f, cfg)
    ensures s.write.Some? <==> TargetOf(f, cfg).Some? && TargetOf(f, cfg).value !in existing + {LocalDir(f, cfg)}
    ensures s.write.Some? ==> Target(s.write.value) == TargetOf(f, cfg).value
    ensures f.ext in cfg.downloadExts && s.write.Some? ==>
              s.write.value == Download(AbsolutePath(f, cfg), SavePath(f, cfg))
    ensures f.ext !in cfg.downloadExts && s.write.Some? ==>
              s.write.value == WriteStrm(StrmPath(f, cfg), StrmContent(f, cfg))
  {
    var saveDir := LocalDir(f, cfg);
    var madeDir := if saveDir in existing then None else Some(saveDir);
    var present := existing + {saveDir};
    if f.ext in cfg.downloadExts then
      if SavePath(f, cfg) in present then Step(madeDir, None)
      else Step(madeDir, Some(Download(AbsolutePath(f, cfg), SavePath(f, cfg))))
    else if f.ext in cfg.strmExts then
      if StrmPath(f, cfg) in present then Step(madeDir, None)
      else Step(madeDir, Some(WriteStrm(StrmPath(f, cfg), StrmContent(f, cfg))))
    else Step(madeDir, None)
  }

  /** The paths that exist after a step. */
  function After(existing: set<string>, s: Step): set<string> {
    existing
    + (if s.madeDir.Some? then {s.madeDir.value} else {})
    + (if s.write.Some? then {Target(s.write.value)} else {})
  }

  /**
   The whole loop over the yielded records, in order. Every target ends up
   existing; nothing that existed is written; no path is written twice.
   */
  function RunAll(files: seq<File>, cfg: Config, existing: set<string>): (r: Run)
    ensures |r.steps| == |files|
    ensures existing <= r.final
    ensures forall k :: 0 <= k < |files| && TargetOf(files[k], cfg).Some? ==>
              TargetOf(files[k], cfg).value in r.final
    ensures forall k :: 0 <= k < |files| && r.steps[k].write.Some? ==>
              TargetOf(files[k], cfg).Some? && Target(r.steps[k].write.value) == TargetOf(files[k], cfg).value
    ensures forall k :: 0 <= k < |files| && r.steps[k].write.Some? ==>
              Target(r.steps[k].write.value) !in existing
    ensures forall k1, k2 :: 0 <= k1 < k2 < |files| && r.steps[k1].write.Some? && r.steps[k2].write.Some? ==>
              Target(r.steps[k1].write.value) != Target(r.steps[k2].write.value)
  {
    if |files| == 0 then Run([], existing)
    else
      var s := Decide(files[0], cfg, existing);
      var rest := RunAll(files[1..], cfg, After(existing, s));
      var r := Run([s] + rest.steps, rest.final);
      assert forall k :: 1 <= k < |files| ==> r.steps[k] == rest.steps[k - 1] && files[k] == files[1..][k - 1];
      r
  }

  /** An extension on both lists is downloaded, never turned into a pointer file. */
  lemma DownloadTakesPrecedence(f: File, cfg: Config, existing: set<string>)
    requires f.ext in cfg.downloadExts && f.ext in cfg.strmExts
    requires SavePath(f, cfg) !in existing + {LocalDir(f, cfg)}
    ensures Decide(f, cfg, existing).write == Some(Download(AbsolutePath(f, cfg), SavePath(f, cfg)))
  {
  }

  /** An extension on neither list writes no file. */
  lemma UnlistedWritesNothing(f: File, cfg: Config, existing: set<string>)
    requires f.ext !in cfg.downloadExts && f.ext !in cfg.strmExts
    ensures Decide(f, cfg, existing).write.None?
  {
  }

  /** A target that already exists is skipped. */
  lemma ExistingTargetSkipped(f: File, cfg: Config, existing: set<string>)
    requires TargetOf(f, cfg).Some? && TargetOf(f, cfg).value in existing
    ensures Decide(f, cfg, existing).write.None?
  {
  }

  /**
   The pointer file's text is the host followed by the remote path in which
   only the first "/dav" has become "/d".
   */
  lemma StrmContentRewritesFirstDav(f: File, cfg: Config, i: nat)
    requires i <= |AbsolutePath(f, cfg)| && FirstOccurrence(AbsolutePath(f, cfg), "/dav", i)
    ensures StrmContent(f, cfg) ==
            cfg.hostname + AbsolutePath(f, cfg)[..i] + "/d" + AbsolutePath(f, cfg)[i + 4..]
  {
  }

  /** Running the loop a second time over the same records writes nothing: every target exists by then. */
  lemma RunTwiceWritesNothing(files: seq<File>, cfg: Config, existing: set<string>)
    ensures var second := RunAll(files, cfg, RunAll(files, cfg, existing).final);
            forall k :: 0 <= k < |files| ==> second.steps[k].write.None?
  {
  }

  /** generate: list the remote tree from remote_path and handle every yielded record in order. */
  function Generate(l: Listing, cfg: Config, existing: set<string>): (r: (Run, bool))
    ensures Listable(l) ==> !r.1
    ensures existing <= r.0.final
  {
    var g := GetFiles(cfg.remotePath, l);
    assert Listable(l) ==> !g.raised by {
      if Listable(l) {
        ListableNeverRaises(cfg.remotePath, l);
      }
    }
    (RunAll(g.files, cfg, existing), g.raised)
  }

  /** Re-running generate against an unchanged remote tree rewrites no existing output. */
  lemma GenerateTwiceWritesNothing(l: Listing, cfg: Config, existing: set<string>)
    ensures var second := Generate(l, cfg, Generate(l, cfg, existing).0.final).0;
            forall k :: 0 <= k < |second.steps| ==> second.steps[k].write.None?
  {
    RunTwiceWritesNothing(GetFiles(cfg.remotePath, l).files, cfg, existing);
  }

  /**
   The remote path handed to download_sync and the pointer file is rebuilt
   from the record, so it carries the lower-cased extension, not the listed one.
   */
  lemma RemotePathUsesLowerCaseExtension(dir: string, stem: string, ext: string, cfg: Config)
    requires '.' !in stem && '.' !in ext
    ensures AbsolutePath(MakeFile(dir, stem + "." + ext), cfg)
            == ReplaceChar(cfg.os.normpath(dir + stem + "." + Lower(ext)), '\\', '/')
  {
    RecordOfStemAndExtension(dir, stem, ext);
  }
}

/**
 * The UnZip step: `start` validates its configuration and resolves its
 * settings; `handle` takes a message whose payload lists archive file names,
 * extracts each existing archive into the target directory and sends one
 * message listing the extracted files' paths.
 *
 * The filesystem is a map from file name to what the file holds; a name that
 * is not a key does not exist. It stands behind getNewFile/getNewZipFile.
 * Only the archive entries' names, directory flags and sizes are modelled.
 */
module UnZipStep {
  import opened Common

  const SettingTargetResource: string := "target.resource"
  const SettingTargetSubDir: string := "target.sub.dir"
  const SettingTargetRelativePath: string := "target.relative.path"
  const SettingMustExist: string := "must.exist"
  const SettingDeleteOnComplete: string := "delete.on.complete"
  const SettingExtractEmptyFiles: string := "extract.empty.files"
  const SettingEncoding: string := "encoding"

  const DefaultEncoding: string := "UTF-8"

  /** A deployed resource: only a local-file resource has a path setting. */
  datatype Resource =
    | LocalFile(name: string, path: Option<string>)
    | OtherResource(name: string)

  /** The step's typed properties: boolean settings and string settings. */
  datatype Properties = Properties(flags: map<string, bool>, values: map<string, string>)

  /** TypedProperties.is(key, default). */
  function Is(p: Properties, key: string, default: bool): bool
  {
    if key in p.flags then p.flags[key] else default
  }

  /** TypedProperties.get(key, default). */
  function Get(p: Properties, key: string, default: string): string
  {
    if key in p.values then p.values[key] else default
  }

  // ---- Paths as java.io.File keeps them on Unix ----

  /** No separator directly follows another. */
  predicate NoDoubleSlash(p: string)
  {
    forall i, j :: 0 <= i < |p| && 0 <= j < |p| && j == i + 1 ==> !(p[i] == '/' && p[j] == '/')
  }

  /** Two paths without doubled separators join into one, unless the first
      ends and the second starts with a separator. */
  lemma NoDoubleSlashConcat(a: string, b: string)
    requires NoDoubleSlash(a) && NoDoubleSlash(b)
    requires !(a != [] && b != [] && a[|a| - 1] == '/' && b[0] == '/')
    ensures NoDoubleSlash(a + b)
  {
    var ab := a + b;
    forall i, j | 0 <= i < |ab| && 0 <= j < |ab| && j == i + 1
      ensures !(ab[i] == '/' && ab[j] == '/')
    {
      if j < |a| {
        assert ab[i] == a[i] && ab[j] == a[j];
      } else if i >= |a| {
        assert ab[i] == b[i - |a|] && ab[j] == b[j - |a|];
      } else {
        assert ab[i] == a[|a| - 1] && ab[j] == b[0];
      }
    }
  }

  /** A prefix of a path without doubled separators has none either. */
  lemma NoDoubleSlashPrefix(p: string, k: int)
    requires NoDoubleSlash(p) && 0 <= k <= |p|
    ensures NoDoubleSlash(p[..k])
  {
    var q := p[..k];
    forall i, j | 0 <= i < |q| && 0 <= j < |q| && j == i + 1
      ensures !(q[i] == '/' && q[j] == '/')
    {
      assert q[i] == p[i] && q[j] == p[j];
    }
  }

  /** A path in the form java.io.File stores: no doubled separator, and no
      trailing one unless the path is the root. */
  predicate IsNormalPath(p: string)
  {
    NoDoubleSlash(p) && (|p| > 1 ==> p[|p| - 1] != '/')
  }

  /** Each run of separators collapsed to one. */
  function CollapseSlashes(p: string): (r: string)
    ensures NoDoubleSlash(r)
    ensures |r| <= |p| && (r == [] <==> p == [])
    ensures r != [] ==> r[|r| - 1] == p[|p| - 1]
  {
    if p == [] then []
    else
      var init := CollapseSlashes(p[..|p| - 1]);
      var c := p[|p| - 1];
      if c == '/' && init != [] && init[|init| - 1] == '/' then init
      else
        NoDoubleSlashConcat(init, [c]);
        init + [c]
  }

  /** A path without doubled separators is left as it is. */
  lemma {:induction false} CollapseSlashesKeeps(p: string)
    requires NoDoubleSlash(p)
    ensures CollapseSlashes(p) == p
  {
    if p != [] {
      var init, c := p[..|p| - 1], p[|p| - 1];
      NoDoubleSlashPrefix(p, |p| - 1);
      CollapseSlashesKeeps(init);
      if init != [] {
        assert init[|init| - 1] == p[|p| - 2];
        assert !(p[|p| - 2] == '/' && p[|p| - 1] == '/');
      }
      assert init + [c] == p;
    }
  }

  /** The file system's normalize: doubled separators collapsed and a
      trailing one dropped, except from the root "/". */
  function Normalize(p: string): (r: string)
    ensures IsNormalPath(r)
    ensures r == [] <==> p == []
  {
    var c := CollapseSlashes(p);
    if |c| > 1 && c[|c| - 1] == '/' then
      assert c[|c| - 2] != '/';
      NoDoubleSlashPrefix(c, |c| - 1);
      c[..|c| - 1]
    else c
  }

  /** A path already in normal form is left as it is. */
  lemma NormalizeKeeps(p: string)
    requires IsNormalPath(p)
    ensures Normalize(p) == p
  {
    CollapseSlashesKeeps(p);
  }

  /** Normalizing twice is normalizing once. */
  lemma NormalizeIdempotent(p: string)
    ensures Normalize(Normalize(p)) == Normalize(p)
  {
    NormalizeKeeps(Normalize(p));
  }

  /** The file system's resolve: the child path appended to the parent path
      with one separator between them. */
  function Resolve(parent: string, child: string): (r: string)
    ensures |parent| <= |r| && r[..|parent|] == parent
    ensures |child| <= |r| && r[|r| - |child|..] == child
    ensures |r| <= |parent| + 1 + |child|
  {
    if child == [] then parent
    else if child[0] == '/' then
      if parent == "/" then child else parent + child
    else if parent == "/" then parent + child
    else parent + "/" + child
  }

  /** Resolving one normal path against another doubles no separator. */
  lemma ResolveSingleSeparators(parent: string, child: string)
    requires IsNormalPath(parent) && IsNormalPath(child)
    ensures NoDoubleSlash(Resolve(parent, child))
  {
    if child != [] && parent != "/" {
      if child[0] == '/' {
        NoDoubleSlashConcat(parent, child);
      } else {
        NoDoubleSlashConcat(parent, "/");
        NoDoubleSlashConcat(parent + "/", child);
      }
    } else if child != [] && child[0] != '/' {
      NoDoubleSlashConcat(parent, child);
    }
  }

  /** The parent the file system puts in front of a child of the empty path. */
  const DefaultParent: string := "/"

  /** new File(parentFile, child): the normalized child resolved against the
      parent's path, or against the root when that path is empty. */
  function ChildPath(parentPath: string, child: string): (r: string)
    ensures var base := if parentPath == [] then DefaultParent else parentPath;
            |base| <= |r| && r[..|base|] == base
    ensures |Normalize(child)| <= |r| && r[|r| - |Normalize(child)|..] == Normalize(child)
  {
    Resolve(if parentPath == [] then DefaultParent else parentPath, Normalize(child))
  }

  /** A child of a normal path doubles no separator. */
  lemma ChildPathSingleSeparators(parentPath: string, child: string)
    requires IsNormalPath(parentPath)
    ensures NoDoubleSlash(ChildPath(parentPath, child))
  {
    ResolveSingleSeparators(if parentPath == [] then DefaultParent else parentPath, Normalize(child));
  }

  /** new File(parent, child) for a parent given as a string. */
  function Join(parent: string, child: string): (r: string)
    ensures var base := if parent == [] then DefaultParent else Normalize(parent);
            |base| <= |r| && r[..|base|] == base
    ensures |Normalize(child)| <= |r| && r[|r| - |Normalize(child)|..] == Normalize(child)
  {
    ChildPath(Normalize(parent), child)
  }

  /** Whatever the two strings, the joined path doubles no separator. */
  lemma JoinSingleSeparators(parent: string, child: string)
    ensures NoDoubleSlash(Join(parent, child))
  {
    ChildPathSingleSeparators(Normalize(parent), child);
  }

  /** A child with a leading separator still lands under the parent. */
  lemma JoinAbsoluteChild()
    ensures Join("/data", "/sub") == "/data/sub"
  {
    NormalizeKeeps("/data");
    NormalizeKeeps("/sub");
    assert Resolve("/data", "/sub") == "/data/sub";
  }

  /** A separator after a normal path that is not the root is dropped. */
  lemma TrailingSeparatorDropped(p: string)
    requires IsNormalPath(p) && |p| > 0 && p[|p| - 1] != '/'
    ensures Normalize(p + "/") == p
  {
    NoDoubleSlashConcat(p, "/");
    CollapseSlashesKeeps(p + "/");
    assert (p + "/")[..|p|] == p;
  }

  /** A trailing separator on either side makes no difference. */
  lemma JoinTrailingSeparators(parent: string, child: string)
    requires IsNormalPath(parent) && |parent| > 0 && parent[|parent| - 1] != '/'
    requires IsNormalPath(child) && |child| > 0 && child[|child| - 1] != '/'
    ensures Join(parent + "/", child + "/") == Join(parent, child)
    ensures Join(parent + "/", child) == Join(parent, child)
    ensures Join(parent, child + "/") == Join(parent, child)
  {
    TrailingSeparatorDropped(parent);
    TrailingSeparatorDropped(child);
    NormalizeKeeps(parent);
    NormalizeKeeps(child);
  }

  /** An empty parent stands for the root. */
  lemma JoinEmptyParent()
    ensures Join("", "sub") == "/sub"
  {
    NormalizeKeeps("sub");
    assert Normalize("") == "";
    assert Resolve("/", "sub") == "/sub";
  }

  /** A doubled separator inside the parent is collapsed. */
  lemma JoinDoubledSeparator()
    ensures Join("a//b", "c") == "a/b/c"
  {
    CollapseSlashesKeeps("a/");
    assert "a//"[..2] == "a/" && "a//b"[..3] == "a//";
    assert CollapseSlashes("a//") == "a/";
    assert CollapseSlashes("a//b") == "a/b";
    NormalizeKeeps("c");
    assert Normalize("a//b") == "a/b";
    assert Resolve("a/b", "c") == "a/b/c";
  }

  /** The last index of `c` in `s`, or -1. */
  function LastIndexOf(s: string, c: char): (r: int)
    ensures -1 <= r < |s|
    ensures r >= 0 ==> s[r] == c
    ensures forall j :: r < j < |s| ==> s[j] != c
  {
    if s == [] then -1
    else if s[|s| - 1] == c then |s| - 1
    else LastIndexOf(s[..|s| - 1], c)
  }

  /** new File(path).getName(): what follows the last separator of the
      normalized path. */
  function FileName(path: string): (r: string)
    ensures '/' !in r
    ensures var n := Normalize(path);
            |r| <= |n| && n[|n| - |r|..] == r && (|r| == |n| || n[|n| - |r| - 1] == '/')
  {
    var n := Normalize(path);
    var k := LastIndexOf(n, '/') + 1;
    assert forall j :: 0 <= j < |n[k..]| ==> n[k..][j] == n[k + j];
    n[k..]
  }

  /** A file-name extension: a dot and what follows it, with no further dot
      and no separator of either kind. */
  predicate IsExtension(ext: string)
  {
    |ext| > 0 && ext[0] == '.' && forall i :: 1 <= i < |ext| ==> ext[i] != '.' && ext[i] != '/' && ext[i] != '\\'
  }

  predicate HasExtension(name: string)
  {
    exists j :: 0 <= j < |name| && IsExtension(name[j..])
  }

  /** FilenameUtils.removeExtension: drops everything from the last '.' on,
      unless a '/' or '\\' separator comes after it. */
  function RemoveExtension(name: string): (r: string)
    ensures |r| <= |name| && name[..|r|] == r
    ensures HasExtension(name) ==> IsExtension(name[|r|..])
    ensures !HasExtension(name) ==> r == name
  {
    var k := LastIndexOf(name, '.');
    var sep := if LastIndexOf(name, '/') > LastIndexOf(name, '\\') then LastIndexOf(name, '/') else LastIndexOf(name, '\\');
    if k < 0 || sep > k then
      assert forall j :: 0 <= j < |name| && IsExtension(name[j..]) ==> name[j] == '.' && (sep > j ==> name[j..][sep - j] == name[sep]);
      name
    else
      assert forall i :: 0 <= i < |name[k..]| ==> name[k..][i] == name[k + i];
      name[..k]
  }

  /** Token values for the target path: the flow parameters, overridden by the
      message header where both have a key. */
  function MergeParameters(flowParameters: map<string, string>, header: map<string, string>): (r: map<string, string>)
    ensures r.Keys == flowParameters.Keys + header.Keys
    ensures forall k :: k in header ==> r[k] == header[k]
    ensures forall k :: k in flowParameters && k !in header ==> r[k] == flowParameters[k]
  {
    flowParameters + header
  }

  datatype ZipEntry = ZipEntry(name: string, isDirectory: bool, size: int)

  /** What a file holds: an archive and its entries, or something that cannot
      be opened as an archive. */
  datatype FileState = Archive(entries: seq<ZipEntry>) | NotAnArchive

  datatype Message = Message(payload: Option<seq<string>>, header: map<string, string>)

  /** The message sent on: the list of extracted paths and the boundary flag. */
  datatype OutboundMessage = OutboundMessage(payload: seq<string>, unitOfWorkBoundaryReached: bool)

  /** The IoException raised while handling a message: a required archive
      that does not exist ("Could not find file to extract: " and the name), or
      the IOException of opening a file that is not an archive, wrapped. */
  datatype IoError =
    | FileNotFound(fileName: string)
    | CannotOpenArchive(fileName: string)

  /** What one call of handle does towards the next step. */
  datatype HandleResult =
    | Sent(message: OutboundMessage)
    | NothingSent
    | Failed(error: IoError)

  /** The settings `start` resolves and `handle` reads. */
  datatype Settings = Settings(
    targetDirName: string,
    targetSubDir: bool,
    mustExist: bool,
    deleteOnComplete: bool,
    extractEmptyFiles: bool)

  /** An entry is written out unless it is a directory, or it is empty (size not
      above zero, which includes an unknown size of -1) and empty files are not
      extracted. */
  predicate IsExtracted(extractEmptyFiles: bool, e: ZipEntry)
  {
    !e.isDirectory && (extractEmptyFiles || e.size > 0)
  }

  /** The directory an archive is extracted into. */
  function ExtractionDir(targetSubDir: bool, resolvedTarget: string, fileName: string): string
  {
    if targetSubDir then Join(resolvedTarget, RemoveExtension(FileName(fileName))) else Normalize(resolvedTarget)
  }

  /** The paths written for an archive's entries, in entry order. */
  function EntryPaths(targetDir: string, entries: seq<ZipEntry>, extractEmptyFiles: bool): seq<string>
  {
    if entries == [] then []
    else
      var e := entries[|entries| - 1];
      EntryPaths(targetDir, entries[..|entries| - 1], extractEmptyFiles)
      + (if IsExtracted(extractEmptyFiles, e) then [ChildPath(targetDir, e.name)] else [])
  }

  /** The outcome of extracting a payload's archives in turn: the paths so far
      and the filesystem afterwards, or the error that stopped it. */
  datatype RunResult =
    | RunOk(paths: seq<string>, files: map<string, FileState>)
    | RunFailed(error: IoError, files: map<string, FileState>)

  /** Extracts `payload` in order, given the paths `acc` already produced. */
  function ExtractAll(s: Settings, resolvedTarget: string, payload: seq<string>,
                      files: map<string, FileState>, acc: seq<string>): RunResult
    decreases |payload|
  {
    if payload == [] then RunOk(acc, files)
    else
      var f := payload[0];
      if f !in files then
        if s.mustExist then RunFailed(FileNotFound(f), files)
        else ExtractAll(s, resolvedTarget, payload[1..], files, acc)
      else match files[f]
        case NotAnArchive => RunFailed(CannotOpenArchive(f), files)
        case Archive(entries) =>
          var dir := ExtractionDir(s.targetSubDir, resolvedTarget, f);
          ExtractAll(s, resolvedTarget, payload[1..],
                     if s.deleteOnComplete then files - {f} else files,
                     acc + EntryPaths(dir, entries, s.extractEmptyFiles))
  }

  /** handle as a function of the settings, the message, the flow parameters
      and the filesystem: what is sent, and the filesystem afterwards. */
  function HandleSpec(s: Settings, input: Message, unitOfWorkBoundaryReached: bool,
                      flowParameters: map<string, string>, files: map<string, FileState>,
                      replaceTokens: (string, map<string, string>) -> string): (HandleResult, map<string, FileState>)
  {
    match input.payload
    case None => (NothingSent, files)
    case Some(payload) =>
      var resolved := replaceTokens(s.targetDirName, MergeParameters(flowParameters, input.header));
      match ExtractAll(s, resolved, payload, files, [])
      case RunOk(paths, after) => (Sent(OutboundMessage(paths, unitOfWorkBoundaryReached)), after)
      case RunFailed(e, after) => (Failed(e), after)
  }

  // ---- Properties of the specification ----

  /** An archive's written paths are exactly its extracted entries under the
      extraction directory: no directory entry and, unless empty files are
      extracted, no empty entry. */
  lemma {:induction false} EntryPathsMembership(dir: string, entries: seq<ZipEntry>, extractEmptyFiles: bool, p: string)
    ensures p in EntryPaths(dir, entries, extractEmptyFiles) <==>
              exists e :: e in entries && IsExtracted(extractEmptyFiles, e) && p == ChildPath(dir, e.name)
    decreases |entries|
  {
    if entries != [] {
      var init, e := entries[..|entries| - 1], entries[|entries| - 1];
      EntryPathsMembership(dir, init, extractEmptyFiles, p);
      assert entries == init + [e];
    }
  }

  /** The paths of the first k + 1 entries: those of the first k, then the
      path of entry k if it is extracted. */
  lemma EntryPathsSnoc(dir: string, entries: seq<ZipEntry>, k: int, extractEmptyFiles: bool)
    requires 0 <= k < |entries|
    ensures EntryPaths(dir, entries[..k + 1], extractEmptyFiles)
            == EntryPaths(dir, entries[..k], extractEmptyFiles)
               + (if IsExtracted(extractEmptyFiles, entries[k]) then [ChildPath(dir, entries[k].name)] else [])
  {
    assert entries[..k + 1][..k] == entries[..k] && entries[..k + 1][k] == entries[k];
  }

  /** Each extracted entry yields one path, in entry order. */
  lemma {:induction false} EntryPathsAppend(dir: string, entries: seq<ZipEntry>, more: seq<ZipEntry>, extractEmptyFiles: bool)
    ensures EntryPaths(dir, entries + more, extractEmptyFiles)
            == EntryPaths(dir, entries, extractEmptyFiles) + EntryPaths(dir, more, extractEmptyFiles)
    decreases |more|
  {
    if more != [] {
      var init, e := more[..|more| - 1], more[|more| - 1];
      assert entries + more == (entries + init) + [e];
      assert (entries + more)[..|entries + more| - 1] == entries + init;
      EntryPathsAppend(dir, entries, init, extractEmptyFiles);
    } else {
      assert entries + more == entries;
    }
  }

  /** `prefix` put in front of the paths of a run; a failure is left as it is. */
  function Prepend(prefix: seq<string>, r: RunResult): RunResult
  {
    match r
    case RunOk(paths, files) => RunOk(prefix + paths, files)
    case RunFailed(_, _) => r
  }

  /** Paths of earlier archives come first: whatever was produced before is
      kept, in front, and does not affect the rest of the run. */
  lemma {:induction false} ExtractAllAccumulates(s: Settings, resolvedTarget: string, payload: seq<string>,
                                                 files: map<string, FileState>, prefix: seq<string>, acc: seq<string>)
    ensures ExtractAll(s, resolvedTarget, payload, files, prefix + acc)
            == Prepend(prefix, ExtractAll(s, resolvedTarget, payload, files, acc))
    decreases |payload|
  {
    if payload != [] {
      var f := payload[0];
      if f !in files {
        ExtractAllAccumulates(s, resolvedTarget, payload[1..], files, prefix, acc);
      } else if files[f].Archive? {
        var ps := EntryPaths(ExtractionDir(s.targetSubDir, resolvedTarget, f), files[f].entries, s.extractEmptyFiles);
        var next := if s.deleteOnComplete then files - {f} else files;
        ExtractAllAccumulates(s, resolvedTarget, payload[1..], next, prefix, acc + ps);
        assert (prefix + acc) + ps == prefix + (acc + ps);
      }
    }
  }

  /** A missing archive is an error only when it must exist. */
  lemma {:induction false} NotFoundOnlyIfMustExist(s: Settings, resolvedTarget: string, payload: seq<string>,
                                                    files: map<string, FileState>, acc: seq<string>)
    ensures (ExtractAll(s, resolvedTarget, payload, files, acc).RunFailed?
             && ExtractAll(s, resolvedTarget, payload, files, acc).error.FileNotFound?) ==> s.mustExist
    decreases |payload|
  {
    if payload != [] {
      var f := payload[0];
      if f !in files {
        NotFoundOnlyIfMustExist(s, resolvedTarget, payload[1..], files, acc);
      } else if files[f].Archive? {
        NotFoundOnlyIfMustExist(s, resolvedTarget, payload[1..],
          if s.deleteOnComplete then files - {f} else files,
          acc + EntryPaths(ExtractionDir(s.targetSubDir, resolvedTarget, f), files[f].entries, s.extractEmptyFiles));
      }
    }
  }

  /** With mustExist set, a run succeeds only if every name in the payload
      exists: a missing archive always stops it. */
  lemma {:induction false} MustExistFindsAll(s: Settings, resolvedTarget: string, payload: seq<string>,
                                             files: map<string, FileState>, acc: seq<string>)
    requires s.mustExist
    ensures ExtractAll(s, resolvedTarget, payload, files, acc).RunOk? ==> forall f :: f in payload ==> f in files
    decreases |payload|
  {
    if payload != [] {
      var f := payload[0];
      if f in files && files[f].Archive? {
        var next := if s.deleteOnComplete then files - {f} else files;
        MustExistFindsAll(s, resolvedTarget, payload[1..], next,
          acc + EntryPaths(ExtractionDir(s.targetSubDir, resolvedTarget, f), files[f].entries, s.extractEmptyFiles));
        assert payload == [f] + payload[1..];
      }
    }
  }

  /** Without deleteOnComplete the filesystem is left as it was; with it, files
      are only ever removed, never added or changed. */
  lemma {:induction false} ExtractAllOnlyDeletes(s: Settings, resolvedTarget: string, payload: seq<string>,
                                                 files: map<string, FileState>, acc: seq<string>)
    ensures ExtractAll(s, resolvedTarget, payload, files, acc).files.Keys <= files.Keys
    ensures forall f :: f in ExtractAll(s, resolvedTarget, payload, files, acc).files ==>
              ExtractAll(s, resolvedTarget, payload, files, acc).files[f] == files[f]
    ensures !s.deleteOnComplete ==> ExtractAll(s, resolvedTarget, payload, files, acc).files == files
    decreases |payload|
  {
    if payload != [] {
      var f := payload[0];
      if f !in files {
        ExtractAllOnlyDeletes(s, resolvedTarget, payload[1..], files, acc);
      } else if files[f].Archive? {
        ExtractAllOnlyDeletes(s, resolvedTarget, payload[1..],
          if s.deleteOnComplete then files - {f} else files,
          acc + EntryPaths(ExtractionDir(s.targetSubDir, resolvedTarget, f), files[f].entries, s.extractEmptyFiles));
      }
    }
  }

  /** With deleteOnComplete, a successful run leaves none of the payload's
      archives behind. */
  lemma {:induction false} DeleteOnCompleteRemovesArchives(s: Settings, resolvedTarget: string, payload: seq<string>,
                                                           files: map<string, FileState>, acc: seq<string>)
    requires s.deleteOnComplete
    ensures ExtractAll(s, resolvedTarget, payload, files, acc).RunOk? ==>
              forall f :: f in payload ==> f !in ExtractAll(s, resolvedTarget, payload, files, acc).files
    decreases |payload|
  {
    if payload != [] {
      var f := payload[0];
      var next := if f in files && files[f].Archive? then files - {f} else files;
      if f !in files || files[f].Archive? {
        var acc' := if f in files then acc + EntryPaths(ExtractionDir(s.targetSubDir, resolvedTarget, f),
                                                        files[f].entries, s.extractEmptyFiles) else acc;
        DeleteOnCompleteRemovesArchives(s, resolvedTarget, payload[1..], next, acc');
        ExtractAllOnlyDeletes(s, resolvedTarget, payload[1..], next, acc');
        assert payload == [f] + payload[1..];
      }
    }
  }

  /** A null payload sends nothing; any other payload either sends exactly one
      message, carrying the inbound boundary flag, or fails. */
  lemma HandleSendsAtMostOnce(s: Settings, input: Message, unitOfWorkBoundaryReached: bool,
                              flowParameters: map<string, string>, files: map<string, FileState>,
                              replaceTokens: (string, map<string, string>) -> string)
    ensures var (r, _) := HandleSpec(s, input, unitOfWorkBoundaryReached, flowParameters, files, replaceTokens);
            && (r.NothingSent? <==> input.payload.None?)
            && (r.Sent? ==> r.message.unitOfWorkBoundaryReached == unitOfWorkBoundaryReached)
  {
  }

  /** With mustExist unset, a payload of names none of which exist sends an
      empty list: missing archives are skipped silently. */
  lemma {:induction false} MissingArchivesSkipped(s: Settings, resolvedTarget: string, payload: seq<string>,
                                                  files: map<string, FileState>, acc: seq<string>)
    requires !s.mustExist
    requires forall f :: f in payload ==> f !in files
    ensures ExtractAll(s, resolvedTarget, payload, files, acc) == RunOk(acc, files)
    decreases |payload|
  {
    if payload != [] {
      assert payload[0] in payload;
      assert forall f :: f in payload[1..] ==> f in payload;
      MissingArchivesSkipped(s, resolvedTarget, payload[1..], files, acc);
    }
  }

  /** With mustExist unset, a name that does not exist is skipped wherever it
      stands in the payload: the run is the run without it. For an empty
      `before`, a missing first name leaves the run of the rest. */
  lemma {:induction false} MissingArchiveSkipped(s: Settings, resolvedTarget: string, before: seq<string>, f: string,
                                                 after: seq<string>, files: map<string, FileState>, acc: seq<string>)
    requires !s.mustExist && f !in files
    ensures ExtractAll(s, resolvedTarget, before + [f] + after, files, acc)
            == ExtractAll(s, resolvedTarget, before + after, files, acc)
    decreases |before|
  {
    var payload := before + [f] + after;
    if before == [] {
      assert payload[1..] == after && before + after == after;
    } else {
      var g := before[0];
      assert payload[0] == g && payload[1..] == before[1..] + [f] + after;
      assert (before + after)[0] == g && (before + after)[1..] == before[1..] + after;
      if g !in files {
        MissingArchiveSkipped(s, resolvedTarget, before[1..], f, after, files, acc);
      } else if files[g].Archive? {
        MissingArchiveSkipped(s, resolvedTarget, before[1..], f, after,
          if s.deleteOnComplete then files - {g} else files,
          acc + EntryPaths(ExtractionDir(s.targetSubDir, resolvedTarget, g), files[g].entries, s.extractEmptyFiles));
      }
    }
  }

  /** The filesystem the step reads and deletes from. */
  class FileSystem {
    var files: map<string, FileState>

    constructor (files: map<string, FileState>)
      ensures this.files == files
    {
      this.files := files;
    }

    /** FileUtils.deleteQuietly. */
    method Delete(name: string)
      modifies this
      ensures files == old(files) - {name}
    {
      files := files - {name};
    }
  }

  /** The outcome of `start`: configured, or a MisconfiguredException. */
  datatype StartResult = Started | Misconfigured(message: string)

  /** start's error for a target that is not a local-file resource. */
  const NotLocalFileMessage := "The target resource must be a local file resource"

  /** start's error for a local-file target without a path. */
  function PathNotSetMessage(resourceName: string): string
  {
    "The target resource " + resourceName + " needs its path set"
  }

  /** The deployed resource the target-resource setting names, if any. */
  function TargetResource(properties: Properties, deployedResources: map<string, Resource>): (res: Option<Resource>)
    ensures res.Some? <==> (SettingTargetResource in properties.values
                            && properties.values[SettingTargetResource] in deployedResources)
    ensures res.Some? ==> res.value == deployedResources[properties.values[SettingTargetResource]]
  {
    if SettingTargetResource in properties.values && properties.values[SettingTargetResource] in deployedResources
    then Some(deployedResources[properties.values[SettingTargetResource]])
    else None
  }

  class UnZip {
    var targetDirName: Option<string>
    var mustExist: bool
    var encoding: string
    var deleteOnComplete: bool
    var targetSubDir: bool
    var extractEmptyFiles: bool

    /** Field initialisers. */
    constructor ()
      ensures targetDirName == None && !mustExist && encoding == DefaultEncoding
      ensures !deleteOnComplete && !targetSubDir && extractEmptyFiles
    {
      targetDirName := None;
      mustExist := false;
      encoding := DefaultEncoding;
      deleteOnComplete := false;
      targetSubDir := false;
      extractEmptyFiles := true;
    }

    function CurrentSettings(): Settings
      reads this
      requires targetDirName.Some?
    {
      Settings(targetDirName.value, targetSubDir, mustExist, deleteOnComplete, extractEmptyFiles)
    }

    /** Reads the settings. The target resource must be a deployed local-file
        resource with a non-blank path; a non-blank relative path is joined on.
        Each boolean setting, when absent, keeps the field's current value. */
    method Start(properties: Properties, deployedResources: map<string, Resource>) returns (r: StartResult)
      modifies this
      ensures deleteOnComplete == Is(properties, SettingDeleteOnComplete, old(deleteOnComplete))
      ensures var resource := TargetResource(properties, deployedResources);
              resource.None? || !resource.value.LocalFile? ==>
                && r == Misconfigured(NotLocalFileMessage)
                && targetDirName == old(targetDirName)
      ensures var resource := TargetResource(properties, deployedResources);
              resource.Some? && resource.value.LocalFile? && IsBlankOrNull(resource.value.path) ==>
                && r == Misconfigured(PathNotSetMessage(resource.value.name))
                && targetDirName == resource.value.path
      ensures r != Started ==>
                && mustExist == old(mustExist) && encoding == old(encoding)
                && targetSubDir == old(targetSubDir) && extractEmptyFiles == old(extractEmptyFiles)
      ensures var resource := TargetResource(properties, deployedResources);
              resource.Some? && resource.value.LocalFile? && !IsBlankOrNull(resource.value.path) ==>
                var relative := Get(properties, SettingTargetRelativePath, "");
                && r == Started
                && targetDirName == Some(if IsBlank(relative) then resource.value.path.value
                                         else Join(resource.value.path.value, relative))
                && targetSubDir == Is(properties, SettingTargetSubDir, old(targetSubDir))
                && mustExist == Is(properties, SettingMustExist, old(mustExist))
                && extractEmptyFiles == Is(properties, SettingExtractEmptyFiles, old(extractEmptyFiles))
                && encoding == Get(properties, SettingEncoding, old(encoding))
    {
      deleteOnComplete := Is(properties, SettingDeleteOnComplete, deleteOnComplete);
      var targetResource: Option<Resource> := None;
      if SettingTargetResource in properties.values && properties.values[SettingTargetResource] in deployedResources {
        targetResource := Some(deployedResources[properties.values[SettingTargetResource]]);
      }
      assert targetResource == TargetResource(properties, deployedResources);
      if targetResource.None? || !targetResource.value.LocalFile? {
        return Misconfigured(NotLocalFileMessage);
      }
      targetDirName := targetResource.value.path;
      if IsBlankOrNull(targetDirName) {
        return Misconfigured(PathNotSetMessage(targetResource.value.name));
      }
      var targetRelativePath := Get(properties, SettingTargetRelativePath, "");
      if !IsBlank(targetRelativePath) {
        targetDirName := Some(Join(targetDirName.value, targetRelativePath));
      }
      ReadExtractionSettings(properties);
      return Started;
    }

    /** The settings start reads once the target directory is known. */
    method ReadExtractionSettings(properties: Properties)
      modifies this`targetSubDir, this`mustExist, this`extractEmptyFiles, this`encoding
      ensures targetSubDir == Is(properties, SettingTargetSubDir, old(targetSubDir))
      ensures mustExist == Is(properties, SettingMustExist, old(mustExist))
      ensures extractEmptyFiles == Is(properties, SettingExtractEmptyFiles, old(extractEmptyFiles))
      ensures encoding == Get(properties, SettingEncoding, old(encoding))
    {
      targetSubDir := Is(properties, SettingTargetSubDir, targetSubDir);
      mustExist := Is(properties, SettingMustExist, mustExist);
      extractEmptyFiles := Is(properties, SettingExtractEmptyFiles, extractEmptyFiles);
      encoding := Get(properties, SettingEncoding, encoding);
    }

    /** Extracts the archives the payload names and sends one message with the
        written paths and the inbound boundary flag; a null payload sends nothing. */
    method Handle(input: Message, unitOfWorkBoundaryReached: bool, flowParameters: map<string, string>,
                  fs: FileSystem, replaceTokens: (string, map<string, string>) -> string) returns (r: HandleResult)
      requires targetDirName.Some?
      modifies fs
      ensures (r, fs.files) == HandleSpec(CurrentSettings(), input, unitOfWorkBoundaryReached,
                                          flowParameters, old(fs.files), replaceTokens)
    {
      if input.payload.None? {
        return NothingSent;
      }
      var payload := input.payload.value;
      ghost var s := CurrentSettings();
      ghost var resolved := replaceTokens(s.targetDirName, MergeParameters(flowParameters, input.header));
      ghost var goal := ExtractAll(s, resolved, payload, fs.files, []);
      var filePaths: seq<string> := [];
      var i := 0;
      while i < |payload|
        invariant 0 <= i <= |payload|
        invariant ExtractAll(s, resolved, payload[i..], fs.files, filePaths) == goal
      {
        var fileName := payload[i];
        assert payload[i..][1..] == payload[i + 1..];
        if mustExist && fileName !in fs.files {
          return Failed(FileNotFound(fileName));
        }
        if fileName in fs.files {
          if fs.files[fileName].NotAnArchive? {
            return Failed(CannotOpenArchive(fileName));
          }
          var entries := fs.files[fileName].entries;
          var parms := MergeParameters(flowParameters, input.header);
          var targetDirNameResolved := replaceTokens(targetDirName.value, parms);
          var targetDir := if targetSubDir
                           then Join(targetDirNameResolved, RemoveExtension(FileName(fileName)))
                           else Normalize(targetDirNameResolved);
          filePaths := AppendEntryPaths(filePaths, targetDir, entries, extractEmptyFiles);
          if deleteOnComplete {
            fs.Delete(fileName);
          }
        }
        i := i + 1;
      }
      return Sent(OutboundMessage(filePaths, unitOfWorkBoundaryReached));
    }

    /** handle's loop over one archive's entries: the extracted entries'
        paths, in order, after `filePaths`. */
    static method AppendEntryPaths(filePaths: seq<string>, targetDir: string, entries: seq<ZipEntry>,
                                   extractEmptyFiles: bool) returns (paths: seq<string>)
      ensures paths == filePaths + EntryPaths(targetDir, entries, extractEmptyFiles)
    {
      paths := filePaths;
      var k := 0;
      while k < |entries|
        invariant 0 <= k <= |entries|
        invariant paths == filePaths + EntryPaths(targetDir, entries[..k], extractEmptyFiles)
      {
        var entry := entries[k];
        EntryPathsSnoc(targetDir, entries, k, extractEmptyFiles);
        if !entry.isDirectory && (extractEmptyFiles || entry.size > 0) {
          var path := ChildPath(targetDir, entry.name);
          paths := paths + [path];
        }
        k := k + 1;
      }
      assert entries[..k] == entries;
    }
  }
}

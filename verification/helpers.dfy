/**
  The engine's small helpers: making the directory an output file goes
  into, reading a collection item's `id`, and unpacking an archive.
 */
module Helpers {
  import opened Results
  import opened Paths
  import opened Json
  import opened Errors
  import opened FileSystem

  /**
    Makes the directory that will hold `p`. Nothing happens when `p` has no
    parent or the parent already exists (even as a file); otherwise every
    missing ancestor is created and a failure names the parent.
   */
  function CreateDirForPath(fs: Fs, p: Path): (r: Run)
    ensures r.fs.files == fs.files && r.fs.denied == fs.denied && fs.dirs <= r.fs.dirs
    ensures (|p| == 0 || Exists(fs, p[..|p| - 1])) ==> r == Run(Pass, fs)
    ensures r.outcome.Pass? ==> |p| == 0 || Exists(r.fs, p[..|p| - 1])
    ensures r.outcome.Fail? ==> |p| > 0 && r.outcome.error == DestCreationError(p[..|p| - 1])
    ensures forall x :: x in r.fs.dirs && x !in fs.dirs ==> 0 < |x| < |p| && p[..|x|] == x
    ensures Valid(fs) ==> Valid(r.fs)
  {
    match Parent(p)
    case None => Run(Pass, fs)
    case Some(parent) =>
      if Exists(fs, parent) then Run(Pass, fs)
      else
        var (ok, fs1) := MkdirAll(fs, parent);
        assert forall x :: x in fs1.dirs && x !in fs.dirs ==> p[..|x|] == parent[..|x|];
        if ok then Run(Pass, fs1) else Run(Fail(DestCreationError(parent)), fs1)
  }

  /** On a valid tree, making a missing parent succeeds exactly when nothing on the way to it is blocked. */
  lemma CreateDirForPathSucceedsIff(fs: Fs, p: Path)
    requires Valid(fs) && |p| > 0 && !Exists(fs, p[..|p| - 1])
    ensures CreateDirForPath(fs, p).outcome.Pass? <==> !Blocked(fs, p[..|p| - 1])
  {
    MkdirAllSucceedsIff(fs, p[..|p| - 1]);
  }

  /** Calling `create_dir_for_path` twice has the same effect and result as calling it once. */
  lemma CreateDirForPathIdempotent(fs: Fs, p: Path)
    ensures CreateDirForPath(CreateDirForPath(fs, p).fs, p) == CreateDirForPath(fs, p)
  {
    if |p| > 0 && !Exists(fs, p[..|p| - 1]) {
      MkdirAllIdempotent(fs, p[..|p| - 1]);
    }
  }

  /**
    The `id` of collection item `item` as text. A non-object item or one
    without an `id` is `NoIDField`; an `id` that is a list, an object or
    null is `IDParseError`; any scalar is accepted in its text form.
   */
  function GetIdString(item: Value, collection: string): (r: Result<string, PacdError>)
    ensures r == Err(NoIDField(collection)) <==> !item.Object? || "id" !in item.fields
    ensures r == Err(IDParseError(collection)) <==>
      item.Object? && "id" in item.fields && (item.fields["id"].Null? || item.fields["id"].List? || item.fields["id"].Object?)
    ensures r.Ok? ==> item.Object? && "id" in item.fields
    ensures r.Ok? && item.fields["id"].Str? ==> r.value == item.fields["id"].s
    ensures r.Ok? && item.fields["id"].Int? ==> ParseInt(r.value) == Some(item.fields["id"].i) && CanonicalInt(r.value)
    ensures item.Object? && "id" in item.fields && item.fields["id"].Bool? ==> r == Ok(if item.fields["id"].b then "true" else "false")
  {
    if !item.Object? || "id" !in item.fields then Err(NoIDField(collection))
    else
      match ScalarText(item.fields["id"])
      case Some(text) => Ok(text)
      case None => Err(IDParseError(collection))
  }

  /** The string `"1"` and the number `1` give the same id, so such items write the same file. */
  lemma StringAndNumberIdsCoincide(coll: string)
    ensures GetIdString(Object(map["id" := Str("1")]), coll) == GetIdString(Object(map["id" := Int(1)]), coll)
  {
    assert NatToString(1) == "1";
  }

  /** One entry of a tar archive, with its path relative to the extraction directory. */
  datatype TarEntry = TarDir(path: Path) | TarFile(path: Path, data: Bytes)

  /** The archive formats, as the decoders of the tar and gzip libraries; `None` is a corrupt stream. */
  datatype Archiver = Archiver(untar: Bytes -> Option<seq<TarEntry>>, gunzip: Bytes -> Option<Bytes>)

  /** `File::open` for reading: regular files and directories can be opened when permitted. */
  predicate CanOpenForRead(fs: Fs, p: Path)
  {
    (p == [] || p in fs.files || p in fs.dirs) && p !in fs.denied
  }

  /** `create(true).truncate(true)` followed by writing `data`: the file afterwards holds exactly `data`. */
  function WriteReplacing(fs: Fs, p: Path, data: Bytes): (r: Option<Fs>)
    ensures r.Some? <==> CanOpenForWrite(fs, p)
    ensures r.Some? ==> r.value.dirs == fs.dirs && r.value.denied == fs.denied && r.value.files.Keys == fs.files.Keys + {p}
    ensures r.Some? ==> r.value.files[p] == data
    ensures r.Some? && Valid(fs) ==> Valid(r.value)
  {
    if CanOpenForWrite(fs, p) then Some(fs.(files := fs.files[p := data])) else None
  }

  /** Extracting one entry under `dst`, creating the directories it needs. */
  function ExtractEntry(fs: Fs, dst: Path, entry: TarEntry): (r: (bool, Fs))
    ensures Grows(fs, r.1)
    ensures r.0 && entry.TarFile? ==> dst + entry.path in r.1.files && r.1.files[dst + entry.path] == entry.data
    ensures r.0 && entry.TarDir? ==> DirExists(r.1, dst + entry.path)
    ensures Valid(fs) ==> Valid(r.1)
  {
    match entry
    case TarDir(p) => MkdirAll(fs, dst + p)
    case TarFile(p, data) =>
      var target := dst + p;
      if |target| == 0 then (false, fs)
      else
        var (ok, fs1) := MkdirAll(fs, target[..|target| - 1]);
        if !ok then (false, fs1)
        else
          match WriteReplacing(fs1, target, data)
          case None => (false, fs1)
          case Some(fs2) => (true, fs2)
  }

  /**
    One pass of the extraction over entries `i..` in archive order, stopping
    at the first failure. The tar library holds directory entries back until
    every other entry is written, so the first pass (`dirPass` false) takes
    the file entries and the second the directory entries.
   */
  function ExtractFrom(fs: Fs, dst: Path, entries: seq<TarEntry>, i: nat, dirPass: bool): (r: (bool, Fs))
    requires i <= |entries|
    ensures Grows(fs, r.1)
    ensures r.0 && !dirPass ==> forall j :: i <= j < |entries| && entries[j].TarFile? ==> dst + entries[j].path in r.1.files
    ensures r.0 && dirPass ==> forall j :: i <= j < |entries| && entries[j].TarDir? ==> DirExists(r.1, dst + entries[j].path)
    ensures (forall j :: i <= j < |entries| ==> entries[j].TarDir? != dirPass) ==> r == (true, fs)
    ensures Valid(fs) ==> Valid(r.1)
    decreases |entries| - i
  {
    if i == |entries| then (true, fs)
    else if entries[i].TarDir? != dirPass then ExtractFrom(fs, dst, entries, i + 1, dirPass)
    else
      var (ok, fs1) := ExtractEntry(fs, dst, entries[i]);
      if !ok then (false, fs1) else ExtractFrom(fs1, dst, entries, i + 1, dirPass)
  }

  /**
    `unpack_archive_to`: the tar library first makes `dst` with
    `create_dir_all` when nothing exists there, before it reads the archive;
    then it extracts the file entries and after them the directory entries.
    Any failure, a corrupt archive included, names `dst`.
   */
  function UnpackArchiveTo(fs: Fs, archive: Option<seq<TarEntry>>, dst: Path): (r: Run)
    ensures Grows(fs, r.fs)
    ensures r.outcome.Fail? ==> r.outcome.error == DeflateError(dst)
    ensures archive.None? ==> r.outcome == Fail(DeflateError(dst))
    ensures Exists(fs, dst) && archive.None? ==> r.fs == fs
    ensures !Exists(fs, dst) ==> (dst in r.fs.dirs <==> MkdirAll(fs, dst).0)
    ensures Exists(fs, dst) && archive == Some([]) ==> r == Run(Pass, fs)
    ensures r.outcome.Pass? && dst !in fs.files ==> DirExists(r.fs, dst)
    ensures r.outcome.Pass? ==> forall j :: 0 <= j < |archive.value| && archive.value[j].TarFile? ==> dst + archive.value[j].path in r.fs.files
    ensures r.outcome.Pass? ==> forall j :: 0 <= j < |archive.value| && archive.value[j].TarDir? ==> DirExists(r.fs, dst + archive.value[j].path)
    ensures Valid(fs) ==> Valid(r.fs)
  {
    var (made, fs1) := if Exists(fs, dst) then (true, fs) else MkdirAll(fs, dst);
    if !made then Run(Fail(DeflateError(dst)), fs1)
    else
      match archive
      case None => Run(Fail(DeflateError(dst)), fs1)
      case Some(entries) =>
        var (filesOk, fs2) := ExtractFrom(fs1, dst, entries, 0, false);
        if !filesOk then Run(Fail(DeflateError(dst)), fs2)
        else
          var (dirsOk, fs3) := ExtractFrom(fs2, dst, entries, 0, true);
          if dirsOk then Run(Pass, fs3) else Run(Fail(DeflateError(dst)), fs3)
  }

  /** On a valid tree, unpacking into a missing `dst` that nothing blocks leaves `dst` a directory even when the archive is corrupt. */
  lemma UnpackMakesDestination(fs: Fs, archive: Option<seq<TarEntry>>, dst: Path)
    requires Valid(fs) && !Exists(fs, dst) && !Blocked(fs, dst)
    ensures DirExists(UnpackArchiveTo(fs, archive, dst).fs, dst)
  {
    MkdirAllSucceedsIff(fs, dst);
  }

  /** The archive decoded from the bytes of `src`: a directory opens but cannot be read, so it decodes to nothing. */
  function DecodeArchive(fs: Fs, a: Archiver, src: Path, gzipped: bool): Option<seq<TarEntry>>
  {
    match ReadFile(fs, src)
    case None => None
    case Some(bytes) =>
      if !gzipped then a.untar(bytes)
      else match a.gunzip(bytes)
        case None => None
        case Some(tar) => a.untar(tar)
  }

  /**
    `unpack_archive`: opens `src` first, then dispatches on its extension:
    `tar` is a plain tar archive, `gz` a gzip-compressed one, and any other
    extension (or none) is accepted silently without writing anything.
   */
  function UnpackArchive(fs: Fs, a: Archiver, src: Path, dst: Path): (r: Run)
    ensures !CanOpenForRead(fs, src) ==> r == Run(Fail(SrcReadError(src)), fs)
    ensures CanOpenForRead(fs, src) && Extension(src) != Some("tar") && Extension(src) != Some("gz") ==> r == Run(Pass, fs)
    ensures r.outcome.Fail? ==> r.outcome.error == SrcReadError(src) || r.outcome.error == DeflateError(dst)
    ensures r.outcome.Fail? && CanOpenForRead(fs, src) ==> r.outcome.error == DeflateError(dst)
    ensures Extension(src) == Some("gz") && CanOpenForRead(fs, src) && (ReadFile(fs, src).None? || a.gunzip(fs.files[src]).None?) ==>
      r.outcome == Fail(DeflateError(dst)) && (Exists(fs, dst) ==> r.fs == fs)
    ensures CanOpenForRead(fs, src) && Extension(src) == Some("tar") ==>
      r == UnpackArchiveTo(fs, if src in fs.files then a.untar(fs.files[src]) else None, dst)
    ensures CanOpenForRead(fs, src) && Extension(src) == Some("gz") ==>
      r == UnpackArchiveTo(fs, if src in fs.files && a.gunzip(fs.files[src]).Some? then a.untar(a.gunzip(fs.files[src]).value) else None, dst)
    ensures Grows(fs, r.fs)
    ensures Valid(fs) ==> Valid(r.fs)
  {
    var ext := match Extension(src) case Some(x) => x case None => "";
    if !CanOpenForRead(fs, src) then Run(Fail(SrcReadError(src)), fs)
    else if ext == "tar" then UnpackArchiveTo(fs, DecodeArchive(fs, a, src, false), dst)
    else if ext == "gz" then UnpackArchiveTo(fs, DecodeArchive(fs, a, src, true), dst)
    else Run(Pass, fs)
  }

  /** A `.gz` file whose stream inflates to the bytes of a `.tar` file unpacks exactly as that `.tar` file does. */
  lemma GzippedTarUnpacksAsTar(fs: Fs, a: Archiver, tarSrc: Path, gzSrc: Path, dst: Path)
    requires tarSrc in fs.files && tarSrc !in fs.denied && Extension(tarSrc) == Some("tar")
    requires gzSrc in fs.files && gzSrc !in fs.denied && Extension(gzSrc) == Some("gz")
    requires a.gunzip(fs.files[gzSrc]) == Some(fs.files[tarSrc])
    ensures UnpackArchive(fs, a, gzSrc, dst) == UnpackArchive(fs, a, tarSrc, dst)
  {
  }
}

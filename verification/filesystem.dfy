/**
  The filesystem the engine reads and writes: regular files with their
  bytes, directories, and the paths at which the process is not permitted
  to create, open or read anything. The root `[]` is always a directory.
 */
module FileSystem {
  import opened Results
  import opened Paths
  import opened Errors

  newtype byte = x: int | 0 <= x < 256

  type Bytes = seq<byte>

  datatype Fs = Fs(files: map<Path, Bytes>, dirs: set<Path>, denied: set<Path>)

  /** The outcome of a fallible step and the filesystem it leaves; a step that fails keeps what it changed before failing. */
  datatype Run = Run(outcome: Outcome<PacdError>, fs: Fs)

  predicate DirExists(fs: Fs, d: Path)
  {
    d == [] || d in fs.dirs
  }

  /** `Path::exists`: true for files as well as directories. */
  predicate Exists(fs: Fs, p: Path)
  {
    p == [] || p in fs.files || p in fs.dirs
  }

  /** A tree: nothing is both a file and a directory, and everything sits in an existing directory. */
  predicate Valid(fs: Fs)
  {
    && fs.files.Keys !! fs.dirs
    && (forall p :: p in fs.files ==> |p| > 0 && DirExists(fs, p[..|p| - 1]))
    && (forall d :: d in fs.dirs ==> |d| > 0 && DirExists(fs, d[..|d| - 1]))
  }

  /** Nothing is removed: files and directories only accumulate and permissions do not change. */
  predicate Grows(fs: Fs, fs': Fs)
  {
    fs.files.Keys <= fs'.files.Keys && fs.dirs <= fs'.dirs && fs'.denied == fs.denied
  }

  /** Opening `p` for writing with `create(true)` succeeds: it is not a directory, is permitted, and its directory exists. */
  predicate CanOpenForWrite(fs: Fs, p: Path)
  {
    |p| > 0 && p !in fs.denied && p !in fs.dirs && DirExists(fs, p[..|p| - 1])
  }

  /** The bytes at `p`, empty when there is no file there. */
  function Contents(fs: Fs, p: Path): Bytes
  {
    if p in fs.files then fs.files[p] else []
  }

  /** The bytes of the regular file `p`, when it may be read. */
  function ReadFile(fs: Fs, p: Path): (r: Option<Bytes>)
    ensures r.Some? <==> p in fs.files && p !in fs.denied
    ensures r.Some? ==> r.value == fs.files[p]
  {
    if p in fs.files && p !in fs.denied then Some(fs.files[p]) else None
  }

  /**
    Writing `data` from the start of a file that held `prior`, without
    truncating it: the new bytes replace a prefix and any longer prior tail
    stays.
   */
  function Overlay(prior: Bytes, data: Bytes): (r: Bytes)
    ensures |r| == if |prior| > |data| then |prior| else |data|
    ensures r[..|data|] == data
    ensures forall k :: |data| <= k < |prior| ==> r[k] == prior[k]
    ensures r == data <==> |prior| <= |data|
  {
    if |prior| > |data| then data + prior[|data|..] else data
  }

  /** A stale tail survives: writing `xy` over `abcdef` leaves `xycdef`. */
  lemma OverlayKeepsStaleTail()
    ensures Overlay([97, 98, 99, 100, 101, 102], [120, 121]) == [120, 121, 99, 100, 101, 102]
  {
    assert Overlay([97, 98, 99, 100, 101, 102], [120, 121]) == [120, 121] + [99, 100, 101, 102];
  }

  /** `OpenOptions::new().write(true).create(true)` followed by `write_all(data)`. */
  function WriteInPlace(fs: Fs, p: Path, data: Bytes): (r: Option<Fs>)
    ensures r.Some? <==> CanOpenForWrite(fs, p)
    ensures r.Some? ==> r.value.dirs == fs.dirs && r.value.denied == fs.denied
    ensures r.Some? ==> p in r.value.files && r.value.files[p] == Overlay(Contents(fs, p), data)
    ensures r.Some? ==> forall q :: q != p ==> Contents(r.value, q) == Contents(fs, q) && (q in r.value.files <==> q in fs.files)
    ensures r.Some? && Valid(fs) ==> Valid(r.value)
  {
    if CanOpenForWrite(fs, p) then Some(fs.(files := fs.files[p := Overlay(Contents(fs, p), data)]))
    else None
  }

  /**
    `fs::copy(from, to)`: the source must be a readable regular file and the
    target is created or truncated. The target is truncated before the
    source is read, so copying a file onto itself empties it.
   */
  function CopyFile(fs: Fs, from: Path, to: Path): (r: Option<Fs>)
    ensures r.Some? <==> ReadFile(fs, from).Some? && CanOpenForWrite(fs, to)
    ensures r.Some? ==> r.value.dirs == fs.dirs && r.value.denied == fs.denied
    ensures r.Some? ==> to in r.value.files && r.value.files[to] == (if to == from then [] else fs.files[from])
    ensures r.Some? ==> forall q :: q != to ==> Contents(r.value, q) == Contents(fs, q) && (q in r.value.files <==> q in fs.files)
    ensures r.Some? && Valid(fs) ==> Valid(r.value)
  {
    match ReadFile(fs, from)
    case None => None
    case Some(content) =>
      if CanOpenForWrite(fs, to) then Some(fs.(files := fs.files[to := if to == from then [] else content]))
      else None
  }

  /** Some ancestor of `d`, or `d` itself, is missing and cannot be made a directory: it is a file or not permitted. */
  predicate Blocked(fs: Fs, d: Path)
  {
    exists k :: 1 <= k <= |d| && d[..k] !in fs.dirs && (d[..k] in fs.files || d[..k] in fs.denied)
  }

  /**
    `fs::create_dir_all(d)`: makes every missing directory on the way to
    `d`, outermost first, and stops at the first one it cannot make; those
    made before the failure remain.
   */
  function MkdirAll(fs: Fs, d: Path): (r: (bool, Fs))
    ensures r.1.files == fs.files && r.1.denied == fs.denied && fs.dirs <= r.1.dirs
    ensures forall x :: x in r.1.dirs && x !in fs.dirs ==> 0 < |x| <= |d| && d[..|x|] == x
    ensures r.0 ==> DirExists(r.1, d)
    ensures !r.0 ==> d !in r.1.dirs
    ensures Valid(fs) ==> Valid(r.1)
    decreases |d|
  {
    if d == [] || d in fs.dirs then (true, fs)
    else
      var (ok, fs1) := MkdirAll(fs, d[..|d| - 1]);
      if !ok then (false, fs1)
      else if d in fs1.files || d in fs1.denied then (false, fs1)
      else (true, fs1.(dirs := fs1.dirs + {d}))
  }

  /** In a valid tree every ancestor of a directory is a directory. */
  lemma {:induction false} DirAncestorsExist(fs: Fs, d: Path, k: nat)
    requires Valid(fs) && d in fs.dirs && 1 <= k <= |d|
    ensures d[..k] in fs.dirs
    decreases |d| - k
  {
    if k == |d| {
      assert d[..k] == d;
    } else {
      assert d[..|d| - 1] != [];
      DirAncestorsExist(fs, d[..|d| - 1], k);
      assert d[..|d| - 1][..k] == d[..k];
    }
  }

  /** On a valid tree, `create_dir_all` succeeds exactly when nothing on the way is blocked. */
  lemma {:induction false} MkdirAllSucceedsIff(fs: Fs, d: Path)
    requires Valid(fs)
    ensures MkdirAll(fs, d).0 <==> !Blocked(fs, d)
    decreases |d|
  {
    if d == [] {
    } else if d in fs.dirs {
      forall k | 1 <= k <= |d|
        ensures d[..k] in fs.dirs
      {
        DirAncestorsExist(fs, d, k);
      }
    } else {
      var d' := d[..|d| - 1];
      MkdirAllSucceedsIff(fs, d');
      forall k | 1 <= k <= |d'|
        ensures d'[..k] == d[..k]
      {
      }
      assert d[..|d|] == d;
      if Blocked(fs, d') {
        var k :| 1 <= k <= |d'| && d'[..k] !in fs.dirs && (d'[..k] in fs.files || d'[..k] in fs.denied);
        assert d[..k] == d'[..k];
      }
      if Blocked(fs, d) && !Blocked(fs, d') {
        var k :| 1 <= k <= |d| && d[..k] !in fs.dirs && (d[..k] in fs.files || d[..k] in fs.denied);
        assert k == |d|;
      }
    }
  }

  /** Running `create_dir_all` again on what it left changes nothing and gives the same answer, whether it succeeded or failed. */
  lemma {:induction false} MkdirAllIdempotent(fs: Fs, d: Path)
    ensures MkdirAll(MkdirAll(fs, d).1, d) == MkdirAll(fs, d)
    decreases |d|
  {
    if d != [] && d !in fs.dirs {
      MkdirAllIdempotent(fs, d[..|d| - 1]);
    }
  }
}

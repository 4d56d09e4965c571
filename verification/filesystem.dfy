/** An abstract file system: the part of the operating system the store's
    Go code calls through the os and io/ioutil packages.

    A file system is a finite map from paths to nodes.  A path is the
    sequence of its segments relative to the process's working directory,
    which is the empty path `[]` (Go's "."); a node is a directory or a
    regular file holding bytes.  Each call is a total function returning the
    new map or the errno the system call would report. */
module FileSystem {
  import opened Results
  import opened Names

  type Byte = b: int | 0 <= b < 256

  type Bytes = seq<Byte>

  type Path = seq<string>

  datatype Node = Dir | File(data: Bytes)

  type FS = map<Path, Node>

  /** The errors the modelled calls can report. */
  datatype Errno = ENOENT | ENOTDIR | EISDIR | EEXIST | EINVAL

  function Parent(p: Path): Path
    requires p != []
  {
    p[..|p| - 1]
  }

  predicate IsPrefix(a: Path, b: Path)
  {
    |a| <= |b| && b[..|a|] == a
  }

  /** The shape every real directory tree has: the working directory exists,
      and every other entry sits in an existing directory. */
  predicate Wf(fs: FS)
  {
    && [] in fs && fs[[]] == Dir
    && forall p :: p in fs && p != [] ==> Parent(p) in fs && fs[Parent(p)] == Dir
  }

  /** No segment of `p` that exists is a regular file. */
  predicate NoFileOnPath(fs: FS, p: Path)
  {
    forall k :: 0 <= k <= |p| && p[..k] in fs ==> fs[p[..k]] == Dir
  }

  /** os.Stat: the node at `p`, or the errno the path walk stops with --
      ENOTDIR when a segment on the way is a regular file, ENOENT when a
      segment is missing. */
  function Stat(fs: FS, p: Path): (r: Result<Node, Errno>)
    ensures r.Ok? <==> p in fs
    ensures r.Ok? ==> r.value == fs[p]
    ensures r.Err? ==> r.error == ENOENT || r.error == ENOTDIR
    decreases |p|
  {
    if p in fs then Ok(fs[p])
    else if p == [] then Err(ENOENT)
    else
      match Stat(fs, Parent(p))
      case Ok(Dir) => Err(ENOENT)
      case Ok(File(_)) => Err(ENOTDIR)
      case Err(e) => Err(e)
  }

  /** Why a new entry cannot be created at `p`, or None when the parent of
      `p` is an existing directory. */
  function CreateError(fs: FS, p: Path): (r: Option<Errno>)
    ensures r.None? <==> p != [] && Parent(p) in fs && fs[Parent(p)] == Dir
  {
    if p == [] then Some(ENOENT)
    else
      match Stat(fs, Parent(p))
      case Ok(Dir) => None
      case Ok(File(_)) => Some(ENOTDIR)
      case Err(e) => Some(e)
  }

  /** os.Mkdir. */
  function Mkdir(fs: FS, p: Path): (r: Result<FS, Errno>)
    ensures r.Ok? <==> p !in fs && CreateError(fs, p).None?
    ensures r.Ok? ==> r.value == fs[p := Dir]
  {
    if p in fs then Err(EEXIST)
    else
      match CreateError(fs, p)
      case Some(e) => Err(e)
      case None => Ok(fs[p := Dir])
  }

  lemma PrefixOfParent(q: Path, p: Path)
    requires p != [] && IsPrefix(q, Parent(p))
    ensures IsPrefix(q, p) && q != p
  {
  }

  /** os.MkdirAll: succeeds at once when `p` is a directory, fails with
      ENOTDIR when it is a file, and otherwise creates the parent chain (only
      for paths of two or more segments, as the Go code only recurses when
      the parent is not the working directory) and then `p` itself.  Go's
      re-check after a failed Mkdir only matters when another process creates
      the directory concurrently, which this model does not have. */
  function MkdirAll(fs: FS, p: Path): (r: Result<FS, Errno>)
    ensures r.Ok? ==> p in r.value && r.value[p] == Dir
    ensures r.Ok? ==> forall q :: q in fs ==> q in r.value && r.value[q] == fs[q]
    ensures r.Ok? ==> forall q :: q in r.value && q !in fs ==> IsPrefix(q, p) && r.value[q] == Dir
    decreases |p|
  {
    match Stat(fs, p)
    case Ok(Dir) => Ok(fs)
    case Ok(File(_)) => Err(ENOTDIR)
    case Err(_) =>
      if |p| <= 1 then Mkdir(fs, p)
      else
        match MkdirAll(fs, Parent(p))
        case Err(e) => Err(e)
        case Ok(fs1) =>
          assert forall q :: q in fs1 && q !in fs ==> IsPrefix(q, p) by {
            forall q | q in fs1 && q !in fs
              ensures IsPrefix(q, p)
            {
              PrefixOfParent(q, p);
            }
          }
          Mkdir(fs1, p)
  }

  /** os.WriteFile: truncates an existing regular file or creates a new one
      in an existing directory; a directory at `p` gives EISDIR. */
  function WriteFile(fs: FS, p: Path, data: Bytes): (r: Result<FS, Errno>)
    ensures r.Ok? <==> if p in fs then fs[p].File? else CreateError(fs, p).None?
    ensures r.Ok? ==> r.value == fs[p := File(data)]
  {
    if p in fs then
      if fs[p].Dir? then Err(EISDIR) else Ok(fs[p := File(data)])
    else
      match CreateError(fs, p)
      case Some(e) => Err(e)
      case None => Ok(fs[p := File(data)])
  }

  /** os.Rename of a regular file, the only way the store renames: the
      file replaces a regular file at `dst` or is created in `dst`'s
      directory.  On Unix, os.Rename first checks `dst` and refuses a
      directory there with EEXIST. */
  function RenameFile(fs: FS, src: Path, dst: Path): (r: Result<FS, Errno>)
    requires src in fs && fs[src].File?
    ensures r.Ok? <==> src == dst || if dst in fs then fs[dst].File? else CreateError(fs, dst).None?
    ensures r.Ok? && src != dst ==> r.value == (fs - {src})[dst := fs[src]]
    ensures src != dst && dst in fs && fs[dst] == Dir ==> r == Err(EEXIST)
  {
    if src == dst then Ok(fs)
    else if dst in fs then
      if fs[dst].Dir? then Err(EEXIST) else Ok((fs - {src})[dst := fs[src]])
    else
      match CreateError(fs, dst)
      case Some(e) => Err(e)
      case None => Ok((fs - {src})[dst := fs[src]])
  }

  /** ioutil.ReadFile. */
  function ReadFile(fs: FS, p: Path): (r: Result<Bytes, Errno>)
    ensures r.Ok? <==> p in fs && fs[p].File?
    ensures r.Ok? ==> r.value == fs[p].data
  {
    match Stat(fs, p)
    case Ok(File(b)) => Ok(b)
    case Ok(Dir) => Err(EISDIR)
    case Err(e) => Err(e)
  }

  /** os.RemoveAll: removes `p` and everything below it; a missing `p` is
      not an error.  The working directory itself (a path ending in ".")
      gives EINVAL, and a path running through a regular file gives ENOTDIR. */
  function RemoveAll(fs: FS, p: Path): (r: Result<FS, Errno>)
    ensures r.Ok? ==> forall q :: q in r.value <==> q in fs && !IsPrefix(p, q)
    ensures r.Ok? ==> forall q :: q in r.value ==> r.value[q] == fs[q]
  {
    if p == [] then Err(EINVAL)
    else
      match Stat(fs, p)
      case Err(ENOTDIR) => Err(ENOTDIR)
      case _ => Ok(map q | q in fs && !IsPrefix(p, q) :: fs[q])
  }

  /** The names of the entries directly inside `p`. */
  function Children(fs: FS, p: Path): set<string>
  {
    set q | q in fs.Keys && |q| == |p| + 1 && q[..|p|] == p :: q[|p|]
  }

  lemma ChildrenSpec(fs: FS, p: Path)
    ensures forall n :: n in Children(fs, p) <==> p + [n] in fs
  {
    forall n | p + [n] in fs
      ensures n in Children(fs, p)
    {
      var q := p + [n];
      assert q[..|p|] == p && q[|p|] == n;
    }
    forall n | n in Children(fs, p)
      ensures p + [n] in fs
    {
      var q :| q in fs.Keys && |q| == |p| + 1 && q[..|p|] == p && q[|p|] == n;
      assert q == p + [n];
    }
  }

  /** ioutil.ReadDir: the entry names of a directory, sorted by name. */
  function ReadDir(fs: FS, p: Path): (r: Result<seq<string>, Errno>)
    ensures r.Ok? <==> p in fs && fs[p] == Dir
    ensures r.Ok? ==> StrictlySorted(r.value)
    ensures r.Ok? ==> forall n :: n in r.value <==> p + [n] in fs
  {
    match Stat(fs, p)
    case Ok(Dir) =>
      ChildrenSpec(fs, p);
      Ok(SortedSeq(Children(fs, p)))
    case Ok(File(_)) => Err(ENOTDIR)
    case Err(e) => Err(e)
  }

  // ---- facts about well-formed trees ----

  /** Every proper ancestor of an existing entry is an existing directory. */
  lemma {:induction false} WfAncestor(fs: FS, p: Path, q: Path)
    requires Wf(fs) && q in fs
    ensures IsPrefix(p, q) && p != q ==> p in fs && fs[p] == Dir
    decreases |q|
  {
    if IsPrefix(p, q) && p != q {
      var pq := Parent(q);
      if pq != p {
        assert pq[..|p|] == q[..|p|];
        WfAncestor(fs, p, pq);
      }
    }
  }

  /** Under Wf, MkdirAll fails exactly when a segment of the path is a
      regular file. */
  lemma {:induction false} MkdirAllOk(fs: FS, p: Path)
    requires Wf(fs)
    ensures MkdirAll(fs, p).Ok? <==> NoFileOnPath(fs, p)
    decreases |p|
  {
    assert p[..|p|] == p;
    if p in fs {
      forall k | 0 <= k < |p|
        ensures p[..k] in fs && fs[p[..k]] == Dir
      {
        WfAncestor(fs, p[..k], p);
      }
    } else if |p| == 1 {
      assert Parent(p) == [];
    } else if |p| > 1 {
      MkdirAllOk(fs, Parent(p));
      assert forall k :: 0 <= k <= |Parent(p)| ==> Parent(p)[..k] == p[..k];
      if MkdirAll(fs, Parent(p)).Ok? {
        var fs1 := MkdirAll(fs, Parent(p)).value;
        if p in fs1 {
          PrefixOfParent(p, p);
        }
      }
    }
  }

  lemma MkdirAllPreservesWf(fs: FS, p: Path)
    requires Wf(fs) && MkdirAll(fs, p).Ok?
    ensures Wf(MkdirAll(fs, p).value)
  {
  }

  lemma WriteFilePreservesWf(fs: FS, p: Path, data: Bytes)
    requires Wf(fs) && WriteFile(fs, p, data).Ok?
    ensures Wf(WriteFile(fs, p, data).value)
  {
  }

  lemma RenameFilePreservesWf(fs: FS, src: Path, dst: Path)
    requires Wf(fs) && src in fs && fs[src].File? && RenameFile(fs, src, dst).Ok?
    ensures Wf(RenameFile(fs, src, dst).value)
  {
  }

  lemma RemoveAllPreservesWf(fs: FS, p: Path)
    requires Wf(fs) && RemoveAll(fs, p).Ok?
    ensures Wf(RemoveAll(fs, p).value)
  {
  }

  /** Under Wf, removing a missing path changes nothing, and removing a
      regular file removes that one entry. */
  lemma RemoveAllLeaf(fs: FS, p: Path)
    requires Wf(fs) && p != [] && (p !in fs || fs[p].File?) && Stat(fs, p) != Err(ENOTDIR)
    ensures RemoveAll(fs, p) == Ok(fs - {p})
  {
    var m := map q | q in fs && !IsPrefix(p, q) :: fs[q];
    assert RemoveAll(fs, p) == Ok(m);
    forall q | q in fs
      ensures IsPrefix(p, q) <==> q == p
    {
      WfAncestor(fs, p, q);
    }
    assert m.Keys == (fs - {p}).Keys;
    assert forall q :: q in m ==> m[q] == (fs - {p})[q];
    assert m == fs - {p};
  }

  /** Stat of `p` depends only on the entries at `p` and its ancestors. */
  lemma {:induction false} StatLocal(fs1: FS, fs2: FS, p: Path)
    requires forall k :: 0 <= k <= |p| ==> (p[..k] in fs1 <==> p[..k] in fs2)
    requires forall k :: 0 <= k <= |p| && p[..k] in fs1 ==> fs1[p[..k]] == fs2[p[..k]]
    ensures Stat(fs1, p) == Stat(fs2, p)
    decreases |p|
  {
    assert p[..|p|] == p;
    if p !in fs1 && p != [] {
      assert forall k :: 0 <= k <= |Parent(p)| ==> Parent(p)[..k] == p[..k];
      StatLocal(fs1, fs2, Parent(p));
    }
  }
}

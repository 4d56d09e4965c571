/** The file-backed document store of projects/mydatabase/main.go.

    A Driver owns a root directory and a registry from collection names to
    lock ids.  Every operation is a pure function of the Driver and the file
    system (and, for Write and Read, of the document codec) that returns its
    error together with the new Driver and file system. */
module Store {
  import opened Results
  import opened FileSystem

  /** Identity of one *sync.Mutex; a fresh mutex gets a fresh id. */
  type LockId = nat

  /** The Driver struct: cleaned root directory, the per-collection mutexes,
      and the id the next freshly made mutex receives. */
  datatype Driver = Driver(dir: Path, mutexes: map<string, LockId>, nextLock: LockId)

  /** The registry hands out pairwise distinct mutexes, all made before
      `nextLock`. */
  predicate RegistryOk(d: Driver)
  {
    && (forall c :: c in d.mutexes ==> d.mutexes[c] < d.nextLock)
    && (forall c1, c2 :: c1 in d.mutexes && c2 in d.mutexes && c1 != c2 ==> d.mutexes[c1] != d.mutexes[c2])
  }

  /** The registry of `d'` extends that of `d` by `c`, changing no entry. */
  predicate RegistryGrowsBy(d: Driver, d': Driver, c: string)
  {
    && d'.dir == d.dir
    && d'.mutexes.Keys == d.mutexes.Keys + {c}
    && forall k :: k in d.mutexes ==> d'.mutexes[k] == d.mutexes[k]
  }

  /** The errors the store returns.  Write and Read report the same two
      key errors, both with "unable to read" in their text. */
  datatype Error =
    | MissingCollection          // "missing collection - unable to read!"
    | MissingResource            // "missing resource - unable to read (no name)!"
    | Io(errno: Errno)           // an error passed up from the os package
    | NotFound(path: Path)       // "unable to find file or directory named ..."
    | MarshalFailed              // json.MarshalIndent failed
    | UnmarshalFailed            // json.Unmarshal failed

  /** What a mutating call leaves behind: its error (None for nil), the
      Driver and the file system. */
  datatype Effect = Effect(err: Option<Error>, driver: Driver, fs: FS)

  /** The two results of the package-level stat helper. */
  datatype StatInfo = StatInfo(fi: Option<Node>, err: Option<Errno>)

  datatype Grant = Grant(lock: LockId, driver: Driver)

  const JsonExt := ".json"
  const TempExt := ".temp"
  const Newline: Byte := 10

  // ---- paths ----

  /** filepath.Join of `base` and further names: empty names are dropped. */
  function Join(base: Path, names: seq<string>): (p: Path)
    ensures (forall i :: 0 <= i < |names| ==> names[i] != "") ==> p == base + names
    decreases |names|
  {
    if names == [] then base
    else
      var front := Join(base, names[..|names| - 1]);
      var last := names[|names| - 1];
      assert names == names[..|names| - 1] + [last];
      if last == "" then front else front + [last]
  }

  /** The path whose text is that of `p` followed by `ext`; the working
      directory "." becomes the name "." + ext. */
  function WithSuffix(p: Path, ext: string): Path
  {
    if p == [] then ["." + ext] else Parent(p) + [p[|p| - 1] + ext]
  }

  function CollectionDir(d: Driver, c: string): Path
  {
    Join(d.dir, [c])
  }

  /** `<root>/<c>/<r>`, the path without extension. */
  function BarePath(d: Driver, c: string, r: string): Path
  {
    Join(d.dir, [c, r])
  }

  /** `<root>/<c>/<r>.json`, where a record lives. */
  function RecordPath(d: Driver, c: string, r: string): Path
  {
    WithSuffix(BarePath(d, c, r), JsonExt)
  }

  /** `<root>/<c>/<r>.json.temp`, where Write stages a record. */
  function TempPath(d: Driver, c: string, r: string): Path
  {
    WithSuffix(RecordPath(d, c, r), TempExt)
  }

  /** The on-disk layout: the three paths of a record are distinct siblings
      in the collection directory, which sits directly under the root. */
  lemma Layout(d: Driver, c: string, r: string)
    requires c != "" && r != ""
    ensures CollectionDir(d, c) == d.dir + [c]
    ensures BarePath(d, c, r) == d.dir + [c, r]
    ensures RecordPath(d, c, r) == d.dir + [c, r + JsonExt]
    ensures TempPath(d, c, r) == d.dir + [c, r + JsonExt + TempExt]
    ensures BarePath(d, c, r) != RecordPath(d, c, r) && RecordPath(d, c, r) != TempPath(d, c, r)
    ensures BarePath(d, c, r) != TempPath(d, c, r)
    ensures Parent(BarePath(d, c, r)) == Parent(RecordPath(d, c, r)) == Parent(TempPath(d, c, r)) == CollectionDir(d, c)
  {
    var bare := d.dir + [c, r];
    var rec := d.dir + [c, r + JsonExt];
    var tmp := d.dir + [c, r + JsonExt + TempExt];
    assert BarePath(d, c, r) == bare;
    assert Parent(bare) == d.dir + [c];
    assert RecordPath(d, c, r) == rec;
    assert Parent(rec) == d.dir + [c];
    assert TempPath(d, c, r) == tmp;
    assert Parent(tmp) == d.dir + [c];
    assert |r + JsonExt| != |r| && |r + JsonExt + TempExt| != |r + JsonExt|;
    assert bare[|bare| - 1] != rec[|rec| - 1] && rec[|rec| - 1] != tmp[|tmp| - 1];
    assert bare[|bare| - 1] != tmp[|tmp| - 1];
  }

  // ---- New ----

  /** New: a Driver with an empty registry.  An existing root -- directory
      or not -- is accepted as is; otherwise the root is created with
      MkdirAll, and the Driver is returned together with MkdirAll's error. */
  function New(fs: FS, dir: Path): (e: Effect)
    ensures e.driver.dir == dir && e.driver.mutexes == map[] && RegistryOk(e.driver)
    ensures dir in fs ==> e.err.None? && e.fs == fs
    ensures e.err.None? ==> dir in e.fs
    ensures e.err.Some? ==> e.fs == fs
    ensures forall q :: q in fs ==> q in e.fs && e.fs[q] == fs[q]
    ensures forall q :: q in e.fs && q !in fs ==> IsPrefix(q, dir) && e.fs[q] == Dir
  {
    var d := Driver(dir, map[], 0);
    match Stat(fs, dir)
    case Ok(_) => Effect(None, d, fs)
    case Err(_) =>
      match MkdirAll(fs, dir)
      case Ok(fs1) => Effect(None, d, fs1)
      case Err(e) => Effect(Some(Io(e)), d, fs)
  }

  /** New fails exactly when the root is missing and cannot be created
      because a segment of it is a regular file; a missing root that New
      creates is a directory. */
  lemma NewSucceedsIff(fs: FS, dir: Path)
    requires Wf(fs)
    ensures New(fs, dir).err.None? <==> dir in fs || NoFileOnPath(fs, dir)
    ensures New(fs, dir).err.None? && dir !in fs ==> New(fs, dir).fs[dir] == Dir
    ensures Wf(New(fs, dir).fs)
  {
    MkdirAllOk(fs, dir);
    if dir !in fs && NoFileOnPath(fs, dir) {
      MkdirAllPreservesWf(fs, dir);
    }
  }

  /** Opening the same root again after a successful New succeeds and
      changes nothing. */
  lemma NewIdempotent(fs: FS, dir: Path)
    requires New(fs, dir).err.None?
    ensures New(New(fs, dir).fs, dir) == New(fs, dir)
  {
  }

  // ---- stat ----

  /** The stat helper as written: the `err :=` inside the if declares a new
      variable, so the named result err is never assigned and stays nil,
      and fi is only ever set by the fallback lookup of `p.json`. */
  function StatOrJson(fs: FS, p: Path): (s: StatInfo)
    ensures s.err.None?
    ensures p in fs ==> s.fi.None?
    ensures s.fi.Some? ==> p !in fs && WithSuffix(p, JsonExt) in fs && s.fi.value == fs[WithSuffix(p, JsonExt)]
    ensures Stat(fs, p) == Err(ENOENT) && WithSuffix(p, JsonExt) in fs ==> s.fi.Some?
  {
    match Stat(fs, p)
    case Err(ENOENT) =>
      var fi := match Stat(fs, WithSuffix(p, JsonExt)) case Ok(n) => Some(n) case Err(_) => None;
      StatInfo(fi, None)
    case _ => StatInfo(None, None)
  }

  // ---- lock registry ----

  /** getOrCreateMutex: the registered mutex of `c`, or a fresh one that is
      registered for `c` from then on. */
  function GetOrCreateMutex(d: Driver, c: string): (g: Grant)
    ensures c in g.driver.mutexes && g.driver.mutexes[c] == g.lock
    ensures RegistryGrowsBy(d, g.driver, c)
    ensures c in d.mutexes ==> g.driver == d
    ensures RegistryOk(d) ==> RegistryOk(g.driver)
    ensures RegistryOk(d) && c !in d.mutexes ==> forall k :: k in d.mutexes ==> d.mutexes[k] != g.lock
  {
    if c in d.mutexes then Grant(d.mutexes[c], d)
    else
      var m := d.nextLock;
      Grant(m, d.(mutexes := d.mutexes[c := m], nextLock := m + 1))
  }

  /** Asking twice for the same collection's mutex yields the same mutex,
      and the second call leaves the registry as the first left it. */
  lemma LockLookupIdempotent(d: Driver, c: string)
    ensures GetOrCreateMutex(GetOrCreateMutex(d, c).driver, c) == GetOrCreateMutex(d, c)
  {
  }

  /** Different collections are guarded by different mutexes. */
  lemma DistinctCollectionsDistinctLocks(d: Driver, c1: string, c2: string)
    requires RegistryOk(d) && c1 != c2
    ensures var g1 := GetOrCreateMutex(d, c1);
            var g2 := GetOrCreateMutex(g1.driver, c2);
            g1.lock != g2.lock && g2.driver.mutexes[c1] == g1.lock
  {
  }

  // ---- Write ----

  /** The entry at `p` is the same in `fs` and `fs'`. */
  predicate Untouched(fs: FS, fs': FS, p: Path)
  {
    (p in fs' <==> p in fs) && (p in fs ==> fs'[p] == fs[p])
  }

  /** Write: validate both keys, take the collection's mutex, MkdirAll the
      collection directory, marshal `v`, write the bytes plus one newline to
      `<r>.json.temp`, then rename that file over `<r>.json`. */
  function Write<D>(d: Driver, fs: FS, c: string, r: string, v: D, marshal: D -> Option<Bytes>): (w: Effect)
    ensures c == "" ==> w == Effect(Some(MissingCollection), d, fs)
    ensures c != "" && r == "" ==> w == Effect(Some(MissingResource), d, fs)
    ensures c != "" && r != "" ==> RegistryGrowsBy(d, w.driver, c)
    ensures w.err.None? ==> c != "" && r != "" && marshal(v).Some?
    ensures w.err.None? ==> CollectionDir(d, c) in w.fs && w.fs[CollectionDir(d, c)] == Dir
    ensures w.err.None? ==> RecordPath(d, c, r) in w.fs && w.fs[RecordPath(d, c, r)] == File(marshal(v).value + [Newline])
    ensures w.err.None? ==> TempPath(d, c, r) !in w.fs
    ensures w.err.None? ==> forall p :: p in fs && p != RecordPath(d, c, r) && p != TempPath(d, c, r) ==> p in w.fs && w.fs[p] == fs[p]
    ensures w.err.Some? ==> forall p :: p in fs && p != TempPath(d, c, r) ==> p in w.fs && w.fs[p] == fs[p]
    ensures w.err.Some? ==> Untouched(fs, w.fs, RecordPath(d, c, r))
    ensures forall p :: p in w.fs && p !in fs ==> p == RecordPath(d, c, r) || p == TempPath(d, c, r) || IsPrefix(p, CollectionDir(d, c))
  {
    if c == "" then Effect(Some(MissingCollection), d, fs)
    else if r == "" then Effect(Some(MissingResource), d, fs)
    else
      Layout(d, c, r);
      var d1 := GetOrCreateMutex(d, c).driver;
      var dir := CollectionDir(d, c);
      var final := RecordPath(d, c, r);
      var temp := TempPath(d, c, r);
      match MkdirAll(fs, dir)
      case Err(e) => Effect(Some(Io(e)), d1, fs)
      case Ok(fs1) =>
        match marshal(v)
        case None => Effect(Some(MarshalFailed), d1, fs1)
        case Some(b) =>
          match WriteFile(fs1, temp, b + [Newline])
          case Err(e) => Effect(Some(Io(e)), d1, fs1)
          case Ok(fs2) =>
            match RenameFile(fs2, temp, final)
            case Err(e) => Effect(Some(Io(e)), d1, fs2)
            case Ok(fs3) => Effect(None, d1, fs3)
  }

  /** On a well-formed tree Write succeeds exactly when both keys are
      non-empty, no segment of the collection directory is a regular file,
      marshalling succeeds, and neither the temporary nor the final path is
      a directory. */
  lemma WriteSucceedsIff<D>(d: Driver, fs: FS, c: string, r: string, v: D, marshal: D -> Option<Bytes>)
    requires Wf(fs)
    ensures Write(d, fs, c, r, v, marshal).err.None? <==>
      && c != "" && r != ""
      && NoFileOnPath(fs, CollectionDir(d, c))
      && marshal(v).Some?
      && !(TempPath(d, c, r) in fs && fs[TempPath(d, c, r)] == Dir)
      && !(RecordPath(d, c, r) in fs && fs[RecordPath(d, c, r)] == Dir)
  {
    if c != "" && r != "" {
      Layout(d, c, r);
      MkdirAllOk(fs, CollectionDir(d, c));
    }
  }

  /** A directory sitting at `<r>.json` makes the final rename fail with
      EEXIST, after the temporary file has been written; the record
      directory itself is left as it was. */
  lemma WriteOntoDirectory<D>(d: Driver, fs: FS, c: string, r: string, v: D, marshal: D -> Option<Bytes>)
    requires Wf(fs) && c != "" && r != "" && marshal(v).Some?
    requires NoFileOnPath(fs, CollectionDir(d, c))
    requires TempPath(d, c, r) !in fs || fs[TempPath(d, c, r)].File?
    requires RecordPath(d, c, r) in fs && fs[RecordPath(d, c, r)] == Dir
    ensures var w := Write(d, fs, c, r, v, marshal);
            && w.err == Some(Io(EEXIST))
            && TempPath(d, c, r) in w.fs && w.fs[TempPath(d, c, r)] == File(marshal(v).value + [Newline])
            && RecordPath(d, c, r) in w.fs && w.fs[RecordPath(d, c, r)] == Dir
  {
    Layout(d, c, r);
    var dir := CollectionDir(d, c);
    var temp := TempPath(d, c, r);
    var data := marshal(v).value + [Newline];
    MkdirAllOk(fs, dir);
    var fs1 := MkdirAll(fs, dir).value;
    assert Parent(temp) == dir && dir in fs1 && fs1[dir] == Dir;
    assert temp !in fs1 || fs1[temp].File?;
    var fs2 := WriteFile(fs1, temp, data).value;
    assert fs2 == fs1[temp := File(data)];
    assert RenameFile(fs2, temp, RecordPath(d, c, r)) == Err(EEXIST);
  }

  lemma WritePreservesWf<D>(d: Driver, fs: FS, c: string, r: string, v: D, marshal: D -> Option<Bytes>)
    requires Wf(fs)
    ensures Wf(Write(d, fs, c, r, v, marshal).fs)
  {
    if c != "" && r != "" {
      Layout(d, c, r);
      var dir := CollectionDir(d, c);
      if MkdirAll(fs, dir).Ok? {
        MkdirAllPreservesWf(fs, dir);
        var fs1 := MkdirAll(fs, dir).value;
        if marshal(v).Some? {
          var data := marshal(v).value + [Newline];
          var temp := TempPath(d, c, r);
          if WriteFile(fs1, temp, data).Ok? {
            WriteFilePreservesWf(fs1, temp, data);
            var fs2 := WriteFile(fs1, temp, data).value;
            if RenameFile(fs2, temp, RecordPath(d, c, r)).Ok? {
              RenameFilePreservesWf(fs2, temp, RecordPath(d, c, r));
            }
          }
        }
      }
    }
  }

  // ---- Read ----

  /** json.Unmarshal's outcome on bytes read from disk. */
  function Decode<D>(unmarshal: Bytes -> Option<D>, b: Bytes): Result<D, Error>
  {
    match unmarshal(b)
    case Some(x) => Ok(x)
    case None => Err(UnmarshalFailed)
  }

  /** Read: validate both keys, call stat on `<root>/<c>/<r>` (whose error
      is always nil), then read and unmarshal `<root>/<c>/<r>.json`. */
  function Read<D>(d: Driver, fs: FS, c: string, r: string, unmarshal: Bytes -> Option<D>): (res: Result<D, Error>)
    ensures c == "" ==> res == Err(MissingCollection)
    ensures c != "" && r == "" ==> res == Err(MissingResource)
    ensures res.Ok? ==> RecordPath(d, c, r) in fs && fs[RecordPath(d, c, r)].File?
                        && unmarshal(fs[RecordPath(d, c, r)].data) == Some(res.value)
    ensures c != "" && r != "" ==>
      match ReadFile(fs, RecordPath(d, c, r))
      case Ok(b) => res == Decode(unmarshal, b)
      case Err(e) => res == Err(Io(e))
  {
    if c == "" then Err(MissingCollection)
    else if r == "" then Err(MissingResource)
    else
      var record := BarePath(d, c, r);
      match StatOrJson(fs, record).err
      case Some(e) => Err(Io(e))
      case None =>
        match ReadFile(fs, WithSuffix(record, JsonExt))
        case Err(e) => Err(Io(e))
        case Ok(b) => Decode(unmarshal, b)
  }

  /** Read never looks at the extensionless path: whatever is there, or
      whether anything is there, the result is the same. */
  lemma ReadIgnoresBarePath<D>(d: Driver, fs: FS, c: string, r: string, n: Node, unmarshal: Bytes -> Option<D>)
    requires c != "" && r != ""
    ensures Read(d, fs[BarePath(d, c, r) := n], c, r, unmarshal) == Read(d, fs, c, r, unmarshal)
    ensures Read(d, fs - {BarePath(d, c, r)}, c, r, unmarshal) == Read(d, fs, c, r, unmarshal)
  {
    Layout(d, c, r);
    var bare := BarePath(d, c, r);
    var rec := RecordPath(d, c, r);
    assert forall k :: 0 <= k <= |rec| ==> rec[..k] != bare by {
      assert rec[..|rec|] == rec;
    }
    StatLocal(fs[bare := n], fs, rec);
    StatLocal(fs - {bare}, fs, rec);
  }

  /** Round trip at the byte level: after a successful Write, Read hands
      the unmarshaller exactly the marshalled bytes plus the newline. */
  lemma WriteThenRead<D>(d: Driver, fs: FS, c: string, r: string, v: D, marshal: D -> Option<Bytes>, unmarshal: Bytes -> Option<D>)
    requires Write(d, fs, c, r, v, marshal).err.None?
    ensures var w := Write(d, fs, c, r, v, marshal);
            Read(w.driver, w.fs, c, r, unmarshal) == Decode(unmarshal, marshal(v).value + [Newline])
  {
  }

  /** Reading a record that is absent from an existing collection directory
      reports ENOENT. */
  lemma ReadMissing<D>(d: Driver, fs: FS, c: string, r: string, unmarshal: Bytes -> Option<D>)
    requires c != "" && r != ""
    requires CollectionDir(d, c) in fs && fs[CollectionDir(d, c)] == Dir
    requires RecordPath(d, c, r) !in fs
    ensures Read(d, fs, c, r, unmarshal) == Err(Io(ENOENT))
  {
    Layout(d, c, r);
  }

  // ---- ReadAll ----

  /** Entry `k` of `names` is the first one in `dir` that cannot be read. */
  predicate FirstFailure(fs: FS, dir: Path, names: seq<string>, k: int)
  {
    && 0 <= k < |names|
    && ReadFile(fs, Join(dir, [names[k]])).Err?
    && forall i :: 0 <= i < k ==> ReadFile(fs, Join(dir, [names[i]])).Ok?
  }

  /** What ReadAll promises for the listing `names` of `dir`: the contents
      of every entry, in listing order, or else the error of the first entry
      that cannot be read and no records. */
  predicate ReadsEveryEntry(fs: FS, dir: Path, names: seq<string>, res: Result<seq<Bytes>, Error>)
  {
    match res
    case Ok(recs) =>
      && |recs| == |names|
      && forall i :: 0 <= i < |names| ==> ReadFile(fs, Join(dir, [names[i]])) == Ok(recs[i])
    case Err(e) =>
      exists k :: 0 <= k < |names| && FirstFailure(fs, dir, names, k) && e == Io(ReadFile(fs, Join(dir, [names[k]])).error)
  }

  /** ReadAll: validate the collection, call stat (whose error is always
      nil), list the directory ignoring the listing's error, and read every
      entry in turn, stopping at the first failure. */
  method ReadAll(d: Driver, fs: FS, c: string) returns (res: Result<seq<Bytes>, Error>)
    ensures c == "" ==> res == Err(MissingCollection)
    ensures c != "" && ReadDir(fs, CollectionDir(d, c)).Err? ==> res == Ok([])
    ensures c != "" && ReadDir(fs, CollectionDir(d, c)).Ok? ==>
              ReadsEveryEntry(fs, CollectionDir(d, c), ReadDir(fs, CollectionDir(d, c)).value, res)
  {
    if c == "" {
      return Err(MissingCollection);
    }
    var dir := CollectionDir(d, c);
    match StatOrJson(fs, dir).err {
      case Some(e) =>
        return Err(Io(e));
      case None =>
    }
    var files: seq<string> := match ReadDir(fs, dir) case Ok(names) => names case Err(_) => [];
    var records: seq<Bytes> := [];
    var i := 0;
    while i < |files|
      invariant 0 <= i <= |files|
      invariant |records| == i
      invariant forall j :: 0 <= j < i ==> ReadFile(fs, Join(dir, [files[j]])) == Ok(records[j])
    {
      match ReadFile(fs, Join(dir, [files[i]])) {
        case Err(e) =>
          assert FirstFailure(fs, dir, files, i);
          return Err(Io(e));
        case Ok(b) =>
          records := records + [b];
      }
      i := i + 1;
    }
    return Ok(records);
  }

  /** A record written successfully appears in its collection's listing,
      under `<r>.json`, and its temporary file does not. */
  lemma WriteThenListed<D>(d: Driver, fs: FS, c: string, r: string, v: D, marshal: D -> Option<Bytes>)
    requires Write(d, fs, c, r, v, marshal).err.None?
    ensures var w := Write(d, fs, c, r, v, marshal);
            && ReadDir(w.fs, CollectionDir(d, c)).Ok?
            && r + JsonExt in ReadDir(w.fs, CollectionDir(d, c)).value
            && r + JsonExt + TempExt !in ReadDir(w.fs, CollectionDir(d, c)).value
  {
    var w := Write(d, fs, c, r, v, marshal);
    var dir := CollectionDir(d, c);
    Layout(d, c, r);
    assert dir in w.fs && w.fs[dir] == Dir;
    var listing := ReadDir(w.fs, dir);
    assert dir + [r + JsonExt] == RecordPath(d, c, r) && RecordPath(d, c, r) in w.fs;
    assert dir + [r + JsonExt + TempExt] == TempPath(d, c, r) && TempPath(d, c, r) !in w.fs;
    assert r + JsonExt in listing.value;
  }

  // ---- Delete ----

  function Removal(r: Result<FS, Errno>, d: Driver, fs: FS): Effect
  {
    match r
    case Ok(fs') => Effect(None, d, fs')
    case Err(e) => Effect(Some(Io(e)), d, fs)
  }

  /** Delete as written: no key validation; a stat of the root-less path
      `<c>/<r>` whose error is always nil; the collection's mutex; then a
      case split on stat of `<root>/<c>/<r>`.  Because that stat leaves fi
      nil whenever the path exists, the directory case is only reached
      when `<r>.json` is a directory, and it then removes the (missing)
      extensionless path. */
  function Delete(d: Driver, fs: FS, c: string, r: string): (e: Effect)
    ensures RegistryGrowsBy(d, e.driver, c)
    ensures e.err.Some? ==> e.err.value.NotFound? || e.err.value.Io?
    ensures e.err.Some? ==> e.fs == fs
    ensures e.err.None? ==> BarePath(d, c, r) !in fs && RecordPath(d, c, r) in fs
    ensures forall q :: q in e.fs ==> q in fs && e.fs[q] == fs[q]
    ensures forall q :: q in fs && !IsPrefix(BarePath(d, c, r), q) && !IsPrefix(RecordPath(d, c, r), q) ==> q in e.fs
  {
    var path := Join([], [c, r]);
    match StatOrJson(fs, path).err
    case Some(err) => Effect(Some(Io(err)), d, fs)
    case None =>
      var d1 := GetOrCreateMutex(d, c).driver;
      var dir := BarePath(d, c, r);
      var s := StatOrJson(fs, dir);
      if s.fi.None? || s.err.Some? then Effect(Some(NotFound(dir)), d1, fs)
      else
        match s.fi.value
        case Dir => Removal(RemoveAll(fs, dir), d1, fs)
        case File(_) => Removal(RemoveAll(fs, WithSuffix(dir, JsonExt)), d1, fs)
  }

  /** Delete on a well-formed tree: it succeeds exactly when the
      extensionless path is absent and `<r>.json` exists; it then removes
      `<r>.json` if that is a regular file and nothing if it is a directory;
      otherwise it reports NotFound and changes no file. */
  lemma DeleteCases(d: Driver, fs: FS, c: string, r: string)
    requires Wf(fs)
    ensures var e := Delete(d, fs, c, r);
            var bare := BarePath(d, c, r);
            var rec := RecordPath(d, c, r);
            && (e.err.None? <==> bare !in fs && rec in fs)
            && (e.err.Some? ==> e.err == Some(NotFound(bare)) && e.fs == fs)
            && (bare !in fs && rec in fs && fs[rec].File? ==> e.fs == fs - {rec})
            && (bare !in fs && rec in fs && fs[rec] == Dir ==> e.fs == fs)
    ensures Wf(Delete(d, fs, c, r).fs)
  {
    if BarePath(d, c, r) !in fs && RecordPath(d, c, r) in fs {
      DeleteFound(d, fs, c, r);
    } else {
      DeleteMissing(d, fs, c, r);
    }
  }

  /** Delete when `<r>.json` exists and the extensionless path does not. */
  lemma DeleteFound(d: Driver, fs: FS, c: string, r: string)
    requires Wf(fs) && BarePath(d, c, r) !in fs && RecordPath(d, c, r) in fs
    ensures var rec := RecordPath(d, c, r);
            var e := Delete(d, fs, c, r);
            && e.err.None?
            && e.fs == (if fs[rec].File? then fs - {rec} else fs)
            && Wf(e.fs)
  {
    var bare := BarePath(d, c, r);
    var rec := RecordPath(d, c, r);
    var e := Delete(d, fs, c, r);
    var d1 := GetOrCreateMutex(d, c).driver;
    assert [] in fs;
    StatOrJsonFallback(fs, bare);
    assert StatOrJson(fs, Join([], [c, r])).err.None?;
    if fs[rec].File? {
      RemoveAllLeaf(fs, rec);
      assert e == Effect(None, d1, fs - {rec});
      RemoveAllPreservesWf(fs, rec);
    } else {
      RemoveAllLeaf(fs, bare);
      assert e == Effect(None, d1, fs);
    }
  }

  /** On a well-formed tree, a missing path whose `.json` sibling exists
      stats as that sibling. */
  lemma StatOrJsonFallback(fs: FS, p: Path)
    requires Wf(fs) && p != [] && p !in fs && WithSuffix(p, JsonExt) in fs
    ensures StatOrJson(fs, p).fi == Some(fs[WithSuffix(p, JsonExt)])
  {
    assert Parent(WithSuffix(p, JsonExt)) == Parent(p);
    assert Stat(fs, p) == Err(ENOENT);
  }

  /** Delete in every other case: NotFound for the extensionless path. */
  lemma DeleteMissing(d: Driver, fs: FS, c: string, r: string)
    requires Wf(fs) && !(BarePath(d, c, r) !in fs && RecordPath(d, c, r) in fs)
    ensures Delete(d, fs, c, r) == Effect(Some(NotFound(BarePath(d, c, r))), GetOrCreateMutex(d, c).driver, fs)
  {
    var bare := BarePath(d, c, r);
    assert StatOrJson(fs, Join([], [c, r])).err.None?;
    assert StatOrJson(fs, bare).fi.None?;
  }

  /** The scenario of writing a record, deleting it and reading it again,
      on a tree where the write can succeed and no extensionless entry is in
      the way: the write and the delete succeed, and the read then reports
      ENOENT. */
  lemma WriteDeleteRead<D>(d: Driver, fs: FS, c: string, r: string, v: D, marshal: D -> Option<Bytes>, unmarshal: Bytes -> Option<D>)
    requires Wf(fs) && c != "" && r != "" && marshal(v).Some?
    requires NoFileOnPath(fs, CollectionDir(d, c))
    requires TempPath(d, c, r) !in fs && RecordPath(d, c, r) !in fs && BarePath(d, c, r) !in fs
    ensures var w := Write(d, fs, c, r, v, marshal);
            var x := Delete(w.driver, w.fs, c, r);
            && w.err.None?
            && x.err.None?
            && RecordPath(d, c, r) !in x.fs
            && Read(x.driver, x.fs, c, r, unmarshal) == Err(Io(ENOENT))
  {
    var w := Write(d, fs, c, r, v, marshal);
    Layout(d, c, r);
    WriteSucceedsIff(d, fs, c, r, v, marshal);
    WritePreservesWf(d, fs, c, r, v, marshal);
    DeleteCases(w.driver, w.fs, c, r);
  }
}

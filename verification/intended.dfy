/** The stat helper and Delete as the store evidently means them.

    As written, stat's `if _, err := os.Stat(path); ...` declares fresh
    variables, so stat can never report an error and leaves fi nil whenever
    the path itself exists.  Here fi and err both come from os.Stat(path),
    and `path.json` is consulted only when the path does not exist.  Delete
    then makes its existence check on the rooted path, the one it goes on
    to remove. */
module Intended {
  import opened Results
  import FileSystem
  import Store

  function Stat(fs: FileSystem.FS, p: FileSystem.Path): (s: Store.StatInfo)
    ensures s.fi.Some? <==> s.err.None?
    ensures p in fs ==> s == Store.StatInfo(Some(fs[p]), None)
    ensures p !in fs && FileSystem.Stat(fs, p) == Err(FileSystem.ENOENT) ==>
              (s.err.None? <==> Store.WithSuffix(p, Store.JsonExt) in fs)
    ensures s.fi.Some? && p !in fs ==>
              Store.WithSuffix(p, Store.JsonExt) in fs && s.fi.value == fs[Store.WithSuffix(p, Store.JsonExt)]
  {
    match FileSystem.Stat(fs, p)
    case Ok(n) => Store.StatInfo(Some(n), None)
    case Err(e) =>
      if e != FileSystem.ENOENT then Store.StatInfo(None, Some(e))
      else
        match FileSystem.Stat(fs, Store.WithSuffix(p, Store.JsonExt))
        case Ok(n) => Store.StatInfo(Some(n), None)
        case Err(e') => Store.StatInfo(None, Some(e'))
  }

  function Delete(d: Store.Driver, fs: FileSystem.FS, c: string, r: string): (e: Store.Effect)
    ensures e.err.Some? ==> e.fs == fs
    ensures forall q :: q in e.fs ==> q in fs && e.fs[q] == fs[q]
  {
    var dir := Store.BarePath(d, c, r);
    match Stat(fs, dir).err
    case Some(err) => Store.Effect(Some(Store.Io(err)), d, fs)
    case None =>
      var d1 := Store.GetOrCreateMutex(d, c).driver;
      var s := Stat(fs, dir);
      if s.fi.None? || s.err.Some? then Store.Effect(Some(Store.NotFound(dir)), d1, fs)
      else
        match s.fi.value
        case Dir => Store.Removal(FileSystem.RemoveAll(fs, dir), d1, fs)
        case File(_) => Store.Removal(FileSystem.RemoveAll(fs, Store.WithSuffix(dir, Store.JsonExt)), d1, fs)
  }

  /** The intended Delete removes a directory at `<root>/<c>/<r>` with
      everything under it, removes the record file when only `<r>.json`
      exists, and reports an error, changing nothing, when neither exists. */
  lemma DeleteRemovesTarget(d: Store.Driver, fs: FileSystem.FS, c: string, r: string)
    requires FileSystem.Wf(fs)
    ensures var e := Delete(d, fs, c, r);
            var bare := Store.BarePath(d, c, r);
            var rec := Store.RecordPath(d, c, r);
            && (bare != [] && bare in fs && fs[bare] == FileSystem.Dir ==>
                  e.err.None? && forall q :: q in e.fs <==> q in fs && !FileSystem.IsPrefix(bare, q))
            && (bare !in fs && rec in fs && fs[rec].File? ==> e.err.None? && e.fs == fs - {rec})
            && (bare !in fs && rec !in fs ==> e.err.Some? && e.fs == fs)
  {
    var bare := Store.BarePath(d, c, r);
    var rec := Store.RecordPath(d, c, r);
    if bare !in fs && rec in fs {
      assert bare != [];
      assert FileSystem.Parent(rec) == FileSystem.Parent(bare);
      assert FileSystem.Stat(fs, bare) == Err(FileSystem.ENOENT);
      if fs[rec].File? {
        FileSystem.RemoveAllLeaf(fs, rec);
      }
    }
  }

  function Example(): FileSystem.FS
  {
    map[[] := FileSystem.Dir, ["db"] := FileSystem.Dir,
        ["db", "users"] := FileSystem.Dir, ["db", "users", "team"] := FileSystem.Dir]
  }

  lemma ExampleWf()
    ensures FileSystem.Wf(Example())
  {
    var fs := Example();
    forall p | p in fs && p != []
      ensures FileSystem.Parent(p) in fs && fs[FileSystem.Parent(p)] == FileSystem.Dir
    {
      if p == ["db"] {
        assert FileSystem.Parent(p) == [];
      } else if p == ["db", "users"] {
        assert FileSystem.Parent(p) == ["db"];
      } else {
        assert p == ["db", "users", "team"];
        assert FileSystem.Parent(p) == ["db", "users"];
      }
    }
  }

  /** The input that separates the two: a resource directory
      `db/users/team` under root `db`.  The Delete as written reports it as
      not found and keeps it; the intended one removes it. */
  lemma DirectoryDeleteDiffers()
    ensures var d := Store.Driver(["db"], map[], 0);
            && Store.Delete(d, Example(), "users", "team").err == Some(Store.NotFound(["db", "users", "team"]))
            && Store.Delete(d, Example(), "users", "team").fs == Example()
            && Delete(d, Example(), "users", "team").err.None?
            && ["db", "users", "team"] !in Delete(d, Example(), "users", "team").fs
  {
    var d := Store.Driver(["db"], map[], 0);
    var bare := ["db", "users", "team"];
    ExampleWf();
    Store.Layout(d, "users", "team");
    assert Store.BarePath(d, "users", "team") == bare;
    assert FileSystem.IsPrefix(bare, bare);
    DeleteRemovesTarget(d, Example(), "users", "team");
  }

  /** For a missing collection directory without a `<c>.json` sibling, the
      listing fails, which ReadAll turns into an empty result, and the stat
      as written reports no error.  The intended stat reports the error:
      ENOENT when the parent directory exists, ENOTDIR when a file lies on
      the way.  With a `<c>.json` file present the intended stat finds that
      file instead and reports no error either. */
  lemma MissingCollectionDiffers(d: Store.Driver, fs: FileSystem.FS, c: string)
    requires Store.CollectionDir(d, c) !in fs
    requires Store.WithSuffix(Store.CollectionDir(d, c), Store.JsonExt) !in fs
    ensures var dir := Store.CollectionDir(d, c);
            && FileSystem.ReadDir(fs, dir).Err?
            && Store.StatOrJson(fs, dir).err.None?
            && Stat(fs, dir).err == Some(FileSystem.ReadDir(fs, dir).error)
            && (dir != [] && FileSystem.Parent(dir) in fs && fs[FileSystem.Parent(dir)] == FileSystem.Dir ==>
                  Stat(fs, dir).err == Some(FileSystem.ENOENT))
  {
    var dir := Store.CollectionDir(d, c);
    var json := Store.WithSuffix(dir, Store.JsonExt);
    if FileSystem.Stat(fs, dir) == Err(FileSystem.ENOENT) {
      if dir == [] {
        assert json == ["." + Store.JsonExt] && |json| == 1;
        assert FileSystem.Parent(json) == [];
      } else {
        assert FileSystem.Parent(json) == FileSystem.Parent(dir);
      }
      assert FileSystem.Stat(fs, json) == Err(FileSystem.ENOENT);
    }
  }

  /** The one-tree instance: root `db` with no `orders` collection. */
  lemma MissingCollectionExample()
    ensures var d := Store.Driver(["db"], map[], 0);
            && FileSystem.ReadDir(Example(), Store.CollectionDir(d, "orders")).Err?
            && Store.StatOrJson(Example(), Store.CollectionDir(d, "orders")).err.None?
            && Stat(Example(), Store.CollectionDir(d, "orders")).err == Some(FileSystem.ENOENT)
  {
    var d := Store.Driver(["db"], map[], 0);
    var orders := ["db", "orders"];
    assert Store.CollectionDir(d, "orders") == orders;
    var json := Store.WithSuffix(orders, Store.JsonExt);
    assert |json| == 2 && json[1] == "orders" + Store.JsonExt && |json[1]| == 11;
    MissingCollectionDiffers(d, Example(), "orders");
  }
}

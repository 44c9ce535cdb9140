/**
 * Opening the node's database: the version decision `Db::new` makes from what it finds
 * at the database path (create, accept, accept in block-compatibility mode, recreate a
 * missing version file, or reject), then opening the environment and creating the
 * default tables.
 */
module Database {
  import opened Wrappers
  import opened Files
  import opened DbVersion
  import Mdbx

  datatype DbError =
    | VersionError(versionError: DatabaseVersionError)
    | CreateDirError(ioError: IoError)
    | EnvError(envError: Mdbx.DatabaseError)

  /** An open database: its environment and the version recorded for it. */
  datatype Db = Db(env: Mdbx.Env, version: Version)

  /** `require_migration`: the database was written by another version than this build's. */
  predicate RequireMigration(db: Db)
    ensures !RequireMigration(db) ==> IsBlockCompatibleVersion(db.version)
  {
    db.version != CURRENT_DB_VERSION
  }

  /**
   * `is_database_empty`: nothing at the path, or a directory with nothing in it; a file
   * at the path is not an empty database. (In a file system nothing lies below a path
   * that does not exist; the map of nodes does not enforce that, so it is stated.)
   */
  predicate IsDatabaseEmpty(nodes: map<Path, Node>, p: Path) {
    (p !in nodes || IsDir(nodes, p)) && !HasChildren(nodes, p)
  }

  /** The engine's data file is neither the database directory nor its version file. */
  lemma DataFileIsNotVersionFile(p: Path)
    ensures p + [Mdbx.DATA_FILE_NAME] != DefaultVersionFilePath(p)
    ensures p + [Mdbx.DATA_FILE_NAME] != p
  {
    assert (p + [Mdbx.DATA_FILE_NAME])[|p|] == Mdbx.DATA_FILE_NAME;
    assert DefaultVersionFilePath(p)[|p|] == DB_VERSION_FILE_NAME;
    assert Mdbx.DATA_FILE_NAME[0] != DB_VERSION_FILE_NAME[0];
  }

  /** No component on the way to `p`, `p` included, is a file. */
  predicate NoFileOnPath(nodes: map<Path, Node>, p: Path) {
    forall i :: 1 <= i <= |p| ==> !IsFile(nodes, p[..i])
  }

  /** An empty database has no version file. */
  lemma EmptyDirHasNoVersionFile(nodes: map<Path, Node>, p: Path)
    requires IsDatabaseEmpty(nodes, p)
    ensures DefaultVersionFilePath(p) !in nodes
  {
    assert DefaultVersionFilePath(p)[..|p|] == p;
  }

  /**
   * The version decision of `Db::new`. An empty database gets its directory and a
   * version file holding the current version. Otherwise the stored version is accepted
   * if this build can read its blocks, and rejected with `MismatchVersion` if not; a
   * missing version file is recreated with the current version, and any other error
   * reading it is returned. Existing files are never overwritten.
   */
  method DecideVersion(fs: FileSystem, path: Path) returns (r: Result<Version, DbError>)
    modifies fs
    ensures IsDatabaseEmpty(old(fs.nodes), path) ==>
              && (r.Ok? <==> NoFileOnPath(old(fs.nodes), path) && (|path| > 0 || IsDir(old(fs.nodes), path)))
              && (r.Ok? ==> r.value == CURRENT_DB_VERSION && IsDir(fs.nodes, path))
    ensures !IsDatabaseEmpty(old(fs.nodes), path) ==>
              match GetDbVersion(old(fs.nodes), path)
              case Ok(v) => r == if IsBlockCompatibleVersion(v) then Ok(v) else Err(VersionError(MismatchVersion(CURRENT_DB_VERSION, v)))
              case Err(FileNotFound) =>
                && (r.Ok? <==> CanCreate(old(fs.nodes), ResolveVersionPath(old(fs.nodes), path)))
                && (r.Ok? ==> r.value == CURRENT_DB_VERSION)
              case Err(e) => r == Err(VersionError(e))
    ensures r.Ok? ==> IsBlockCompatibleVersion(r.value) && GetDbVersion(fs.nodes, path) == Ok(r.value)
    ensures r.Ok? && (IsDatabaseEmpty(old(fs.nodes), path) || GetDbVersion(old(fs.nodes), path) == Err(FileNotFound)) ==>
              fs.nodes[ResolveVersionPath(fs.nodes, path)] == File(ToBeBytes(CURRENT_DB_VERSION), true)
    ensures Keeps(old(fs.nodes), fs.nodes)
  {
    if IsDatabaseEmpty(fs.nodes, path) {
      EmptyDirHasNoVersionFile(fs.nodes, path);
      var created := fs.CreateDirAll(path);
      if created.Err? {
        return Err(CreateDirError(created.error));
      }
      ghost var dirs := fs.nodes;
      if |path| > 0 || IsDir(dirs, path) {
        assert path[..|path|] == path;
        assert IsDir(dirs, path);
        assert DefaultVersionFilePath(path) !in dirs by {
          assert |DefaultVersionFilePath(path)| == |path| + 1;
        }
        assert CanCreate(dirs, ResolveVersionPath(dirs, path)) by {
          assert DefaultVersionFilePath(path)[..|path|] == path;
        }
      }
      var written := CreateDbVersionFile(fs, path, CURRENT_DB_VERSION);
      if written.Err? {
        return Err(VersionError(written.error));
      }
      return Ok(written.value);
    }
    var stored := GetDbVersion(fs.nodes, path);
    match stored
    case Ok(v) =>
      if v != CURRENT_DB_VERSION {
        if !IsBlockCompatibleVersion(v) {
          return Err(VersionError(MismatchVersion(CURRENT_DB_VERSION, v)));
        }
        return Ok(v);
      }
      return Ok(v);
    case Err(FileNotFound) =>
      var written := CreateDbVersionFile(fs, path, CURRENT_DB_VERSION);
      if written.Err? {
        return Err(VersionError(written.error));
      }
      return Ok(written.value);
    case Err(e) =>
      return Err(VersionError(e));
  }

  /**
   * `Db::new`: decides the version, opens the environment read-write with durable
   * syncing, and creates the default tables.
   */
  method New(fs: FileSystem, path: Path, all: seq<Mdbx.TableDef>) returns (r: Result<Db, DbError>)
    modifies fs
    ensures !IsDatabaseEmpty(old(fs.nodes), path) && GetDbVersion(old(fs.nodes), path).Ok? ==>
              var v := GetDbVersion(old(fs.nodes), path).value;
              && (!IsBlockCompatibleVersion(v) ==> r == Err(VersionError(MismatchVersion(CURRENT_DB_VERSION, v))))
              && (r.Ok? ==> r.value.version == v)
    ensures !IsDatabaseEmpty(old(fs.nodes), path) && GetDbVersion(old(fs.nodes), path).Err? &&
            GetDbVersion(old(fs.nodes), path).error != FileNotFound ==>
              r == Err(VersionError(GetDbVersion(old(fs.nodes), path).error))
    ensures (IsDatabaseEmpty(old(fs.nodes), path) || GetDbVersion(old(fs.nodes), path) == Err(FileNotFound)) && r.Ok? ==>
              && r.value.version == CURRENT_DB_VERSION
              && DefaultVersionFilePath(path) in fs.nodes
              && fs.nodes[DefaultVersionFilePath(path)] == File(ToBeBytes(CURRENT_DB_VERSION), true)
    ensures (IsDatabaseEmpty(old(fs.nodes), path) && |path| > 0 && NoFileOnPath(old(fs.nodes), path) &&
             Mdbx.CreateAll(map[], all).Ok?) ==> r.Ok?
    ensures !IsDatabaseEmpty(old(fs.nodes), path) && IsDir(old(fs.nodes), path) && Mdbx.CreateAll(map[], all).Ok? ==>
              match GetDbVersion(old(fs.nodes), path)
              case Ok(v) => IsBlockCompatibleVersion(v) ==> r.Ok?
              case Err(FileNotFound) => r.Ok?
              case Err(_) => r.Err?
    ensures r.Ok? ==> IsBlockCompatibleVersion(r.value.version) && GetDbVersion(fs.nodes, path) == Ok(r.value.version)
    ensures r.Ok? ==> IsDir(fs.nodes, path)
    ensures r.Ok? ==> (RequireMigration(r.value) <==> r.value.version < CURRENT_DB_VERSION)
    ensures r.Ok? ==> fresh(r.value.env) && r.value.env.dir == path && r.value.env.mode == Mdbx.ReadWrite(Mdbx.Durable)
    ensures r.Ok? ==> Mdbx.CreateAll(map[], all) == Ok(r.value.env.tables)
    ensures Keeps(old(fs.nodes), fs.nodes)
  {
    var version := DecideVersion(fs, path);
    if version.Err? {
      return Err(version.error);
    }
    ghost var decided := fs.nodes;
    var builder := new Mdbx.EnvBuilder();
    builder.Write();
    var env := builder.Build(fs, path);
    if env.Err? {
      return Err(EnvError(env.error));
    }
    DataFileIsNotVersionFile(path);
    GetDbVersionFrame(decided, fs.nodes, path);
    var tables := env.value.CreateDefaultTables(all);
    if tables.Err? {
      return Err(EnvError(tables.error));
    }
    return Ok(Db(env.value, version.value));
  }

  /**
   * `Db::in_memory`: a database in a fresh temporary directory `tmp`, 10 GiB at most,
   * growing by 512 MiB, with syncing off; it always reports the current version.
   */
  method InMemory(fs: FileSystem, tmp: Path, all: seq<Mdbx.TableDef>) returns (r: Result<Db, DbError>)
    modifies fs
    ensures r.Ok? ==> r.value.version == CURRENT_DB_VERSION && !RequireMigration(r.value)
    ensures r.Ok? ==> fresh(r.value.env) && r.value.env.dir == tmp
    ensures r.Ok? ==> r.value.env.mode == Mdbx.ReadWrite(Mdbx.UtterlyNoSync)
    ensures r.Ok? ==> r.value.env.maxSize == 10 * Mdbx.GIGABYTE && r.value.env.growthStep == Mdbx.GIGABYTE / 2
    ensures r.Ok? ==> r.value.env.maxReaders == Mdbx.DEFAULT_MAX_READERS
    ensures r.Ok? ==> Mdbx.CreateAll(map[], all) == Ok(r.value.env.tables)
  {
    var dir := fs.CreateDir(tmp);
    if dir.Err? {
      return Err(CreateDirError(dir.error));
    }
    var builder := new Mdbx.EnvBuilder();
    builder.MaxSize(Mdbx.GIGABYTE * 10);
    builder.GrowthStep(Mdbx.GIGABYTE / 2);
    builder.Sync(Mdbx.UtterlyNoSync);
    var env := builder.Build(fs, tmp);
    if env.Err? {
      return Err(EnvError(env.error));
    }
    var tables := env.value.CreateDefaultTables(all);
    if tables.Err? {
      return Err(EnvError(tables.error));
    }
    return Ok(Db(env.value, CURRENT_DB_VERSION));
  }

  /**
   * `open_inner`: opens the environment read-only or read-write, then reads the
   * version. There is no compatibility check: any stored version is accepted, and a
   * missing or malformed version file is an error.
   */
  method OpenInner(fs: FileSystem, path: Path, readOnly: bool) returns (r: Result<Db, DbError>)
    modifies fs
    ensures r.Ok? ==> GetDbVersion(old(fs.nodes), path) == Ok(r.value.version)
    ensures IsDir(old(fs.nodes), path) && (!readOnly || IsFile(old(fs.nodes), path + [Mdbx.DATA_FILE_NAME])) ==>
              match GetDbVersion(old(fs.nodes), path)
              case Ok(v) => r.Ok? && r.value.version == v
              case Err(e) => r == Err(VersionError(e))
    ensures !IsDir(old(fs.nodes), path) ==> r.Err? && r.error.EnvError?
    ensures r.Ok? ==> fresh(r.value.env) && r.value.env.dir == path && r.value.env.tables == map[]
    ensures r.Ok? ==> r.value.env.mode == if readOnly then Mdbx.ReadOnly else Mdbx.ReadWrite(Mdbx.Durable)
    ensures readOnly ==> fs.nodes == old(fs.nodes)
  {
    var builder := new Mdbx.EnvBuilder();
    if !readOnly {
      builder.Write();
    }
    ghost var before := fs.nodes;
    var env := builder.Build(fs, path);
    if env.Err? {
      return Err(EnvError(env.error));
    }
    DataFileIsNotVersionFile(path);
    GetDbVersionFrame(before, fs.nodes, path);
    var version := GetDbVersion(fs.nodes, path);
    if version.Err? {
      return Err(VersionError(version.error));
    }
    return Ok(Db(env.value, version.value));
  }

  /** `Db::open`: `open_inner` in read-write mode. */
  method Open(fs: FileSystem, path: Path) returns (r: Result<Db, DbError>)
    modifies fs
    ensures r.Ok? ==> GetDbVersion(old(fs.nodes), path) == Ok(r.value.version)
    ensures IsDir(old(fs.nodes), path) ==>
              match GetDbVersion(old(fs.nodes), path)
              case Ok(v) => r.Ok? && r.value.version == v
              case Err(e) => r == Err(VersionError(e))
    ensures r.Ok? ==> r.value.env.mode == Mdbx.ReadWrite(Mdbx.Durable)
  {
    r := OpenInner(fs, path, false);
  }

  /** `Db::open_ro`: `open_inner` in read-only mode; the file system is left as it was. */
  method OpenRo(fs: FileSystem, path: Path) returns (r: Result<Db, DbError>)
    modifies fs
    ensures r.Ok? ==> GetDbVersion(old(fs.nodes), path) == Ok(r.value.version)
    ensures IsDir(old(fs.nodes), path) && IsFile(old(fs.nodes), path + [Mdbx.DATA_FILE_NAME]) ==>
              match GetDbVersion(old(fs.nodes), path)
              case Ok(v) => r.Ok? && r.value.version == v
              case Err(e) => r == Err(VersionError(e))
    ensures r.Ok? ==> r.value.env.mode == Mdbx.ReadOnly
    ensures fs.nodes == old(fs.nodes)
  {
    r := OpenInner(fs, path, true);
  }

  // ----- The behaviour fixed by the unit tests -----

  /**
   * A fresh empty directory becomes a database of the current version whose version
   * file is read-only and holds the four bytes of that version.
   */
  method NewInEmptyDir(root: Path, name: string, all: seq<Mdbx.TableDef>) returns (r: Result<Db, DbError>, fs: FileSystem)
    requires Mdbx.ConsistentDefs(all)
    ensures r.Ok? && r.value.version == CURRENT_DB_VERSION
    ensures DefaultVersionFilePath(root + [name]) in fs.nodes
    ensures fs.nodes[DefaultVersionFilePath(root + [name])] == File(ToBeBytes(CURRENT_DB_VERSION), true)
  {
    var path := root + [name];
    fs := new FileSystem(map[path := Dir]);
    assert !HasChildren(fs.nodes, path);
    assert NoFileOnPath(fs.nodes, path);
    Mdbx.CreateAllSucceeds(map[], all);
    r := New(fs, path, all);
  }

  /** Opening the same directory twice with `Db::new` keeps the version of the first opening. */
  method NewTwice(fs: FileSystem, path: Path, all: seq<Mdbx.TableDef>) returns (first: Result<Db, DbError>, second: Result<Db, DbError>)
    modifies fs
    ensures first.Ok? ==> second.Ok? && second.value.version == first.value.version
  {
    first := New(fs, path, all);
    if first.Ok? {
      assert DefaultVersionFilePath(path)[..|path|] == path;
      assert !IsDatabaseEmpty(fs.nodes, path);
    }
    second := New(fs, path, all);
  }

  /** A version file whose content is not four bytes makes `Db::new` fail with `MalformedContent`. */
  method NewWithMalformedVersionFile(path: Path, content: seq<Byte>, all: seq<Mdbx.TableDef>) returns (r: Result<Db, DbError>)
    requires |content| != 4
    ensures r == Err(VersionError(MalformedContent))
  {
    var fs := new FileSystem(map[path := Dir, DefaultVersionFilePath(path) := File(content, false)]);
    assert DefaultVersionFilePath(path)[..|path|] == path;
    assert DefaultVersionFilePath(path) != path;
    r := New(fs, path, all);
  }

  /** A stored version outside the block-compatible window, such as 99, is rejected. */
  method NewWithMismatchedVersion(path: Path, all: seq<Mdbx.TableDef>) returns (r: Result<Db, DbError>)
    ensures r == Err(VersionError(MismatchVersion(7, 99)))
  {
    var fs := new FileSystem(map[path := Dir, DefaultVersionFilePath(path) := File(ToBeBytes(99), false)]);
    assert DefaultVersionFilePath(path)[..|path|] == path;
    assert DefaultVersionFilePath(path) != path;
    FromToBeBytes(99);
    r := New(fs, path, all);
  }

  /** A database whose version file was removed gets it back, holding the current version. */
  method NewAfterVersionFileRemoved(fs: FileSystem, path: Path, all: seq<Mdbx.TableDef>) returns (r: Result<Db, DbError>)
    requires Mdbx.ConsistentDefs(all)
    requires IsDir(fs.nodes, path) && HasChildren(fs.nodes, path)
    requires DefaultVersionFilePath(path) !in fs.nodes
    modifies fs
    ensures r.Ok? && r.value.version == CURRENT_DB_VERSION
    ensures GetDbVersion(fs.nodes, path) == Ok(CURRENT_DB_VERSION)
  {
    Mdbx.CreateAllSucceeds(map[], all);
    assert DefaultVersionFilePath(path)[..|DefaultVersionFilePath(path)| - 1] == path;
    r := New(fs, path, all);
  }
}

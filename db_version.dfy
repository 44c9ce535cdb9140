/**
 * The database version stamp: a file named `db.version` holding the version as four
 * big-endian bytes, written read-only when a database is created.
 */
module DbVersion {
  import opened Wrappers
  import opened Files

  type Version = v: nat | v <= 0xFFFF_FFFF

  /** The version this build of the database writes. */
  const CURRENT_DB_VERSION: Version := 7

  const DB_VERSION_FILE_NAME: string := "db.version"

  datatype DatabaseVersionError =
    | FileNotFound
    | Io(error: IoError)
    | MalformedContent
    | MismatchVersion(expected: Version, found: Version)

  /** `u32::to_be_bytes`. */
  function ToBeBytes(v: Version): (b: seq<Byte>)
    ensures |b| == 4
  {
    [v / 0x100_0000, (v / 0x1_0000) % 0x100, (v / 0x100) % 0x100, v % 0x100]
  }

  /** `u32::from_be_bytes`: every four bytes are the encoding of the version they decode to. */
  function FromBeBytes(b: seq<Byte>): (v: Version)
    requires |b| == 4
    ensures ToBeBytes(v) == b
  {
    var b0, b1, b2, b3 := b[0] as int, b[1] as int, b[2] as int, b[3] as int;
    var v := b0 * 0x100_0000 + b1 * 0x1_0000 + b2 * 0x100 + b3;
    assert v / 0x100 == b0 * 0x1_0000 + b1 * 0x100 + b2;
    assert v / 0x1_0000 == b0 * 0x100 + b1;
    assert v / 0x100_0000 == b0;
    v
  }

  /** Decoding the encoding of a version gives the version back. */
  lemma FromToBeBytes(v: Version)
    ensures FromBeBytes(ToBeBytes(v)) == v
  {
    var b := ToBeBytes(v);
    assert v == (v / 0x100) * 0x100 + v % 0x100;
    assert v / 0x100 == (v / 0x1_0000) * 0x100 + (v / 0x100) % 0x100;
    assert v / 0x1_0000 == (v / 0x100_0000) * 0x100 + (v / 0x1_0000) % 0x100;
  }

  /** A version whose block data this build can still read. */
  predicate IsBlockCompatibleVersion(v: Version)
    ensures IsBlockCompatibleVersion(v) <==> v in {5, 6, 7}
  {
    5 <= v <= CURRENT_DB_VERSION
  }

  /** `<dir>/db.version`: the child of `dir` named `db.version`. */
  function DefaultVersionFilePath(dir: Path): (p: Path)
    ensures |p| == |dir| + 1 && p[..|dir|] == dir && p[|dir|] == DB_VERSION_FILE_NAME
  {
    dir + [DB_VERSION_FILE_NAME]
  }

  /** Where the version file of `p` lives: inside `p` when it is a directory, `p` itself otherwise. */
  function ResolveVersionPath(nodes: map<Path, Node>, p: Path): (target: Path)
    ensures IsDir(nodes, p) ==> target == p + [DB_VERSION_FILE_NAME]
    ensures !IsDir(nodes, p) ==> target == p
  {
    if IsDir(nodes, p) then DefaultVersionFilePath(p) else p
  }

  /**
   * `get_db_version`: a missing file is `FileNotFound`, a file that cannot be read
   * (a directory) an I/O error, and anything but exactly four bytes `MalformedContent`.
   */
  function GetDbVersion(nodes: map<Path, Node>, p: Path): (r: Result<Version, DatabaseVersionError>)
    ensures r == Err(FileNotFound) <==> ResolveVersionPath(nodes, p) !in nodes
    ensures r == Err(MalformedContent) <==>
              IsFile(nodes, ResolveVersionPath(nodes, p)) && |nodes[ResolveVersionPath(nodes, p)].bytes| != 4
    ensures r.Ok? <==> IsFile(nodes, ResolveVersionPath(nodes, p)) && |nodes[ResolveVersionPath(nodes, p)].bytes| == 4
    ensures r.Ok? ==> ToBeBytes(r.value) == nodes[ResolveVersionPath(nodes, p)].bytes
    ensures IsDir(nodes, ResolveVersionPath(nodes, p)) ==> r == Err(Io(IsADirectory))
  {
    var target := ResolveVersionPath(nodes, p);
    if target !in nodes then Err(FileNotFound)
    else if nodes[target].Dir? then Err(Io(IsADirectory))
    else if |nodes[target].bytes| != 4 then Err(MalformedContent)
    else
      Ok(FromBeBytes(nodes[target].bytes))
  }

  /** The version read depends only on `p` and on `p/db.version`. */
  lemma GetDbVersionFrame(nodes: map<Path, Node>, nodes': map<Path, Node>, p: Path)
    requires p in nodes <==> p in nodes'
    requires p in nodes ==> nodes[p] == nodes'[p]
    requires DefaultVersionFilePath(p) in nodes <==> DefaultVersionFilePath(p) in nodes'
    requires DefaultVersionFilePath(p) in nodes ==> nodes[DefaultVersionFilePath(p)] == nodes'[DefaultVersionFilePath(p)]
    ensures GetDbVersion(nodes', p) == GetDbVersion(nodes, p)
  {
  }

  /** Reading a version file just written as `v` gives `v`. */
  lemma ReadAfterCreate(nodes: map<Path, Node>, p: Path, v: Version)
    ensures ResolveVersionPath(nodes[ResolveVersionPath(nodes, p) := File(ToBeBytes(v), true)], p) == ResolveVersionPath(nodes, p)
    ensures GetDbVersion(nodes[ResolveVersionPath(nodes, p) := File(ToBeBytes(v), true)], p) == Ok(v)
  {
    var target := ResolveVersionPath(nodes, p);
    var nodes' := nodes[target := File(ToBeBytes(v), true)];
    assert ResolveVersionPath(nodes', p) == target by {
      if IsDir(nodes, p) {
        assert target != p;
      }
    }
    FromToBeBytes(v);
  }

  /**
   * `create_db_version_file`: creates (or truncates) the version file of `p`, marks it
   * read-only through the open handle, writes the four bytes of `v`, and returns `v`.
   */
  method CreateDbVersionFile(fs: FileSystem, p: Path, v: Version) returns (r: Result<Version, DatabaseVersionError>)
    modifies fs
    ensures r.Ok? <==> CanCreate(old(fs.nodes), ResolveVersionPath(old(fs.nodes), p))
    ensures r.Ok? ==> r.value == v
    ensures r.Ok? ==> fs.nodes == old(fs.nodes)[ResolveVersionPath(old(fs.nodes), p) := File(ToBeBytes(v), true)]
    ensures r.Ok? ==> GetDbVersion(fs.nodes, p) == Ok(v)
    ensures r.Ok? ==> ResolveVersionPath(fs.nodes, p) == ResolveVersionPath(old(fs.nodes), p)
    ensures r.Err? ==> r.error.Io? && fs.nodes == old(fs.nodes)
  {
    var target := ResolveVersionPath(fs.nodes, p);
    var created := fs.CreateFile(target);
    if created.Err? {
      return Err(Io(created.error));
    }
    fs.SetReadOnly(target);
    fs.WriteAll(target, ToBeBytes(v));
    assert [] + ToBeBytes(v) == ToBeBytes(v);
    ReadAfterCreate(old(fs.nodes), p, v);
    return Ok(v);
  }
}

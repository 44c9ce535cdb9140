/**
 * The part of the file system the database touches: a map from paths to nodes, where
 * a node is a directory or a file with its bytes and its read-only permission bit.
 * A path is the list of its components, so `path.join(name)` is `path + [name]`.
 */
module Files {
  import opened Wrappers

  type Byte = b: int | 0 <= b < 256

  type Path = seq<string>

  datatype Node = File(bytes: seq<Byte>, readOnly: bool) | Dir

  datatype IoError = NotFound | PermissionDenied | IsADirectory | NotADirectory | AlreadyExists

  predicate IsDir(nodes: map<Path, Node>, p: Path) {
    p in nodes && nodes[p].Dir?
  }

  predicate IsFile(nodes: map<Path, Node>, p: Path) {
    p in nodes && nodes[p].File?
  }

  /** Whether some node lies below `p`. */
  predicate HasChildren(nodes: map<Path, Node>, p: Path) {
    exists q :: q in nodes && |q| > |p| && q[..|p|] == p
  }

  /** `File::create` succeeds: the parent is a directory and the target is not a directory or a read-only file. */
  predicate CanCreate(nodes: map<Path, Node>, p: Path) {
    && |p| > 0
    && IsDir(nodes, p[..|p| - 1])
    && !IsDir(nodes, p)
    && !(IsFile(nodes, p) && nodes[p].readOnly)
  }

  /** Every node of `before` is still there, unchanged. */
  predicate Keeps(before: map<Path, Node>, after: map<Path, Node>) {
    forall q :: q in before ==> q in after && after[q] == before[q]
  }

  class FileSystem {
    var nodes: map<Path, Node>

    constructor (nodes: map<Path, Node>)
      ensures this.nodes == nodes
    {
      this.nodes := nodes;
    }

    /**
     * `fs::create_dir_all`: creates each missing ancestor of `p`, and `p`, from the top
     * down. Its first `mkdir(p)` fails with `AlreadyExists` when `p` is a file; an
     * ancestor that is a file makes it fail with `NotADirectory`.
     */
    method CreateDirAll(p: Path) returns (r: Result<(), IoError>)
      modifies this
      ensures r.Ok? <==> forall i :: 1 <= i <= |p| ==> !IsFile(old(nodes), p[..i])
      ensures r.Ok? ==> forall i :: 1 <= i <= |p| ==> IsDir(nodes, p[..i])
      ensures r.Err? ==> r.error == if IsFile(old(nodes), p) then AlreadyExists else NotADirectory
      ensures Keeps(old(nodes), nodes)
      ensures forall q :: q in nodes && q !in old(nodes) ==> nodes[q] == Dir && exists i :: 1 <= i <= |p| && q == p[..i]
    {
      if |p| > 0 && IsFile(nodes, p) {
        assert p[..|p|] == p;
        return Err(AlreadyExists);
      }
      var i := 1;
      while i <= |p|
        invariant 1 <= i <= |p| + 1
        invariant forall j :: 1 <= j < i ==> IsDir(nodes, p[..j]) && !IsFile(old(nodes), p[..j])
        invariant Keeps(old(nodes), nodes)
        invariant forall q :: q in nodes && q !in old(nodes) ==> nodes[q] == Dir && exists j :: 1 <= j < i && q == p[..j]
      {
        var q := p[..i];
        if q in nodes && nodes[q].File? {
          assert IsFile(old(nodes), q);
          assert q != p by {
            assert p[..|p|] == p;
          }
          return Err(NotADirectory);
        }
        if q !in nodes {
          nodes := nodes[q := Dir];
        }
        i := i + 1;
      }
      return Ok(());
    }

    /** `fs::create_dir`: creates the directory `p`, whose parent must exist. */
    method CreateDir(p: Path) returns (r: Result<(), IoError>)
      modifies this
      ensures r.Ok? <==> |p| > 0 && IsDir(old(nodes), p[..|p| - 1]) && p !in old(nodes)
      ensures r.Ok? ==> nodes == old(nodes)[p := Dir]
      ensures r.Err? ==> nodes == old(nodes)
    {
      if |p| == 0 || p in nodes {
        return Err(AlreadyExists);
      }
      if !IsDir(nodes, p[..|p| - 1]) {
        return Err(NotFound);
      }
      nodes := nodes[p := Dir];
      return Ok(());
    }

    /**
     * `File::create`: opens `p` for writing, creating it or truncating it. The new file
     * is writable; a truncated file keeps its permission bit.
     */
    method CreateFile(p: Path) returns (r: Result<(), IoError>)
      modifies this
      ensures r.Ok? <==> CanCreate(old(nodes), p)
      ensures r.Ok? ==> nodes == old(nodes)[p := File([], false)]
      ensures r.Err? ==> nodes == old(nodes)
    {
      if |p| == 0 || !IsDir(nodes, p[..|p| - 1]) {
        return Err(NotFound);
      }
      if IsDir(nodes, p) {
        return Err(IsADirectory);
      }
      if IsFile(nodes, p) && nodes[p].readOnly {
        return Err(PermissionDenied);
      }
      nodes := nodes[p := File([], false)];
      return Ok(());
    }

    /** `set_permissions` with the read-only bit set, through a handle already open on the file `p`. */
    method SetReadOnly(p: Path)
      requires IsFile(nodes, p)
      modifies this
      ensures nodes == old(nodes)[p := File(old(nodes)[p].bytes, true)]
    {
      nodes := nodes[p := File(nodes[p].bytes, true)];
    }

    /**
     * `write_all` through a handle opened for writing on `p`: the handle was opened
     * before any permission change, so the permission bit does not stop it.
     */
    method WriteAll(p: Path, bytes: seq<Byte>)
      requires IsFile(nodes, p)
      modifies this
      ensures nodes == old(nodes)[p := File(old(nodes)[p].bytes + bytes, old(nodes)[p].readOnly)]
    {
      nodes := nodes[p := File(nodes[p].bytes + bytes, nodes[p].readOnly)];
    }

    /** `fs::remove_file`. */
    method RemoveFile(p: Path) returns (r: Result<(), IoError>)
      modifies this
      ensures r.Ok? <==> IsFile(old(nodes), p)
      ensures r.Ok? ==> nodes == old(nodes) - {p}
      ensures r.Err? ==> nodes == old(nodes)
    {
      if !IsFile(nodes, p) {
        return Err(NotFound);
      }
      nodes := nodes - {p};
      return Ok(());
    }
  }
}

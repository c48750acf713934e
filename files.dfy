/**
  * The part of the filesystem the plugin touches, and the PHP file
  * functions it calls on it. A node is a regular file, a directory (with the
  * modification time `filemtime` reports) or a symbolic link. A link has no
  * entries of its own here: its target is not modelled, only whether it is a
  * directory (`is_dir` follows links) and the target's modification time.
  */
module Files {
  import opened Text
  import opened Paths

  type Byte = bv8

  datatype Node =
    | File(data: seq<Byte>)
    | Dir(mtime: int)
    | Link(toDir: bool, targetMtime: int)

  type Nodes = map<Path, Node>

  /** Every entry is named by plain names and hangs below the root through directories only. */
  ghost predicate WellFormed(nodes: Nodes) {
    forall p | p in nodes :: p != [] && IsPlainPath(p) && forall i | 0 < i < |p| :: p[..i] in nodes && nodes[p[..i]].Dir?
  }

  /** PHP `is_dir`: the root, a directory, or a link to one. */
  predicate IsDir(nodes: Nodes, p: Path) {
    p == [] || (p in nodes && (nodes[p].Dir? || (nodes[p].Link? && nodes[p].toDir)))
  }

  /** PHP `is_link`. */
  predicate IsLink(nodes: Nodes, p: Path) {
    p in nodes && nodes[p].Link?
  }

  /** PHP `file_exists`. */
  predicate Exists(nodes: Nodes, p: Path) {
    p == [] || p in nodes
  }

  /** A real directory (not a link), the root included. */
  predicate IsRealDir(nodes: Nodes, p: Path) {
    p == [] || (p in nodes && nodes[p].Dir?)
  }

  /** PHP `filemtime` of something `is_dir` accepts (the root reads as 0). */
  function DirMtime(nodes: Nodes, p: Path): int
    requires IsDir(nodes, p)
  {
    if p == [] then 0 else if nodes[p].Dir? then nodes[p].mtime else nodes[p].targetMtime
  }

  /** PHP `scandir` without `.` and `..`: the names of the entries of `d`. */
  function Children(nodes: Nodes, d: Path): (names: set<string>)
    ensures forall n | n in names :: d + [n] in nodes
    ensures forall n | d + [n] in nodes :: n in names
  {
    var names := set p | p in nodes && |p| == |d| + 1 && p[..|d|] == d :: p[|d|];
    assert forall n | n in names :: d + [n] in nodes by {
      forall n | n in names ensures d + [n] in nodes {
        var p :| p in nodes && |p| == |d| + 1 && p[..|d|] == d && n == p[|d|];
        assert p == d + [n];
      }
    }
    assert forall n | d + [n] in nodes :: n in names by {
      forall n | d + [n] in nodes ensures n in names {
        var p := d + [n];
        assert |p| == |d| + 1 && p[..|d|] == d && p[|d|] == n;
      }
    }
    names
  }

  /** The entries at or below `d`. */
  function Subtree(nodes: Nodes, d: Path): (s: set<Path>)
    ensures s <= nodes.Keys
    ensures forall p | p in nodes && IsPrefix(d, p) :: p in s
    ensures forall p | p in s :: IsPrefix(d, p)
  {
    set p | p in nodes && IsPrefix(d, p)
  }

  /** The enclosing directory of `p` exists as a real directory. */
  predicate InDir(nodes: Nodes, p: Path) {
    p != [] && IsRealDir(nodes, p[..|p| - 1])
  }

  /** Can a regular file be written at `p` (created, or an existing file replaced)? */
  predicate CanWriteFile(nodes: Nodes, p: Path) {
    InDir(nodes, p) && (p !in nodes || nodes[p].File?)
  }

  /** Does `mkdir($p, 0755, true)` succeed? Every enclosing entry that exists is a real directory, and `p` itself is absent. */
  predicate CanMakeDirs(nodes: Nodes, p: Path) {
    p != [] && p !in nodes
    && forall i | 0 < i < |p| :: p[..i] in nodes ==> nodes[p[..i]].Dir?
  }

  /** The nodes after `mkdir -p`: every missing prefix of `p` becomes a directory stamped `now`. */
  function WithDirs(nodes: Nodes, p: Path, now: int): (r: Nodes)
    ensures forall q | q in nodes :: q in r && r[q] == nodes[q]
    ensures forall i | 0 < i <= |p| :: p[..i] in r
    ensures forall q | q in r && q !in nodes :: (exists i | 0 < i <= |p| :: q == p[..i]) && r[q] == Dir(now)
  {
    var added := set i | 0 < i <= |p| && p[..i] !in nodes :: p[..i];
    var r := map q | q in nodes.Keys + added :: if q in nodes then nodes[q] else Dir(now);
    assert forall i | 0 < i <= |p| :: p[..i] in r by {
      forall i | 0 < i <= |p| ensures p[..i] in r {
        if p[..i] !in nodes {
          assert p[..i] in added;
        }
      }
    }
    r
  }

  lemma WellFormedPrefix(nodes: Nodes, p: Path, i: nat)
    requires WellFormed(nodes)
    requires p in nodes && 0 < i < |p|
    ensures p[..i] in nodes && nodes[p[..i]].Dir?
  {
  }

  /** A non-directory has nothing below it. */
  lemma NothingBelowNonDir(nodes: Nodes, p: Path, q: Path)
    requires WellFormed(nodes)
    requires p != [] && q in nodes && IsPrefix(p, q) && q != p
    ensures p in nodes && nodes[p].Dir?
  {
    assert q[..|p|] == p;
  }

  /** Whatever lies strictly below `p` passes through one of its entries. */
  lemma BelowHasChild(nodes: Nodes, p: Path, q: Path)
    requires WellFormed(nodes)
    requires q in nodes && IsPrefix(p, q) && q != p
    ensures q[|p|] in Children(nodes, p)
  {
    var c := q[..|p| + 1];
    assert c == p + [q[|p|]];
    if c != q {
      WellFormedPrefix(nodes, q, |p| + 1);
    }
  }

  class FileSystem {
    var nodes: Nodes

    ghost predicate Valid()
      reads this
    {
      WellFormed(nodes)
    }

    constructor (init: Nodes)
      requires WellFormed(init)
      ensures Valid() && nodes == init
    {
      nodes := init;
    }

    /** `mkdir($p, 0755, true)`. */
    method MakeDirs(p: Path, now: int) returns (ok: bool)
      requires Valid() && IsPlainPath(p)
      modifies this
      ensures Valid()
      ensures ok == CanMakeDirs(old(nodes), p)
      ensures nodes == if ok then WithDirs(old(nodes), p, now) else old(nodes)
    {
      ok := CanMakeDirs(nodes, p);
      if ok {
        var r := WithDirs(nodes, p, now);
        forall q | q in r
          ensures q != [] && IsPlainPath(q) && forall i | 0 < i < |q| :: q[..i] in r && r[q[..i]].Dir?
        {
          if q in nodes {
            assert WellFormed(nodes);
          } else {
            var j :| 0 < j <= |p| && q == p[..j];
            assert IsPlainPath(q) by {
              forall i | 0 <= i < |q| ensures IsPlainName(q[i]) {
                assert q[i] == p[i];
              }
            }
            forall i | 0 < i < |q|
              ensures q[..i] in r && r[q[..i]].Dir?
            {
              assert q[..i] == p[..i];
              if p[..i] in nodes {
                assert nodes[p[..i]].Dir?;
              }
            }
          }
        }
        nodes := r;
      }
    }

    /** `move_uploaded_file($tmp, $p)` and `fopen($p, 'wb')`: a regular file with exactly `data` at `p`. */
    method WriteFile(p: Path, data: seq<Byte>) returns (ok: bool)
      requires Valid() && IsPlainPath(p)
      modifies this
      ensures Valid()
      ensures ok == CanWriteFile(old(nodes), p)
      ensures nodes == if ok then old(nodes)[p := File(data)] else old(nodes)
    {
      ok := CanWriteFile(nodes, p);
      if ok {
        var r := nodes[p := File(data)];
        forall q | q in r
          ensures q != [] && IsPlainPath(q) && forall i | 0 < i < |q| :: q[..i] in r && r[q[..i]].Dir?
        {
          forall i | 0 < i < |q|
            ensures q[..i] in r && r[q[..i]].Dir?
          {
            if q == p {
              assert q[..i] == (p[..|p| - 1])[..i];
            } else if q[..i] == p {
              NothingBelowNonDir(nodes, p, q);
              assert false;
            }
          }
        }
        nodes := r;
      }
    }

    /** `fwrite` on a handle opened with `wb`: append `data` to the file at `p`. */
    method Append(p: Path, data: seq<Byte>)
      requires Valid() && p in nodes && nodes[p].File?
      modifies this
      ensures Valid()
      ensures nodes == old(nodes)[p := File(old(nodes)[p].data + data)]
    {
      nodes := nodes[p := File(nodes[p].data + data)];
    }

    /** `file_get_contents($p)` of a regular file. */
    method Read(p: Path) returns (data: seq<Byte>)
      requires p in nodes && nodes[p].File?
      ensures data == nodes[p].data
    {
      data := nodes[p].data;
    }

    /** `unlink($p)`: removes a file or a link, refuses a directory. */
    method Unlink(p: Path) returns (ok: bool)
      requires Valid()
      modifies this
      ensures Valid()
      ensures ok == (p in old(nodes) && !old(nodes)[p].Dir?)
      ensures nodes == if ok then old(nodes) - {p} else old(nodes)
    {
      ok := p in nodes && !nodes[p].Dir?;
      if ok {
        forall q | q in nodes && IsPrefix(p, q) && q != p
          ensures false
        {
          NothingBelowNonDir(nodes, p, q);
        }
        nodes := nodes - {p};
      }
    }

    /** `rmdir($p)`: removes an empty directory, refuses anything else. */
    method RemoveDir(p: Path) returns (ok: bool)
      requires Valid()
      modifies this
      ensures Valid()
      ensures ok == (p in old(nodes) && old(nodes)[p].Dir? && Children(old(nodes), p) == {})
      ensures nodes == if ok then old(nodes) - {p} else old(nodes)
    {
      ok := p in nodes && nodes[p].Dir? && Children(nodes, p) == {};
      if ok {
        forall q | q in nodes && IsPrefix(p, q) && q != p
          ensures false
        {
          BelowHasChild(nodes, p, q);
        }
        nodes := nodes - {p};
      }
    }

    /** `rename($src, $dst)` of a regular file onto a free or file-occupied name in an existing directory. */
    method Rename(src: Path, dst: Path) returns (ok: bool)
      requires Valid() && IsPlainPath(dst)
      modifies this
      ensures Valid()
      ensures ok == (src in old(nodes) && old(nodes)[src].File? && CanWriteFile(old(nodes), dst))
      ensures nodes == if !ok then old(nodes)
                       else (old(nodes) - {src})[dst := old(nodes)[src]]
    {
      ok := src in nodes && nodes[src].File? && CanWriteFile(nodes, dst);
      if ok {
        var node := nodes[src];
        var r0 := nodes - {src};
        forall q | q in nodes && IsPrefix(src, q) && q != src
          ensures false
        {
          NothingBelowNonDir(nodes, src, q);
        }
        assert WellFormed(r0);
        if dst != src {
          assert InDir(r0, dst) by {
            var par := dst[..|dst| - 1];
            if par != [] {
              assert par in nodes && nodes[par].Dir?;
              assert par != src;
            }
          }
        }
        var r := r0[dst := node];
        forall q | q in r
          ensures q != [] && IsPlainPath(q) && forall i | 0 < i < |q| :: q[..i] in r && r[q[..i]].Dir?
        {
          forall i | 0 < i < |q|
            ensures q[..i] in r && r[q[..i]].Dir?
          {
            if q == dst {
              assert q[..i] == (dst[..|dst| - 1])[..i];
              var par := dst[..|dst| - 1];
              assert par in nodes && nodes[par].Dir?;
              if i < |par| {
                WellFormedPrefix(nodes, par, i);
              }
              assert q[..i] != src;
            } else if q[..i] == dst {
              NothingBelowNonDir(nodes, dst, q);
              assert false;
            }
          }
        }
        nodes := r;
      }
    }
  }
}

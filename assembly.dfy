/**
  * The assembler (`icc_upload_and_shorten_handle_finish`) and the request
  * dispatcher (`icc_upload_and_shorten_handle_ajax`): the stored chunks are
  * appended in `natsort` order to `icc_temp_<id>/<file_name>`, each
  * removed once written, and the result is handed to the publisher.
  */
module Assembly {
  import opened Wrappers
  import opened Text
  import opened Paths
  import opened Files
  import opened TempSpace
  import opened Naming
  import opened Publish
  import Slicing

  // -------------------------------------------------------------- natsort

  predicate Increasing(s: seq<nat>) {
    forall i, j | 0 <= i < j < |s| :: s[i] < s[j]
  }

  /** A non-empty set of naturals has a least element. */
  lemma {:induction false} LeastOf(s: set<nat>) returns (m: nat)
    requires s != {}
    ensures m in s && forall x | x in s :: m <= x
    decreases |s|
  {
    var x :| x in s;
    if s == {x} {
      m := x;
    } else {
      var rest := LeastOf(s - {x});
      m := if x < rest then x else rest;
      forall y | y in s ensures m <= y {
        if y != x {
          assert y in s - {x};
        }
      }
    }
  }

  function SetMin(s: set<nat>): (m: nat)
    requires s != {}
    ensures m in s && forall x | x in s :: m <= x
  {
    assert exists m :: m in s && forall x | x in s :: m <= x by {
      var w := LeastOf(s);
      assert w in s;
    }
    var m :| m in s && forall x | x in s :: m <= x;
    m
  }

  /** The elements of a set in ascending order: the order `natsort` puts `part_<k>` names, `k >= 0`, in. */
  function Ascending(s: set<nat>): (r: seq<nat>)
    ensures |r| == |s| && Increasing(r)
    ensures forall x :: x in r <==> x in s
    decreases |s|
  {
    if s == {} then []
    else
      var m := SetMin(s);
      var rest := Ascending(s - {m});
      assert forall i | 0 <= i < |rest| :: m < rest[i];
      [m] + rest
  }

  /** `r` lists exactly the elements of `s`. */
  ghost predicate Lists(r: seq<nat>, s: set<nat>) {
    forall x :: x in r <==> x in s
  }

  /** The head of an increasing listing of `s` is the least element of `s`. */
  lemma {:induction false} HeadIsMin(s: set<nat>, r: seq<nat>)
    requires r != [] && Increasing(r) && Lists(r, s)
    ensures s != {} && r[0] == SetMin(s)
  {
    assert r[0] in s;
    forall j | 0 <= j < |r| ensures r[0] <= r[j] {
      if j > 0 {
        assert r[0] < r[j];
      }
    }
    var m := SetMin(s);
    assert m in r;
  }

  /** Dropping the head of an increasing listing of `s` lists the rest of `s`, still increasing. */
  lemma {:induction false} TailListsRest(s: set<nat>, r: seq<nat>)
    requires r != [] && Increasing(r) && Lists(r, s)
    ensures Increasing(r[1..]) && Lists(r[1..], s - {r[0]})
  {
    var t := r[1..];
    forall i, j | 0 <= i < j < |t| ensures t[i] < t[j] {
      assert t[i] == r[i + 1] && t[j] == r[j + 1];
    }
    forall x ensures x in t <==> x in s - {r[0]} {
      if x in t {
        var i :| 0 <= i < |t| && t[i] == x;
        assert r[0] < r[i + 1];
      }
      if x in s - {r[0]} {
        var i :| 0 <= i < |r| && r[i] == x;
        assert t[i - 1] == x;
      }
    }
  }

  lemma AscendingCons(s: set<nat>)
    requires s != {}
    ensures Ascending(s) == [SetMin(s)] + Ascending(s - {SetMin(s)})
  {
  }

  /** A strictly increasing sequence is the only one that lists its elements in order. */
  lemma {:induction false} AscendingUnique(s: set<nat>, r: seq<nat>)
    requires Increasing(r) && Lists(r, s)
    ensures r == Ascending(s)
    decreases |r|
  {
    if r == [] {
      assert forall x :: x !in s;
    } else {
      var m, t := r[0], r[1..];
      HeadIsMin(s, r);
      TailListsRest(s, r);
      AscendingCons(s);
      AscendingUnique(s - {m}, t);
      assert r == [m] + t;
    }
  }

  /** `0, 1, …, n - 1`. */
  function Range(n: nat): (r: seq<nat>)
    ensures |r| == n && forall i | 0 <= i < n :: r[i] == i
  {
    seq(n, i requires 0 <= i => i)
  }

  /** The indices `0 … n-1` as a set. */
  function Below(n: nat): (s: set<nat>)
    ensures forall k: nat :: k in s <==> k < n
  {
    if n == 0 then {} else Below(n - 1) + {n - 1}
  }

  /** The chunks `0 … n-1` come out of `natsort` in index order. */
  lemma AscendingRange(n: nat)
    ensures Ascending(Below(n)) == Range(n)
  {
    var r := Range(n);
    forall x ensures x in r <==> x in Below(n) {
      if x in Below(n) {
        assert r[x] == x;
      }
    }
    assert Lists(r, Below(n));
    AscendingUnique(Below(n), r);
  }

  /**
    * `natsort`'s order on `part_<a>` and `part_<b>`: past the common
    * `part_`, a `-` sorts below every digit, and two runs of digits compare
    * by value, so negative indices come first, by increasing magnitude,
    * then the others in ascending order.
    */
  predicate NatBefore(a: int, b: int) {
    (a < 0 && b >= 0) || (0 <= a < b) || (b < a < 0)
  }

  function Negated(s: seq<nat>): (r: seq<int>)
    ensures |r| == |s| && forall i | 0 <= i < |s| :: r[i] == -(s[i] as int)
  {
    seq(|s|, i requires 0 <= i < |s| => -(s[i] as int))
  }

  /**
    * The indices `-m` for `m` in `neg` and `k` for `k` in `pos`, in the
    * order `natsort` puts `part_-m` and `part_k` in.
    */
  function NatSorted(neg: set<nat>, pos: set<nat>): (r: seq<int>)
    requires forall m | m in neg :: m >= 1
    ensures forall i, j | 0 <= i < j < |r| :: NatBefore(r[i], r[j])
    ensures forall k: int :: k in r <==> (k >= 0 && k in pos) || (k < 0 && -k in neg)
  {
    var asc := Ascending(neg);
    var up: seq<int> := Ascending(pos);
    NegatedOrder(asc);
    NatOrderJoin(Negated(asc), up);
    JoinMembers(neg, pos, Negated(asc), up);
    Negated(asc) + up
  }

  /** What the joined listing holds: the negated magnitudes and the other indices. */
  lemma JoinMembers(neg: set<nat>, pos: set<nat>, down: seq<int>, up: seq<int>)
    requires forall k: int :: k in down <==> k < 0 && -k in neg
    requires forall k: int :: k in up <==> k >= 0 && k in pos
    ensures forall k: int :: k in down + up <==> (k >= 0 && k in pos) || (k < 0 && -k in neg)
  {
  }

  /** The indices of the regular `part_<i>` files of `dir` in the order `natsort` leaves their paths in. */
  function NatOrder(nodes: Nodes, dir: Path): seq<int> {
    NatSorted(NegIndices(nodes, dir), Indices(nodes, dir))
  }

  /** Negating an increasing listing of positive magnitudes gives negative indices in `natsort` order. */
  lemma NegatedOrder(asc: seq<nat>)
    requires Increasing(asc) && forall i | 0 <= i < |asc| :: asc[i] >= 1
    ensures forall i | 0 <= i < |asc| :: Negated(asc)[i] < 0
    ensures forall i, j | 0 <= i < j < |asc| :: NatBefore(Negated(asc)[i], Negated(asc)[j])
    ensures forall k: int :: k in Negated(asc) <==> k < 0 && -k in asc
  {
    var neg := Negated(asc);
    forall k: int ensures k in neg <==> k < 0 && -k in asc {
      if k < 0 && -k in asc {
        var i :| 0 <= i < |asc| && asc[i] == -k;
        assert neg[i] == k;
      }
    }
  }

  /** Negative indices in `natsort` order, then the others ascending, are in `natsort` order. */
  lemma NatOrderJoin(neg: seq<int>, pos: seq<int>)
    requires forall i, j | 0 <= i < j < |neg| :: NatBefore(neg[i], neg[j])
    requires forall i | 0 <= i < |neg| :: neg[i] < 0
    requires forall i, j | 0 <= i < j < |pos| :: 0 <= pos[i] < pos[j]
    requires forall i | 0 <= i < |pos| :: pos[i] >= 0
    ensures forall i, j | 0 <= i < j < |neg + pos| :: NatBefore((neg + pos)[i], (neg + pos)[j])
  {
    var r := neg + pos;
    forall i, j | 0 <= i < j < |r| ensures NatBefore(r[i], r[j]) {
      if i >= |neg| {
        assert r[i] == pos[i - |neg|] && r[j] == pos[j - |neg|];
      }
    }
  }

  // ------------------------------------------------------------ gathering

  /** The path of the stored chunk `k`. */
  function ChunkPath(dir: Path, k: int): Path {
    dir + [PartName(k)]
  }

  function ChunkPaths(dir: Path, order: seq<int>): set<Path> {
    set k | k in order :: ChunkPath(dir, k)
  }

  /**
    * The bytes `fwrite` appends for the chunks in `order`: each one's
    * `file_get_contents`, which is "" for anything but a regular file.
    */
  function Gathered(nodes: Nodes, dir: Path, order: seq<int>): seq<Byte> {
    if order == [] then []
    else
      var p := ChunkPath(dir, order[|order| - 1]);
      Gathered(nodes, dir, order[..|order| - 1]) + (if p in nodes && nodes[p].File? then nodes[p].data else [])
  }

  /** What the `foreach` over one more chunk adds: its path to those removed, its bytes to the output. */
  lemma {:induction false} GatherStep(base: Nodes, dir: Path, order: seq<int>, i: nat)
    requires i < |order| && forall a, b | 0 <= a < b < |order| :: order[a] != order[b]
    ensures ChunkPath(dir, order[i]) !in ChunkPaths(dir, order[..i])
    ensures ChunkPaths(dir, order[..i + 1]) == ChunkPaths(dir, order[..i]) + {ChunkPath(dir, order[i])}
    ensures var p := ChunkPath(dir, order[i]);
            Gathered(base, dir, order[..i + 1])
            == Gathered(base, dir, order[..i]) + (if p in base && base[p].File? then base[p].data else [])
  {
    var p := ChunkPath(dir, order[i]);
    forall j | 0 <= j < i ensures ChunkPath(dir, order[j]) != p {
      if ChunkPath(dir, order[j]) == p {
        assert PartName(order[j]) == ChunkPath(dir, order[j])[|dir|];
        PartNameInjective(order[j], order[i]);
      }
    }
    assert order[..i + 1] == order[..i] + [order[i]];
    assert forall x :: x in order[..i + 1] <==> x in order[..i] || x == order[i];
    assert order[..i + 1][..i] == order[..i];
  }

  /** The nodes once the chunks in `done` are appended to `final`, which started as `start`, and removed. */
  ghost function Progress(base: Nodes, dir: Path, final: Path, start: seq<Byte>, done: seq<int>): Nodes {
    (base - ChunkPaths(dir, done))[final := File(start + Gathered(base, dir, done))]
  }

  /** Removing one more key below a later update. */
  lemma MapStep(base: Nodes, gone: set<Path>, c: Path, f: Path, y: Node, x: Node)
    requires c != f
    ensures (base - gone)[f := y][f := x] - {c} == (base - (gone + {c}))[f := x]
  {
  }

  /** One turn of the `foreach`: read chunk `order[i]`, append it to the output, unlink it. */
  lemma {:induction false} ProgressStep(base: Nodes, dir: Path, final: Path, start: seq<Byte>, order: seq<int>, i: nat)
    requires i < |order| && forall a, b | 0 <= a < b < |order| :: order[a] != order[b]
    requires final !in ChunkPaths(dir, order)
    requires ChunkPath(dir, order[i]) in base && base[ChunkPath(dir, order[i])].File?
    ensures var cur := Progress(base, dir, final, start, order[..i]);
            var chunk := ChunkPath(dir, order[i]);
            && chunk in cur && cur[chunk] == base[chunk] && chunk != final
            && final in cur && cur[final].File?
            && cur[final := File(cur[final].data + base[chunk].data)] - {chunk}
               == Progress(base, dir, final, start, order[..i + 1])
  {
    var chunk := ChunkPath(dir, order[i]);
    GatherStep(base, dir, order, i);
    assert order[i] in order;
    var done := ChunkPaths(dir, order[..i]);
    var g := Gathered(base, dir, order[..i]);
    var data := start + g + base[chunk].data;
    assert start + Gathered(base, dir, order[..i + 1]) == data;
    MapStep(base, done, chunk, final, File(start + g), File(data));
  }

  /**
    * The `foreach` of `handle_finish`: for each chunk path in `order`,
    * `file_get_contents`, `fwrite` to the open output file, `unlink`.
    */
  method AppendChunks(fs: FileSystem, dir: Path, final: Path, order: seq<int>)
    requires fs.Valid() && final in fs.nodes && fs.nodes[final].File?
    requires final !in ChunkPaths(dir, order)
    requires forall a, b | 0 <= a < b < |order| :: order[a] != order[b]
    requires forall k | k in order :: ChunkPath(dir, k) in fs.nodes && fs.nodes[ChunkPath(dir, k)].File?
    modifies fs
    ensures fs.Valid()
    ensures fs.nodes == Progress(old(fs.nodes), dir, final, old(fs.nodes)[final].data, order)
  {
    ghost var base := fs.nodes;
    ghost var start := base[final].data;
    var i := 0;
    assert ChunkPaths(dir, order[..0]) == {};
    assert start + [] == start;
    assert base[final := File(start)] == base;
    while i < |order|
      invariant 0 <= i <= |order| && fs.Valid()
      invariant fs.nodes == Progress(base, dir, final, start, order[..i])
    {
      var chunk := ChunkPath(dir, order[i]);
      assert order[i] in order;
      ProgressStep(base, dir, final, start, order, i);
      var content := fs.Read(chunk);
      fs.Append(final, content);
      var gone := fs.Unlink(chunk);
      i := i + 1;
    }
    assert order[..|order|] == order;
  }

  // ------------------------------------------------------------ the handler

  /** The fields of a finish request: nonce check, `upload_id`, `file_name` and the publishing fields. */
  datatype FinishRequest = FinishRequest(nonceOk: bool, uploadId: string, fileName: string, fields: Fields)

  /** `$final_file_path = $target_dir . '/' . $file_name`. */
  function FinalPathString(root: string, id: string, fileName: string): string {
    ScratchDirString(root, id) + "/" + fileName
  }

  lemma FinalPathComponents(root: string, id: string, fileName: string)
    requires IsSegment(fileName)
    ensures Components(FinalPathString(root, id, fileName)) == ScratchDir(root, id) + [fileName]
  {
    ScratchDirPath(root, id);
    ComponentsJoin(ScratchDirString(root, id), fileName);
    ComponentsOfSegment(fileName);
  }

  /**
    * Every `part_*` entry of the directory is a regular file
    * `part_<i>` with `i` written as PHP prints an integer: the only
    * entries the chunk handler makes there.
    */
  predicate ChunksOnly(nodes: Nodes, dir: Path) {
    forall n | n in Children(nodes, dir) && IsChunkName(n) :: (IsIndexedChunk(n) || IsNegChunk(n)) && nodes[dir + [n]].File?
  }

  /**
    * The nodes after `fopen($final_file_path, 'wb')` and the `foreach`: the
    * output file holds the chunks in `natsort` order, and every chunk is
    * gone.
    */
  ghost function Assembled(nodes: Nodes, dir: Path, final: Path): Nodes {
    var base := nodes[final := File([])];
    Progress(base, dir, final, [], NatOrder(base, dir))
  }

  /** Every index in `natsort` order names a stored regular chunk. */
  lemma OrderPresent(nodes: Nodes, dir: Path)
    ensures forall k | k in NatOrder(nodes, dir) :: ChunkPath(dir, k) in nodes && nodes[ChunkPath(dir, k)].File?
  {
    var neg, pos := NegIndices(nodes, dir), Indices(nodes, dir);
    var r := NatSorted(neg, pos);
    forall k | k in r ensures ChunkPath(dir, k) in nodes && nodes[ChunkPath(dir, k)].File? {
      if k >= 0 {
        assert k in pos;
        InIndices(nodes, dir, k);
      } else {
        assert -k in neg;
        InNegIndices(nodes, dir, -k);
      }
    }
  }

  /** An index is in `natsort` order exactly when its chunk is stored as a regular file. */
  lemma InOrder(nodes: Nodes, dir: Path, k: int)
    ensures k in NatOrder(nodes, dir) <==> ChunkPath(dir, k) in nodes && nodes[ChunkPath(dir, k)].File?
  {
    var neg, pos := NegIndices(nodes, dir), Indices(nodes, dir);
    var r := NatSorted(neg, pos);
    assert r == NatOrder(nodes, dir);
    if k >= 0 {
      assert k in r <==> k in pos;
      InIndices(nodes, dir, k);
    } else {
      assert k in r <==> -k in neg;
      InNegIndices(nodes, dir, -k);
    }
  }

  /** Under `ChunksOnly`, the `glob` of `part_*` finds exactly the paths of the chunks in `natsort` order. */
  lemma {:induction false} GlobIsOrder(nodes: Nodes, dir: Path)
    requires ChunksOnly(nodes, dir)
    ensures forall n | n in Children(nodes, dir) && IsChunkName(n) :: dir + [n] in ChunkPaths(dir, NatOrder(nodes, dir))
    ensures forall p | p in ChunkPaths(dir, NatOrder(nodes, dir)) :: p in nodes && p[..|dir|] == dir && IsChunkName(p[|dir|])
  {
    var order := NatOrder(nodes, dir);
    forall n | n in Children(nodes, dir) && IsChunkName(n) ensures dir + [n] in ChunkPaths(dir, order) {
      if IsIndexedChunk(n) {
        ChunkIndexName(n);
        InIndices(nodes, dir, ChunkIndexOf(n));
        assert ChunkPath(dir, ChunkIndexOf(n)) == dir + [n];
      } else {
        NegChunkName(n);
        InNegIndices(nodes, dir, NegIndexOf(n));
        assert ChunkPath(dir, -(NegIndexOf(n) as int)) == dir + [n];
      }
    }
    OrderPresent(nodes, dir);
    forall p | p in ChunkPaths(dir, order) ensures p in nodes && p[..|dir|] == dir && IsChunkName(p[|dir|]) {
      var k :| k in order && p == ChunkPath(dir, k);
    }
  }

  /** An output path whose last entry is not a `part_*` name is none of the chunk paths. */
  lemma OutputNotChunk(dir: Path, name: string, order: seq<int>)
    requires !IsChunkName(name)
    ensures dir + [name] !in ChunkPaths(dir, order)
  {
    forall k | k in order ensures ChunkPath(dir, k) != dir + [name] {
      assert ChunkPath(dir, k)[|dir|] == PartName(k);
    }
  }

  /**
    * `fopen($final_file_path, 'wb')` and, when it succeeds, the `foreach`
    * over the `natsort`ed chunk paths and `fclose`.
    */
  method Assemble(fs: FileSystem, dir: Path, name: string) returns (ok: bool)
    requires fs.Valid() && IsPlainPath(dir + [name]) && !IsChunkName(name)
    requires ChunksOnly(fs.nodes, dir)
    modifies fs
    ensures fs.Valid()
    ensures ok == CanWriteFile(old(fs.nodes), dir + [name])
    ensures fs.nodes == if ok then Assembled(old(fs.nodes), dir, dir + [name]) else old(fs.nodes)
    ensures ok ==> forall n | n in Children(fs.nodes, dir) :: !IsChunkName(n)
  {
    var final := dir + [name];
    ghost var before := fs.nodes;
    ok := fs.WriteFile(final, []);
    if !ok {
      return;
    }
    var chunks := NatOrder(fs.nodes, dir);
    OrderPresent(fs.nodes, dir);
    OutputNotChunk(dir, name, chunks);
    AppendChunks(fs, dir, final, chunks);
    AssembledGlobEmpty(before, dir, name);
  }

  /**
    * What `icc_upload_and_shorten_handle_finish` does with the request: a
    * failed nonce check or an output file that cannot be opened changes
    * nothing; otherwise the chunks are assembled into `mid`, the attempt
    * to remove the scratch directory fails because the output file is in
    * it, and the publisher runs on the assembled file.
    */
  ghost predicate FinishOutcome(before: Nodes, after: Nodes, cfg: Config, sysTemp: string, req: FinishRequest, env: Env,
                                reply: Reply, mid: Nodes, put: Option<PutArgs>, link: Option<LinkArgs>, slot: nat)
    requires ValidChance(env.chance)
  {
    var root := ScratchRoot(cfg.shareDir, sysTemp);
    var dir := ScratchDir(root, req.uploadId);
    var final := dir + [req.fileName];
    && (!req.nonceOk ==> reply == Failure("Security check failed") && after == before)
    && (req.nonceOk && !CanWriteFile(before, final) ==>
          reply == Failure("Failed to assemble file") && after == before)
    && (req.nonceOk && CanWriteFile(before, final) ==>
          && mid == Assembled(before, dir, final)
          && reply.Success? && reply.result.Some?
          && Published(mid, after, cfg, Chunked(FinalPathString(root, req.uploadId, req.fileName), req.fileName),
                       req.fields, env, reply.result.value, put, link, slot))
  }

  /**
    * `icc_upload_and_shorten_handle_finish`, for a declared file name that
    * is a plain entry name outside the `part_*` pattern, and a scratch
    * directory whose `part_*` entries are those the chunk handler writes.
    */
  method HandleFinish(fs: FileSystem, cfg: Config, sysTemp: string, req: FinishRequest, env: Env)
    returns (reply: Reply, ghost mid: Nodes, ghost put: Option<PutArgs>, ghost link: Option<LinkArgs>, ghost slot: nat)
    requires fs.Valid() && ValidChance(env.chance)
    requires IsPlainPath(Components(ScratchRoot(cfg.shareDir, sysTemp)))
    requires IsPlainName(req.fileName) && !IsChunkName(req.fileName)
    requires ChunksOnly(fs.nodes, ScratchDir(ScratchRoot(cfg.shareDir, sysTemp), req.uploadId))
    requires cfg.storageType == "local" ==> IsPlainPath(Components(cfg.shareDir))
    modifies fs
    ensures fs.Valid()
    ensures FinishOutcome(old(fs.nodes), fs.nodes, cfg, sysTemp, req, env, reply, mid, put, link, slot)
  {
    mid, put, link, slot := fs.nodes, None, None, 0;
    if !req.nonceOk {
      return Failure("Security check failed"), mid, put, link, slot;
    }
    var uploadId := SanitizeId(req.uploadId);
    var tempDir := cfg.shareDir;
    if Falsy(tempDir) {
      tempDir := sysTemp;
    }
    var targetDir := RTrim(tempDir, '/') + "/icc_temp_" + uploadId;
    var finalFilePath := targetDir + "/" + req.fileName;
    assert finalFilePath == FinalPathString(tempDir, req.uploadId, req.fileName);
    ScratchDirPath(tempDir, req.uploadId);
    FinalPathComponents(tempDir, req.uploadId, req.fileName);
    PlainAppend(Components(tempDir), ScratchName(req.uploadId));
    PlainAppend(Components(targetDir), req.fileName);
    var assembled := Assemble(fs, Components(targetDir), req.fileName);
    if !assembled {
      return Failure("Failed to assemble file"), mid, put, link, slot;
    }
    mid := fs.nodes;
    var removed := fs.RemoveDir(Components(targetDir));
    assert !removed by {
      assert req.fileName in Children(mid, Components(targetDir));
    }
    var result;
    result, put, link, slot := ProcessUpload(fs, cfg, Chunked(finalFilePath, req.fileName), req.fields, env);
    reply := Success(Some(result));
  }

  // ------------------------------------------------- the scratch directory

  /** Assembly keeps the scratch directory in which it writes the output file. */
  lemma AssemblyKeepsDir(before: Nodes, dir: Path, name: string)
    requires CanWriteFile(before, dir + [name]) && dir != []
    ensures var mid := Assembled(before, dir, dir + [name]);
            dir in before && before[dir].Dir? && dir in mid && mid[dir] == before[dir]
  {
    var final := dir + [name];
    assert final[..|final| - 1] == dir;
    var base := before[final := File([])];
    assert dir !in ChunkPaths(dir, NatOrder(base, dir));
  }

  /**
    * A successful finish leaves the scratch directory in place: the
    * `rmdir` comes while the output file is still inside it, and the
    * publisher moves nothing but that file.
    */
  lemma FinishKeepsScratchDir(before: Nodes, after: Nodes, cfg: Config, sysTemp: string, req: FinishRequest, env: Env,
                              reply: Reply, mid: Nodes, put: Option<PutArgs>, link: Option<LinkArgs>, slot: nat)
    requires ValidChance(env.chance) && IsPlainName(req.fileName)
    requires FinishOutcome(before, after, cfg, sysTemp, req, env, reply, mid, put, link, slot)
    requires reply.Success?
    ensures var dir := ScratchDir(ScratchRoot(cfg.shareDir, sysTemp), req.uploadId);
            dir in after && after[dir].Dir?
  {
    var root := ScratchRoot(cfg.shareDir, sysTemp);
    var dir := ScratchDir(root, req.uploadId);
    AssemblyKeepsDir(before, dir, req.fileName);
    FinalPathComponents(root, req.uploadId, req.fileName);
    PublishFrame(mid, after, cfg, Chunked(FinalPathString(root, req.uploadId, req.fileName), req.fileName),
                 req.fields, env, reply.result.value, put, link, slot, dir);
  }

  /**
    * The finish with the scratch directory removed once the file is
    * published, as the comment on the `rmdir` intends: `published` is
    * what the publisher leaves, and a directory it has emptied goes.
    */
  ghost predicate TidyOutcome(before: Nodes, after: Nodes, cfg: Config, sysTemp: string, req: FinishRequest, env: Env,
                              reply: Reply, mid: Nodes, published: Nodes, put: Option<PutArgs>, link: Option<LinkArgs>, slot: nat)
    requires ValidChance(env.chance)
  {
    var dir := ScratchDir(ScratchRoot(cfg.shareDir, sysTemp), req.uploadId);
    && FinishOutcome(before, published, cfg, sysTemp, req, env, reply, mid, put, link, slot)
    && after == if reply.Success? && dir in published && published[dir].Dir? && Children(published, dir) == {}
                then published - {dir} else published
  }

  /** `icc_upload_and_shorten_handle_finish` with the `rmdir` moved after the publisher. */
  method HandleFinishTidy(fs: FileSystem, cfg: Config, sysTemp: string, req: FinishRequest, env: Env)
    returns (reply: Reply, ghost mid: Nodes, ghost published: Nodes, ghost put: Option<PutArgs>, ghost link: Option<LinkArgs>, ghost slot: nat)
    requires fs.Valid() && ValidChance(env.chance)
    requires IsPlainPath(Components(ScratchRoot(cfg.shareDir, sysTemp)))
    requires IsPlainName(req.fileName) && !IsChunkName(req.fileName)
    requires ChunksOnly(fs.nodes, ScratchDir(ScratchRoot(cfg.shareDir, sysTemp), req.uploadId))
    requires cfg.storageType == "local" ==> IsPlainPath(Components(cfg.shareDir))
    modifies fs
    ensures fs.Valid()
    ensures TidyOutcome(old(fs.nodes), fs.nodes, cfg, sysTemp, req, env, reply, mid, published, put, link, slot)
  {
    reply, mid, put, link, slot := HandleFinish(fs, cfg, sysTemp, req, env);
    published := fs.nodes;
    if reply.Success? {
      var root := cfg.shareDir;
      if Falsy(root) {
        root := sysTemp;
      }
      ScratchDirPath(root, req.uploadId);
      var removed := fs.RemoveDir(Components(ScratchDirString(root, req.uploadId)));
    }
  }

  /** The scratch directory holds nothing but stored chunks. */
  ghost predicate OnlyChunks(nodes: Nodes, dir: Path) {
    forall n | n in Children(nodes, dir) :: (IsIndexedChunk(n) || IsNegChunk(n)) && nodes[dir + [n]].File?
  }

  /** Once a directory of chunks is assembled, the output file is the only entry left in it. */
  lemma AssembledLeavesOutput(before: Nodes, dir: Path, name: string)
    requires !IsChunkName(name) && OnlyChunks(before, dir)
    ensures forall n | dir + [n] in Assembled(before, dir, dir + [name]) :: n == name
  {
    var final := dir + [name];
    var base := before[final := File([])];
    var order := NatOrder(base, dir);
    forall n | dir + [n] in Assembled(before, dir, final) ensures n == name {
      if n != name {
        assert dir + [n] in before && n in Children(before, dir);
        var k: int := if IsIndexedChunk(n) then ChunkIndexOf(n) else -(NegIndexOf(n) as int);
        assert ChunkPath(dir, k) == dir + [n] by {
          if IsIndexedChunk(n) {
            ChunkIndexName(n);
          } else {
            NegChunkName(n);
          }
        }
        InOrder(base, dir, k);
      }
    }
  }

  /**
    * Taking the output file out of a directory that held nothing else
    * empties it, whether the file goes away or to a target that lies
    * higher in the tree.
    */
  lemma TakenEmpties(mid: Nodes, published: Nodes, dir: Path, final: Path, target: Path, v: Node)
    requires |final| == |dir| + 1 && |target| < |dir| + 1
    requires forall n | dir + [n] in mid :: dir + [n] == final
    requires published == mid - {final} || published == (mid - {final})[target := v]
    ensures Children(published, dir) == {}
  {
    forall n | dir + [n] in published ensures false {
      assert false;
    }
  }

  /**
    * The intended behaviour: once the finish has published the file, a
    * scratch directory that held only chunks is gone.
    */
  lemma TidyRemovesScratchDir(before: Nodes, after: Nodes, cfg: Config, sysTemp: string, req: FinishRequest, env: Env,
                              reply: Reply, mid: Nodes, published: Nodes, put: Option<PutArgs>, link: Option<LinkArgs>, slot: nat)
    requires ValidChance(env.chance) && IsPlainName(req.fileName) && !IsChunkName(req.fileName)
    requires TidyOutcome(before, after, cfg, sysTemp, req, env, reply, mid, published, put, link, slot)
    requires OnlyChunks(before, ScratchDir(ScratchRoot(cfg.shareDir, sysTemp), req.uploadId))
    requires cfg.storageType == "local" ==> cfg.shareDir != [] && cfg.shareDir[|cfg.shareDir| - 1] == '/'
    requires reply.Success? && link.Some?
    ensures ScratchDir(ScratchRoot(cfg.shareDir, sysTemp), req.uploadId) !in after
  {
    var root := ScratchRoot(cfg.shareDir, sysTemp);
    var dir := ScratchDir(root, req.uploadId);
    var final := dir + [req.fileName];
    var src := Chunked(FinalPathString(root, req.uploadId, req.fileName), req.fileName);
    FinishKeepsScratchDir(before, published, cfg, sysTemp, req, env, reply, mid, put, link, slot);
    FinalPathComponents(root, req.uploadId, req.fileName);
    AssembledLeavesOutput(before, dir, req.fileName);
    AssembledOutput(before, dir, final);
    assert final[..|dir|] == dir;
    forall n | dir + [n] in mid ensures dir + [n] == final {
    }
    var p := Components(src.path);
    LinkedTakesSource(mid, published, cfg, src, req.fields, env, reply.result.value, put, link, slot);
    var target := LocalTarget(cfg, src, req.fields, env, slot);
    if cfg.storageType == "local" {
      var r := Resolve(src, req.fields, env.chance);
      CandidateNoSlash(r, slot);
      SlashedEntryDepth(cfg.shareDir, Candidate(r, slot));
    }
    TakenEmpties(mid, published, dir, p, if cfg.storageType == "local" then target else [], mid[p]);
  }

  // ------------------------------------------------------------ round trip

  /** The first `k` chunks stored as the first `k` slices are gathered back into those slices' bytes. */
  lemma {:induction false} GatheredRange(nodes: Nodes, dir: Path, data: seq<Byte>, k: nat)
    requires forall i | 0 <= i < k :: ChunkPath(dir, i) in nodes && nodes[ChunkPath(dir, i)] == File(Slicing.Slice(data, i))
    ensures Gathered(nodes, dir, Range(k)) == Slicing.Concat(seq(k, i requires 0 <= i => Slicing.Slice(data, i)))
  {
    if k > 0 {
      var s := seq(k, i requires 0 <= i => Slicing.Slice(data, i));
      var t := seq(k - 1, i requires 0 <= i => Slicing.Slice(data, i));
      assert Range(k)[..k - 1] == Range(k - 1);
      assert s[..k - 1] == t;
      GatheredRange(nodes, dir, data, k - 1);
    }
  }

  /** All the slices, stored as chunks `0 … n-1`, are gathered back into the whole file. */
  lemma GatheredAll(nodes: Nodes, dir: Path, data: seq<Byte>)
    requires forall i | 0 <= i < Slicing.ChunksSent(|data|) ::
               ChunkPath(dir, i) in nodes && nodes[ChunkPath(dir, i)] == File(Slicing.Slice(data, i))
    ensures Gathered(nodes, dir, Range(Slicing.ChunksSent(|data|))) == data
  {
    var n := Slicing.ChunksSent(|data|);
    GatheredRange(nodes, dir, data, n);
    Slicing.ConcatFirstSlices(data, n);
    assert Slicing.Min(n * Slicing.ChunkSize, |data|) == |data|;
    assert data[..|data|] == data;
  }

  /** Writing the output file, whose name is not a chunk name, leaves the chunk indices alone. */
  lemma {:induction false} IndicesIgnoreOutput(nodes: Nodes, dir: Path, name: string, v: Node)
    requires !IsChunkName(name)
    ensures Indices(nodes[dir + [name] := v], dir) == Indices(nodes, dir)
    ensures NegIndices(nodes[dir + [name] := v], dir) == NegIndices(nodes, dir)
    ensures forall k: int | ChunkPath(dir, k) in nodes :: nodes[dir + [name] := v][ChunkPath(dir, k)] == nodes[ChunkPath(dir, k)]
  {
    var after := nodes[dir + [name] := v];
    forall k: int ensures ChunkPath(dir, k) != dir + [name] {
      assert ChunkPath(dir, k)[|dir|] == PartName(k);
    }
    forall k: nat ensures k in Indices(after, dir) <==> k in Indices(nodes, dir) {
      InIndices(after, dir, k);
      InIndices(nodes, dir, k);
    }
    forall m: nat ensures m in NegIndices(after, dir) <==> m in NegIndices(nodes, dir) {
      if m >= 1 {
        InNegIndices(after, dir, m);
        InNegIndices(nodes, dir, m);
      }
    }
  }

  /** A directory collecting the slices `0 … n-1` stores exactly those chunks, each as its slice. */
  lemma {:induction false} CollectedChunks(nodes: Nodes, dir: Path, data: seq<Byte>, n: nat)
    requires Collecting(nodes, dir, data, Below(n))
    ensures Indices(nodes, dir) == Below(n) && NegIndices(nodes, dir) == {}
    ensures forall i | 0 <= i < n :: ChunkPath(dir, i) in nodes && nodes[ChunkPath(dir, i)] == File(Slicing.Slice(data, i))
  {
    assert Indices(nodes, dir) == Parts(nodes, dir).Keys;
    forall m | m in NegIndices(nodes, dir) ensures false {
      var c := PartName(-(m as int));
      InNegIndices(nodes, dir, m);
      PartNameNegative(m);
      NegNotIndexed(c);
    }
    forall i | 0 <= i < n ensures ChunkPath(dir, i) in nodes && nodes[ChunkPath(dir, i)] == File(Slicing.Slice(data, i)) {
      InIndices(nodes, dir, i);
      assert Parts(nodes, dir)[i] == nodes[ChunkPath(dir, i)].data;
    }
  }

  /** Opening the output file keeps the collected chunks as they were. */
  lemma {:induction false} OpenedCollected(nodes: Nodes, dir: Path, name: string, data: seq<Byte>, n: nat)
    requires !IsChunkName(name)
    requires Collecting(nodes, dir, data, Below(n))
    ensures var base := nodes[dir + [name] := File([])];
            && Indices(base, dir) == Below(n) && NegIndices(base, dir) == {}
            && forall i | 0 <= i < n :: ChunkPath(dir, i) in base && base[ChunkPath(dir, i)] == File(Slicing.Slice(data, i))
  {
    CollectedChunks(nodes, dir, data, n);
    IndicesIgnoreOutput(nodes, dir, name, File([]));
  }

  /** The output file holds the chunks gathered in `natsort` order. */
  lemma AssembledOutput(nodes: Nodes, dir: Path, final: Path)
    ensures var base := nodes[final := File([])];
            var after := Assembled(nodes, dir, final);
            final in after && after[final] == File(Gathered(base, dir, NatOrder(base, dir)))
  {
    var base := nodes[final := File([])];
    var g := Gathered(base, dir, NatOrder(base, dir));
    assert [] + g == g;
  }

  /**
    * The round trip of a chunked upload: once every slice `0 … n-1` of
    * `data` is stored in the scratch directory, assembling it into an
    * output file outside the `part_*` pattern gives back exactly `data`,
    * and no chunk is left behind.
    */
  lemma {:induction false} AssembledRoundTrip(nodes: Nodes, dir: Path, name: string, data: seq<Byte>)
    requires !IsChunkName(name)
    requires Collecting(nodes, dir, data, Below(Slicing.ChunksSent(|data|)))
    ensures var after := Assembled(nodes, dir, dir + [name]);
            && dir + [name] in after && after[dir + [name]] == File(data)
            && Indices(after, dir) == {}
  {
    var n := Slicing.ChunksSent(|data|);
    var base := nodes[dir + [name] := File([])];
    AssembledOutput(nodes, dir, dir + [name]);
    OpenedCollected(nodes, dir, name, data, n);
    AscendingRange(n);
    assert Ascending(NegIndices(base, dir)) == [];
    assert NatOrder(base, dir) == Range(n);
    GatheredAll(base, dir, data);
    AssembledNoChunks(nodes, dir, name);
  }

  /** After assembly no chunk `k` is left as a regular file. */
  lemma {:induction false} AssembledDropsChunk(nodes: Nodes, dir: Path, name: string, k: int)
    requires !IsChunkName(name)
    ensures var after := Assembled(nodes, dir, dir + [name]);
            !(ChunkPath(dir, k) in after && after[ChunkPath(dir, k)].File?)
  {
    var final := dir + [name];
    var base := nodes[final := File([])];
    var order := NatOrder(base, dir);
    var p := ChunkPath(dir, k);
    assert p != final by {
      assert p[|dir|] == PartName(k);
    }
    InOrder(base, dir, k);
    if p in base && base[p].File? {
      assert p in ChunkPaths(dir, order);
    }
  }

  /** After assembly no stored chunk is left in the scratch directory. */
  lemma {:induction false} AssembledNoChunks(nodes: Nodes, dir: Path, name: string)
    requires !IsChunkName(name)
    ensures Indices(Assembled(nodes, dir, dir + [name]), dir) == {}
    ensures NegIndices(Assembled(nodes, dir, dir + [name]), dir) == {}
  {
    var after := Assembled(nodes, dir, dir + [name]);
    forall k: nat ensures k !in Indices(after, dir) {
      InIndices(after, dir, k);
      AssembledDropsChunk(nodes, dir, name, k);
    }
    forall m: nat | m >= 1 ensures m !in NegIndices(after, dir) {
      InNegIndices(after, dir, m);
      AssembledDropsChunk(nodes, dir, name, -(m as int));
    }
  }

  /**
    * Assembling a directory of chunks leaves no `part_*` entry behind, so
    * a second `glob` would find nothing.
    */
  lemma {:induction false} AssembledGlobEmpty(nodes: Nodes, dir: Path, name: string)
    requires !IsChunkName(name) && ChunksOnly(nodes, dir)
    ensures forall n | n in Children(Assembled(nodes, dir, dir + [name]), dir) :: !IsChunkName(n)
  {
    var final := dir + [name];
    var base := nodes[final := File([])];
    var after := Assembled(nodes, dir, final);
    IndicesIgnoreOutput(nodes, dir, name, File([]));
    assert ChunksOnly(base, dir) by {
      forall n | n in Children(base, dir) && IsChunkName(n) ensures (IsIndexedChunk(n) || IsNegChunk(n)) && base[dir + [n]].File? {
        assert n != name && n in Children(nodes, dir);
      }
    }
    GlobIsOrder(base, dir);
    forall n | n in Children(after, dir) && IsChunkName(n) ensures false {
      assert false;
    }
  }

  /** A scratch directory that does not exist yet has no `part_*` entries to trip the `glob`. */
  lemma FreshChunksOnly(nodes: Nodes, dir: Path)
    requires WellFormed(nodes) && dir != [] && dir !in nodes
    ensures ChunksOnly(nodes, dir)
  {
    forall n | n in Children(nodes, dir) ensures false {
      assert false;
    }
  }

  /**
    * A chunk request, for this upload or any other, keeps `ChunksOnly`:
    * the only file it writes is `part_<intval>` of its own scratch
    * directory, and the directories it makes are no deeper than that one.
    */
  lemma {:induction false} ChunkStepKeepsChunksOnly(nodes: Nodes, root: string, req: ChunkRequest, now: int, id: string)
    requires ChunksOnly(nodes, ScratchDir(root, id))
    ensures ChunksOnly(ChunkStep(nodes, root, req, now).0, ScratchDir(root, id))
  {
    var dir := ScratchDir(root, id);
    if req.nonceOk && req.chunk.Some? && req.chunk.value.error == UploadErrOk {
      var own := ScratchDir(root, req.uploadId);
      var made := Prepared(nodes, own, now);
      var part := own + [PartName(IntVal(req.chunkIndex))];
      forall n | n in Children(made, dir) && IsChunkName(n)
        ensures (IsIndexedChunk(n) || IsNegChunk(n)) && made[dir + [n]].File?
      {
        var q := dir + [n];
        if q !in nodes {
          assert false;
        }
        assert n in Children(nodes, dir);
      }
      if CanWriteFile(made, part) {
        var after := made[part := File(req.chunk.value.data)];
        assert after == ChunkStep(nodes, root, req, now).0;
        forall n | n in Children(after, dir) && IsChunkName(n)
          ensures (IsIndexedChunk(n) || IsNegChunk(n)) && after[dir + [n]].File?
        {
          if dir + [n] == part {
            assert n == part[|own|];
            PartNameChunk(IntVal(req.chunkIndex));
          } else {
            assert n in Children(made, dir);
          }
        }
      }
    }
  }

  /**
    * End to end: the client posts chunk requests for the indices in
    * `order` (any order, repeats allowed) into a scratch directory that
    * does not exist yet; when they cover `0 … n-1`, the finish request's
    * assembly yields the file the client sliced.
    */
  lemma {:induction false} UploadRoundTrip(nodes: Nodes, root: string, id: string, data: seq<Byte>, order: seq<nat>,
                                           now: int, name: string)
    requires forall i | 0 <= i < |order| :: order[i] <= IntMax
    requires order != [] && WellFormed(nodes) && CanMakeDirs(nodes, ScratchDir(root, id))
    requires (set x | x in order) == Below(Slicing.ChunksSent(|data|))
    requires !IsChunkName(name)
    ensures var dir := ScratchDir(root, id);
            var after := Assembled(Deliver(nodes, root, id, data, order, now), dir, dir + [name]);
            dir + [name] in after && after[dir + [name]] == File(data)
  {
    DeliverFromScratch(nodes, root, id, data, order, now);
    AssembledRoundTrip(Deliver(nodes, root, id, data, order, now), ScratchDir(root, id), name, data);
  }

  // ------------------------------------------------------------ dispatch

  /** The `action` field of an AJAX post, with the request that goes with it. */
  datatype AjaxRequest = UploadChunk(chunk: ChunkRequest) | UploadFinish(finish: FinishRequest) | OtherAction

  /**
    * `icc_upload_and_shorten_handle_ajax`: only the two upload actions are
    * answered here, and only for a logged-in user; `None` is "nothing
    * written", letting the request through to the rest of the admin.
    */
  method HandleAjax(fs: FileSystem, cfg: Config, sysTemp: string, validUser: bool, req: AjaxRequest, env: Env, now: int)
    returns (reply: Option<Reply>, ghost mid: Nodes, ghost put: Option<PutArgs>, ghost link: Option<LinkArgs>, ghost slot: nat)
    requires fs.Valid() && ValidChance(env.chance)
    requires IsPlainPath(Components(ScratchRoot(cfg.shareDir, sysTemp)))
    requires req.UploadFinish? ==> IsPlainName(req.finish.fileName) && !IsChunkName(req.finish.fileName)
    requires req.UploadFinish? ==> ChunksOnly(fs.nodes, ScratchDir(ScratchRoot(cfg.shareDir, sysTemp), req.finish.uploadId))
    requires cfg.storageType == "local" ==> IsPlainPath(Components(cfg.shareDir))
    modifies fs
    ensures fs.Valid()
    ensures req.OtherAction? ==> reply == None && fs.nodes == old(fs.nodes)
    ensures !req.OtherAction? && !validUser ==> reply == Some(Failure("Authentication failed")) && fs.nodes == old(fs.nodes)
    ensures req.UploadChunk? && validUser ==>
              reply.Some? && (fs.nodes, reply.value) == ChunkStep(old(fs.nodes), ScratchRoot(cfg.shareDir, sysTemp), req.chunk, now)
    ensures req.UploadFinish? && validUser ==>
              reply.Some? && FinishOutcome(old(fs.nodes), fs.nodes, cfg, sysTemp, req.finish, env, reply.value, mid, put, link, slot)
  {
    mid, put, link, slot := fs.nodes, None, None, 0;
    if req.OtherAction? {
      return None, mid, put, link, slot;
    }
    if !validUser {
      return Some(Failure("Authentication failed")), mid, put, link, slot;
    }
    var r;
    if req.UploadChunk? {
      r := HandleChunk(fs, cfg.shareDir, sysTemp, req.chunk, now);
    } else {
      r, mid, put, link, slot := HandleFinish(fs, cfg, sysTemp, req.finish, env);
    }
    reply := Some(r);
  }
}

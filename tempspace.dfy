/**
  * The chunk receiver (`icc_upload_and_shorten_handle_chunk`): each chunk is
  * stored as `part_<index>` in a scratch directory `icc_temp_<id>` under the
  * share directory (or the system temporary directory when no share
  * directory is configured), created on the first chunk.
  */
module TempSpace {
  import opened Wrappers
  import opened Text
  import opened Paths
  import opened Files
  import Slicing

  /** The JSON object a handler echoes: `status` and, where present, `message`. */
  datatype Reply = Success(result: Option<string>) | Failure(message: string)

  /** PHP `UPLOAD_ERR_OK`. */
  const UploadErrOk: int := 0

  /** One entry of `$_FILES`: its error code and the bytes of its temporary file. */
  datatype Upload = Upload(error: int, data: seq<Byte>)

  /**
    * The fields of a chunk request: whether `yourls_verify_nonce('icc_upload_chunk', …)`
    * accepts the posted nonce, `$_FILES['file_chunk']`, `upload_id` and `chunk_index`.
    */
  datatype ChunkRequest = ChunkRequest(nonceOk: bool, chunk: Option<Upload>, uploadId: string, chunkIndex: string)

  // ------------------------------------------------------------ upload ids

  predicate IsIdChar(c: char) {
    IsUpper(c) || IsLower(c) || IsDigit(c) || c == '_'
  }

  /** `preg_replace('/[^a-zA-Z0-9_]/', '', $id)`. */
  function SanitizeId(s: string): (r: string)
    ensures |r| <= |s|
    ensures forall i | 0 <= i < |r| :: IsIdChar(r[i])
  {
    if s == [] then []
    else
      var rest := SanitizeId(s[1..]);
      if IsIdChar(s[0]) then [s[0]] + rest else rest
  }

  /** Sanitising works character by character: it keeps the id characters, in order. */
  lemma {:induction false} SanitizeConcat(a: string, b: string)
    ensures SanitizeId(a + b) == SanitizeId(a) + SanitizeId(b)
  {
    if a != [] {
      assert (a + b)[1..] == a[1..] + b;
      SanitizeConcat(a[1..], b);
    } else {
      assert a + b == b;
    }
  }

  lemma {:induction false} SanitizeChar(c: char)
    ensures SanitizeId([c]) == if IsIdChar(c) then [c] else []
  {
    assert [c][1..] == [];
  }

  /** An id is left as it is exactly when it is made of id characters only. */
  lemma {:induction false} SanitizeFixed(s: string)
    ensures SanitizeId(s) == s <==> forall i | 0 <= i < |s| :: IsIdChar(s[i])
  {
    if s != [] {
      SanitizeFixed(s[1..]);
      if !IsIdChar(s[0]) {
        assert |SanitizeId(s)| <= |s[1..]| < |s|;
      }
    }
  }

  lemma {:induction false} SanitizeIdempotent(s: string)
    ensures SanitizeId(SanitizeId(s)) == SanitizeId(s)
  {
    SanitizeFixed(SanitizeId(s));
  }

  /**
    * The id the client makes up: `Date.now() + "_" + Math.random().toString(36).substr(2, 9)`,
    * for the clock reading `millis` and the base-36 digits `fraction` after "0.".
    */
  function ClientUploadId(millis: nat, fraction: string): string
    requires forall i | 0 <= i < |fraction| :: IsBase36(fraction[i])
  {
    NatToString(millis) + "_" + Prefix(fraction, 9)
  }

  /** Ids the client makes up pass the server's sanitising unchanged. */
  lemma {:induction false} ClientIdSurvives(millis: nat, fraction: string)
    requires forall i | 0 <= i < |fraction| :: IsBase36(fraction[i])
    ensures SanitizeId(ClientUploadId(millis, fraction)) == ClientUploadId(millis, fraction)
  {
    var s := ClientUploadId(millis, fraction);
    var n := NatToString(millis);
    var f := Prefix(fraction, 9);
    assert s == n + "_" + f;
    forall i | 0 <= i < |s| ensures IsIdChar(s[i]) {
      if i < |n| {
        assert s[i] == n[i];
      } else if i > |n| {
        assert s[i] == f[i - |n| - 1] == fraction[i - |n| - 1];
      }
    }
    SanitizeFixed(s);
  }

  // ------------------------------------------------------ scratch directory

  /** `yourls_get_option('icc_upload_share_dir')`, or `sys_get_temp_dir()` when that is "" or "0". */
  function ScratchRoot(shareDir: string, sysTemp: string): (root: string)
    ensures !Falsy(shareDir) ==> root == shareDir
    ensures Falsy(shareDir) ==> root == sysTemp
  {
    if Falsy(shareDir) then sysTemp else shareDir
  }

  /** The entry name of the scratch directory of an upload. */
  function ScratchName(id: string): (n: string)
    ensures IsPlainName(n) && HasPrefix(n, "icc_temp_")
  {
    var n := "icc_temp_" + SanitizeId(id);
    assert n[..9] == "icc_temp_";
    assert !Contains(n, '/') by {
      forall i | 0 <= i < |n| ensures n[i] != '/' {
        if i >= 9 {
          assert n[i] == SanitizeId(id)[i - 9];
        }
      }
    }
    n
  }

  /** `rtrim($temp_dir, '/') . '/icc_temp_' . $upload_id`. */
  function ScratchDirString(root: string, id: string): string {
    RTrim(root, '/') + "/icc_temp_" + SanitizeId(id)
  }

  /** The scratch directory of an upload. */
  function ScratchDir(root: string, id: string): Path {
    Components(root) + [ScratchName(id)]
  }

  /** The scratch directory string names the entry `icc_temp_<id>` of the root. */
  lemma {:induction false} ScratchDirPath(root: string, id: string)
    ensures Components(ScratchDirString(root, id)) == ScratchDir(root, id)
  {
    assert ScratchDirString(root, id) == RTrim(root, '/') + "/" + ScratchName(id);
    ChildOf(root, ScratchName(id));
  }

  /** `'part_' . $chunk_index`. */
  function PartName(i: int): (n: string)
    ensures IsPlainName(n) && HasPrefix(n, "part_")
  {
    var s := IntToString(i);
    var n := "part_" + s;
    assert n[..5] == "part_";
    assert !Contains(n, '/') by {
      forall j | 0 <= j < |n| ensures n[j] != '/' {
        if j >= 5 {
          assert n[j] == s[j - 5];
          if i < 0 && j > 5 {
            assert s[j - 5] == NatToString(-i)[j - 6];
          }
        }
      }
    }
    n
  }

  /** `$target_dir . '/part_' . $chunk_index` names the entry `part_<i>` of the scratch directory. */
  lemma {:induction false} PartPath(dir: string, i: int)
    ensures Components(dir + "/part_" + IntToString(i)) == Components(dir) + [PartName(i)]
  {
    assert dir + "/part_" + IntToString(i) == dir + "/" + PartName(i);
    ComponentsJoin(dir, PartName(i));
    ComponentsOfSegment(PartName(i));
  }

  // ---------------------------------------------------------- stored chunks

  /** A name the glob `part_*` matches. */
  predicate IsChunkName(n: string) {
    HasPrefix(n, "part_")
  }

  /** A chunk name with a non-negative index, as `'part_' . $i` prints it. */
  predicate IsIndexedChunk(n: string) {
    IsChunkName(n) && IsCanonicalNat(n[5..])
  }

  /** The index an indexed chunk name carries. */
  function ChunkIndexOf(n: string): nat
    requires IsIndexedChunk(n)
  {
    ParseDigits(n[5..])
  }

  /** An indexed chunk name is the name of the chunk with its index. */
  lemma ChunkIndexName(n: string)
    requires IsIndexedChunk(n)
    ensures PartName(ChunkIndexOf(n)) == n
  {
    NatToStringOfParse(n[5..]);
    assert n == n[..5] + n[5..];
  }

  lemma {:induction false} PartNameIndexed(k: nat)
    ensures IsIndexedChunk(PartName(k)) && ChunkIndexOf(PartName(k)) == k
  {
    var n := PartName(k);
    assert n[5..] == NatToString(k);
  }

  lemma {:induction false} PartNameInjective(j: int, k: int)
    requires PartName(j) == PartName(k)
    ensures j == k
  {
    assert IntToString(j) == PartName(j)[5..] == PartName(k)[5..] == IntToString(k);
    IntToStringInjective(j, k);
  }

  /** A chunk name with a negative index, as `'part_' . $i` prints it: `part_-` and the magnitude. */
  predicate IsNegChunk(n: string) {
    HasPrefix(n, "part_-") && IsCanonicalNat(n[6..]) && n[6..] != "0"
  }

  /** The magnitude of the index a negative chunk name carries. */
  function NegIndexOf(n: string): (m: nat)
    requires IsNegChunk(n)
    ensures m >= 1
  {
    NatToStringOfParse(n[6..]);
    assert NatToString(0) == "0";
    ParseDigits(n[6..])
  }

  /** A name is never both a non-negative and a negative chunk name. */
  lemma NegNotIndexed(n: string)
    requires IsNegChunk(n)
    ensures !IsIndexedChunk(n)
  {
    assert n[5..][0] == '-';
  }

  /** A negative chunk name is the name of the chunk with its index. */
  lemma NegChunkName(n: string)
    requires IsNegChunk(n)
    ensures PartName(-(NegIndexOf(n) as int)) == n
  {
    var t := n[6..];
    var m := NegIndexOf(n);
    NatToStringOfParse(t);
    assert NatToString(m) == t;
    assert IntToString(-(m as int)) == "-" + t;
    assert n == n[..6] + t && n[..6] == "part_-";
  }

  lemma {:induction false} PartNameNegative(m: nat)
    requires m >= 1
    ensures IsNegChunk(PartName(-(m as int))) && NegIndexOf(PartName(-(m as int))) == m
  {
    var n := PartName(-(m as int));
    assert n[6..] == NatToString(m);
    assert n[..6] == "part_-";
  }

  /** Whatever index the chunk handler is given, it writes a chunk name of one of the two shapes. */
  lemma PartNameChunk(i: int)
    ensures IsIndexedChunk(PartName(i)) || IsNegChunk(PartName(i))
  {
    if i >= 0 {
      PartNameIndexed(i);
    } else {
      PartNameNegative(-i);
    }
  }

  /** The indices of the chunks stored as regular files in `dir`. */
  function Indices(nodes: Nodes, dir: Path): (s: set<nat>)
  {
    set n | n in Children(nodes, dir) && IsIndexedChunk(n) && nodes[dir + [n]].File? :: ChunkIndexOf(n)
  }

  lemma {:induction false} InIndices(nodes: Nodes, dir: Path, k: nat)
    ensures k in Indices(nodes, dir) <==> dir + [PartName(k)] in nodes && nodes[dir + [PartName(k)]].File?
  {
      var s := Indices(nodes, dir);
      PartNameIndexed(k);
      if k in s {
        var n :| n in Children(nodes, dir) && IsIndexedChunk(n) && nodes[dir + [n]].File? && ChunkIndexOf(n) == k;
        ChunkIndexName(n);
      }
      if dir + [PartName(k)] in nodes && nodes[dir + [PartName(k)]].File? {
        assert PartName(k) in Children(nodes, dir);
      }
  }

  /** The magnitudes of the negative indices of the chunks stored as regular files in `dir`. */
  function NegIndices(nodes: Nodes, dir: Path): (s: set<nat>)
    ensures forall m | m in s :: m >= 1
  {
    set n | n in Children(nodes, dir) && IsNegChunk(n) && nodes[dir + [n]].File? :: NegIndexOf(n)
  }

  lemma {:induction false} InNegIndices(nodes: Nodes, dir: Path, m: nat)
    requires m >= 1
    ensures m in NegIndices(nodes, dir) <==> dir + [PartName(-(m as int))] in nodes && nodes[dir + [PartName(-(m as int))]].File?
  {
      var s := NegIndices(nodes, dir);
      PartNameNegative(m);
      if m in s {
        var n :| n in Children(nodes, dir) && IsNegChunk(n) && nodes[dir + [n]].File? && NegIndexOf(n) == m;
        NegChunkName(n);
      }
      if dir + [PartName(-(m as int))] in nodes && nodes[dir + [PartName(-(m as int))]].File? {
        assert PartName(-(m as int)) in Children(nodes, dir);
      }
  }

  /** The stored chunks by index. */
  function Parts(nodes: Nodes, dir: Path): (m: map<nat, seq<Byte>>)
  {
    map k | k in Indices(nodes, dir) :: (InIndices(nodes, dir, k); nodes[dir + [PartName(k)]].data)
  }

  /** The slices of `data` with the indices in `s`. */
  function SliceMap(data: seq<Byte>, s: set<nat>): (m: map<nat, seq<Byte>>)
    ensures m.Keys == s
    ensures forall k | k in m :: m[k] == Slicing.Slice(data, k)
  {
    map k | k in s :: Slicing.Slice(data, k)
  }

  /** The entry of chunk `j` after chunk `k` is stored. */
  lemma {:induction false} EntryAfterStore(nodes: Nodes, dir: Path, k: nat, data: seq<Byte>, j: nat)
    ensures var n2 := nodes[dir + [PartName(k)] := File(data)];
            j == k || (dir + [PartName(j)] in n2 <==> dir + [PartName(j)] in nodes)
    ensures var n2 := nodes[dir + [PartName(k)] := File(data)];
            j != k && dir + [PartName(j)] in nodes ==> n2[dir + [PartName(j)]] == nodes[dir + [PartName(j)]]
  {
    if j != k && dir + [PartName(j)] == dir + [PartName(k)] {
      assert PartName(j) == (dir + [PartName(j)])[|dir|];
      PartNameInjective(j, k);
    }
  }

  lemma {:induction false} IndicesAfterStore(nodes: Nodes, dir: Path, k: nat, data: seq<Byte>)
    ensures Indices(nodes[dir + [PartName(k)] := File(data)], dir) == Indices(nodes, dir) + {k}
  {
    var n2 := nodes[dir + [PartName(k)] := File(data)];
    forall j | j in Indices(n2, dir) ensures j in Indices(nodes, dir) + {k} {
      EntryAfterStore(nodes, dir, k, data, j);
      InIndices(nodes, dir, j);
      InIndices(n2, dir, j);
    }
    forall j | j in Indices(nodes, dir) + {k} ensures j in Indices(n2, dir) {
      EntryAfterStore(nodes, dir, k, data, j);
      InIndices(nodes, dir, j);
      InIndices(n2, dir, j);
    }
  }

  /** Storing chunk `k` replaces that chunk and no other: the last copy sent wins. */
  lemma {:induction false} PartValueAfterStore(nodes: Nodes, dir: Path, k: nat, data: seq<Byte>, j: nat)
    requires j in Parts(nodes, dir) && j != k
    ensures j in Parts(nodes[dir + [PartName(k)] := File(data)], dir)
    ensures Parts(nodes[dir + [PartName(k)] := File(data)], dir)[j] == Parts(nodes, dir)[j]
  {
    var n2 := nodes[dir + [PartName(k)] := File(data)];
    EntryAfterStore(nodes, dir, k, data, j);
    InIndices(nodes, dir, j);
    InIndices(n2, dir, j);
  }

  lemma {:induction false} PartsAfterStore(nodes: Nodes, dir: Path, k: nat, data: seq<Byte>)
    ensures Parts(nodes[dir + [PartName(k)] := File(data)], dir) == Parts(nodes, dir)[k := data]
  {
    var n2 := nodes[dir + [PartName(k)] := File(data)];
    var l := Parts(n2, dir);
    var r := Parts(nodes, dir)[k := data];
    IndicesAfterStore(nodes, dir, k, data);
    assert l.Keys == r.Keys;
    forall j | j in l ensures l[j] == r[j] {
      if j != k {
        PartValueAfterStore(nodes, dir, k, data, j);
      } else {
        InIndices(n2, dir, j);
      }
    }
    MapsEqual(l, r);
  }

  lemma MapsEqual<K, V>(l: map<K, V>, r: map<K, V>)
    requires l.Keys == r.Keys
    requires forall j | j in l :: l[j] == r[j]
    ensures l == r
  {
  }

  // ------------------------------------------------------------ the handler

  /** The request that posts chunk `k` of `data`, as the client builds it. */
  function ClientChunk(data: seq<Byte>, uploadId: string, k: nat): ChunkRequest {
    ChunkRequest(true, Some(Upload(UploadErrOk, Slicing.Slice(data, k))), uploadId, NatToString(k))
  }

  /** `if (!is_dir($target_dir)) mkdir($target_dir, 0755, true)`, which may fail silently. */
  function Prepared(nodes: Nodes, dir: Path, now: int): Nodes {
    if !IsDir(nodes, dir) && CanMakeDirs(nodes, dir) then WithDirs(nodes, dir, now) else nodes
  }

  /** What one chunk request does to the filesystem, and the reply it gets. */
  function ChunkStep(nodes: Nodes, root: string, req: ChunkRequest, now: int): (Nodes, Reply) {
    if !req.nonceOk then (nodes, Failure("Security check failed"))
    else if req.chunk.None? || req.chunk.value.error != UploadErrOk then (nodes, Failure("Upload error"))
    else
      var dir := ScratchDir(root, req.uploadId);
      var made := Prepared(nodes, dir, now);
      var part := dir + [PartName(IntVal(req.chunkIndex))];
      if CanWriteFile(made, part) then (made[part := File(req.chunk.value.data)], Success(None))
      else (made, Failure("Failed to move chunk"))
  }

  /** `icc_upload_and_shorten_handle_chunk`, for a share directory whose path holds no `..`. */
  method HandleChunk(fs: FileSystem, shareDir: string, sysTemp: string, req: ChunkRequest, now: int)
    returns (reply: Reply)
    requires fs.Valid()
    requires IsPlainPath(Components(ScratchRoot(shareDir, sysTemp)))
    modifies fs
    ensures fs.Valid()
    ensures (fs.nodes, reply) == ChunkStep(old(fs.nodes), ScratchRoot(shareDir, sysTemp), req, now)
  {
    if !req.nonceOk {
      return Failure("Security check failed");
    }
    if req.chunk.None? || req.chunk.value.error != UploadErrOk {
      return Failure("Upload error");
    }
    var uploadId := SanitizeId(req.uploadId);
    var tempDir := shareDir;
    if Falsy(tempDir) {
      tempDir := sysTemp;
    }
    var targetDir := RTrim(tempDir, '/') + "/icc_temp_" + uploadId;
    ScratchDirPath(tempDir, req.uploadId);
    PlainAppend(Components(tempDir), ScratchName(req.uploadId));
    PlainAppend(Components(targetDir), PartName(IntVal(req.chunkIndex)));
    if !IsDir(fs.nodes, Components(targetDir)) {
      var made := fs.MakeDirs(Components(targetDir), now);
    }
    var chunkIndex := IntVal(req.chunkIndex);
    var targetFile := targetDir + "/part_" + IntToString(chunkIndex);
    PartPath(targetDir, chunkIndex);
    var moved := fs.WriteFile(Components(targetFile), req.chunk.value.data);
    if moved {
      reply := Success(None);
    } else {
      reply := Failure("Failed to move chunk");
    }
  }

  /** A request with a bad nonce, or without a good upload, changes nothing. */
  lemma {:induction false} ChunkGates(nodes: Nodes, root: string, req: ChunkRequest, now: int)
    ensures !req.nonceOk ==> ChunkStep(nodes, root, req, now) == (nodes, Failure("Security check failed"))
    ensures req.nonceOk && (req.chunk.None? || req.chunk.value.error != UploadErrOk)
            ==> ChunkStep(nodes, root, req, now) == (nodes, Failure("Upload error"))
  {
  }

  /**
    * The scratch area of one upload: a real directory whose `part_*` entries
    * are regular files with non-negative indices, holding the slices of
    * `data` with the indices in `sent`.
    */
  ghost predicate Collecting(nodes: Nodes, dir: Path, data: seq<Byte>, sent: set<nat>) {
    && dir in nodes && nodes[dir].Dir?
    && Parts(nodes, dir) == SliceMap(data, sent)
    && forall n | n in Children(nodes, dir) && IsChunkName(n) :: IsIndexedChunk(n) && nodes[dir + [n]].File?
  }

  /** A directory `mkdir` has just made has no entries. */
  lemma {:induction false} FreshDirEmpty(nodes: Nodes, dir: Path, now: int, n: string)
    requires WellFormed(nodes) && CanMakeDirs(nodes, dir)
    ensures dir + [n] !in WithDirs(nodes, dir, now)
  {
    var q := dir + [n];
    assert q[..|dir|] == dir;
    if q in WithDirs(nodes, dir, now) {
      if q in nodes {
        assert false;
      } else {
        assert false;
      }
    }
  }

  /** Getting the scratch directory ready keeps what it collected, or makes it empty. */
  lemma {:induction false} PreparedCollects(nodes: Nodes, dir: Path, data: seq<Byte>, sent: set<nat>, now: int)
    requires Collecting(nodes, dir, data, sent) || (sent == {} && WellFormed(nodes) && CanMakeDirs(nodes, dir))
    ensures Collecting(Prepared(nodes, dir, now), dir, data, sent)
  {
    if !Collecting(nodes, dir, data, sent) {
      var made := WithDirs(nodes, dir, now);
      assert dir[..|dir|] == dir;
      assert Prepared(nodes, dir, now) == made;
      forall n ensures dir + [n] !in made {
        FreshDirEmpty(nodes, dir, now, n);
      }
      assert Children(made, dir) == {};
      assert Indices(made, dir) == {};
      assert Parts(made, dir) == SliceMap(data, sent);
    }
  }

  /** After chunk `k` is stored, every `part_*` entry is still an indexed regular file. */
  lemma {:induction false} EntriesAfterStore(nodes: Nodes, dir: Path, k: nat, chunk: seq<Byte>)
    requires forall n | n in Children(nodes, dir) && IsChunkName(n) :: IsIndexedChunk(n) && nodes[dir + [n]].File?
    ensures var after := nodes[dir + [PartName(k)] := File(chunk)];
            forall n | n in Children(after, dir) && IsChunkName(n) :: IsIndexedChunk(n) && after[dir + [n]].File?
  {
    var after := nodes[dir + [PartName(k)] := File(chunk)];
    forall n | n in Children(after, dir) && IsChunkName(n) ensures IsIndexedChunk(n) && after[dir + [n]].File? {
      if n == PartName(k) {
        PartNameIndexed(k);
      } else {
        assert n in Children(nodes, dir);
      }
    }
  }

  lemma SliceMapAdd(data: seq<Byte>, sent: set<nat>, k: nat)
    ensures SliceMap(data, sent)[k := Slicing.Slice(data, k)] == SliceMap(data, sent + {k})
  {
    MapsEqual(SliceMap(data, sent)[k := Slicing.Slice(data, k)], SliceMap(data, sent + {k}));
  }

  /** Storing chunk `k` in a collecting scratch directory succeeds and collects it. */
  lemma {:induction false} StoreCollects(nodes: Nodes, dir: Path, data: seq<Byte>, sent: set<nat>, k: nat)
    requires Collecting(nodes, dir, data, sent)
    ensures CanWriteFile(nodes, dir + [PartName(k)])
    ensures Collecting(nodes[dir + [PartName(k)] := File(Slicing.Slice(data, k))], dir, data, sent + {k})
  {
    var part := dir + [PartName(k)];
    assert part[..|part| - 1] == dir;
    if part in nodes {
      assert PartName(k) in Children(nodes, dir);
    }
    var after := nodes[part := File(Slicing.Slice(data, k))];
    assert |part| != |dir|;
    assert dir in after && after[dir].Dir?;
    PartsAfterStore(nodes, dir, k, Slicing.Slice(data, k));
    SliceMapAdd(data, sent, k);
    assert Parts(after, dir) == SliceMap(data, sent + {k});
    EntriesAfterStore(nodes, dir, k, Slicing.Slice(data, k));
  }

  /** Posting chunk `k` of `data` from the client stores it, whether the scratch directory exists yet or not. */
  lemma {:induction false} ChunkStepCollects(nodes: Nodes, root: string, id: string, data: seq<Byte>, sent: set<nat>, k: nat, now: int)
    requires k <= IntMax
    requires Collecting(nodes, ScratchDir(root, id), data, sent)
             || (sent == {} && WellFormed(nodes) && CanMakeDirs(nodes, ScratchDir(root, id)))
    ensures ChunkStep(nodes, root, ClientChunk(data, id, k), now).1 == Success(None)
    ensures Collecting(ChunkStep(nodes, root, ClientChunk(data, id, k), now).0, ScratchDir(root, id), data, sent + {k})
  {
    var dir := ScratchDir(root, id);
    IntValOfNatToString(k);
    PreparedCollects(nodes, dir, data, sent, now);
    StoreCollects(Prepared(nodes, dir, now), dir, data, sent, k);
  }

  lemma SentCons(sent: set<nat>, order: seq<nat>)
    requires order != []
    ensures sent + (set x | x in order) == (sent + {order[0]}) + set x | x in order[1..]
  {
    assert forall x :: x in order <==> x == order[0] || x in order[1..];
  }

  /** The filesystem after the client's chunk requests for the indices in `order`, one after another. */
  ghost function Deliver(nodes: Nodes, root: string, id: string, data: seq<Byte>, order: seq<nat>, now: int): Nodes
    decreases |order|
  {
    if order == [] then nodes
    else Deliver(ChunkStep(nodes, root, ClientChunk(data, id, order[0]), now).0, root, id, data, order[1..], now)
  }

  /**
    * Whatever order the chunks of `data` arrive in, and however often one is
    * re-sent, a collecting scratch directory ends up holding exactly one copy
    * of each slice sent.
    */
  lemma {:induction false} DeliverCollects(nodes: Nodes, root: string, id: string, data: seq<Byte>, sent: set<nat>, order: seq<nat>, now: int)
    requires forall i | 0 <= i < |order| :: order[i] <= IntMax
    requires Collecting(nodes, ScratchDir(root, id), data, sent)
    ensures Collecting(Deliver(nodes, root, id, data, order, now), ScratchDir(root, id), data, sent + set x | x in order)
    decreases |order|
  {
    if order != [] {
      var next := ChunkStep(nodes, root, ClientChunk(data, id, order[0]), now).0;
      ChunkStepCollects(nodes, root, id, data, sent, order[0], now);
      DeliverCollects(next, root, id, data, sent + {order[0]}, order[1..], now);
      SentCons(sent, order);
    }
  }

  /** The same from the first chunk on, when the upload's scratch directory does not exist yet and can be made. */
  lemma {:induction false} DeliverFromScratch(nodes: Nodes, root: string, id: string, data: seq<Byte>, order: seq<nat>, now: int)
    requires forall i | 0 <= i < |order| :: order[i] <= IntMax
    requires order != [] && WellFormed(nodes) && CanMakeDirs(nodes, ScratchDir(root, id))
    ensures Collecting(Deliver(nodes, root, id, data, order, now), ScratchDir(root, id), data, set x | x in order)
  {
    var next := DeliverFirst(nodes, root, id, data, order, now);
    DeliverCollects(next, root, id, data, {order[0]}, order[1..], now);
    SentFirst(order);
  }

  /** The first chunk makes the scratch directory and stores itself there. */
  lemma {:induction false} DeliverFirst(nodes: Nodes, root: string, id: string, data: seq<Byte>, order: seq<nat>, now: int)
    returns (next: Nodes)
    requires order != [] && order[0] <= IntMax
    requires WellFormed(nodes) && CanMakeDirs(nodes, ScratchDir(root, id))
    ensures Collecting(next, ScratchDir(root, id), data, {order[0]})
    ensures Deliver(nodes, root, id, data, order, now) == Deliver(next, root, id, data, order[1..], now)
  {
    var none: set<nat> := {};
    assert none + {order[0]} == {order[0]};
    next := ChunkStep(nodes, root, ClientChunk(data, id, order[0]), now).0;
    ChunkStepCollects(nodes, root, id, data, none, order[0], now);
  }

  lemma SentFirst(order: seq<nat>)
    requires order != []
    ensures (set x | x in order) == {order[0]} + set x | x in order[1..]
  {
    assert forall x :: x in order <==> x == order[0] || x in order[1..];
  }
}

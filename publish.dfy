/**
  * The publishing half of `icc_upload_and_shorten_process_upload`: the
  * configuration checks, the collision probe in the share directory, the
  * local `rename` / `move_uploaded_file` or the S3 `putObject`, and the
  * short link YOURLS is asked to create. The S3 client, `is_writable`, the
  * short URL YOURLS hands back and the random choices are inputs.
  */
module Publish {
  import opened Wrappers
  import opened Text
  import opened Paths
  import opened Files
  import opened Naming
  import TempSpace

  /** The plugin's options, as `yourls_get_option` returns them. */
  datatype Config = Config(
    storageType: string,
    shareUrl: string,
    shareDir: string,
    s3Key: string,
    s3Secret: string,
    s3Region: string,
    s3Bucket: string,
    disableAcl: bool)

  /** The posted fields `convert_filename`, `custom_shortname` and `custom_title` (`None` when absent). */
  datatype Fields = Fields(convertFilename: Option<string>, customShortname: Option<string>, customTitle: Option<string>)

  /** `$_FILES['file_upload']`: error code, client-side name, temporary file name and bytes. */
  datatype FormFile = FormFile(error: int, name: string, tmpName: string, data: seq<Byte>)

  /** Where the bytes come from: the file the assembler wrote, or the upload form. */
  datatype Source = Chunked(path: string, originalName: string) | Form(file: FormFile)

  /** How `putObject` ends: with the object's URL, or with an `S3Exception`. */
  datatype PutResult = PutOk(objectUrl: string) | PutFailed(message: string)

  /** The arguments given to `putObject`. */
  datatype PutArgs = PutArgs(bucket: string, key: string, sourceFile: string, acl: Option<string>)

  /** The arguments given to `yourls_add_new_link`. */
  datatype LinkArgs = LinkArgs(url: string, keyword: string, title: string)

  /**
    * What the surroundings answer: `is_writable` of the share directory,
    * whether `icc_get_aws_client` returns a client, how `putObject` ends, the
    * random choices of the naming policies and the `shorturl` YOURLS returns.
    */
  datatype Env = Env(dirWritable: bool, clientOk: bool, put: PutResult, chance: Chance, shortUrl: string)

  /** PHP `UPLOAD_ERR_NO_FILE`. */
  const UploadErrNoFile: int := 4

  // ------------------------------------------------------------- the gates

  /** The error `process_upload` returns before touching any file or service, if any. */
  function Gate(cfg: Config, src: Source, nodes: Nodes, env: Env): Option<string> {
    if src.Form? && src.file.error == UploadErrNoFile then Some("You need to select a file to upload.")
    else if cfg.storageType == "local" then
      if Falsy(cfg.shareUrl) || Falsy(cfg.shareDir) then Some("Plugin not configured for local storage.")
      else if !IsDir(nodes, Components(cfg.shareDir)) || !env.dirWritable then
        Some("Upload directory does not exist or is not writable: " + cfg.shareDir)
      else None
    else if cfg.storageType == "s3" then
      if Falsy(cfg.s3Key) || Falsy(cfg.s3Secret) || Falsy(cfg.s3Region) || Falsy(cfg.s3Bucket) then
        Some("Plugin not configured for S3 storage.")
      else if !env.clientOk then
        Some("AWS SDK not found or failed to initialize, please ensure aws.phar is in the plugin folder.")
      else None
    else None
  }

  /** Local storage passes the gates exactly when URL and directory are set and the directory is usable. */
  lemma LocalGate(cfg: Config, src: Source, nodes: Nodes, env: Env)
    requires cfg.storageType == "local"
    ensures Gate(cfg, src, nodes, env).None? <==>
            && !(src.Form? && src.file.error == UploadErrNoFile)
            && !Falsy(cfg.shareUrl) && !Falsy(cfg.shareDir)
            && IsDir(nodes, Components(cfg.shareDir)) && env.dirWritable
  {
  }

  /** S3 storage passes the gates exactly when all four settings are set and the client comes up. */
  lemma S3Gate(cfg: Config, src: Source, nodes: Nodes, env: Env)
    requires cfg.storageType == "s3"
    ensures Gate(cfg, src, nodes, env).None? <==>
            && !(src.Form? && src.file.error == UploadErrNoFile)
            && !Falsy(cfg.s3Key) && !Falsy(cfg.s3Secret) && !Falsy(cfg.s3Region) && !Falsy(cfg.s3Bucket)
            && env.clientOk
  {
  }

  // ------------------------------------------------------------ the names

  /** `$file_name_to_use`. */
  function UploadName(src: Source): string {
    if src.Chunked? then src.originalName else src.file.name
  }

  /** The name and dotted extension the upload is stored under, before the probe. */
  function Resolve(src: Source, fields: Fields, ch: Chance): (r: Resolved)
    requires ValidChance(ch)
    ensures !Contains(r.filename, '/') && !Contains(r.extension, '/')
  {
    var name := UploadName(src);
    PolicyNoSlash(Filename(name), WithDot(Extension(name)), fields.convertFilename, ch);
    ResolveName(name, fields.convertFilename, ch)
  }

  /** The `n`-th name the probe tries: `name.ext` first, then `name.2.ext`, `name.3.ext`, … */
  function Candidate(r: Resolved, n: nat): string {
    if n <= 1 then r.filename + r.extension else r.filename + "." + NatToString(n) + r.extension
  }

  /** Different numbered candidates are different names. */
  lemma CandidateInjective(r: Resolved, m: nat, n: nat)
    requires m >= 2 && n >= 2 && Candidate(r, m) == Candidate(r, n)
    ensures m == n
  {
    var a := r.filename + ".";
    var sm, sn := NatToString(m), NatToString(n);
    var cm, cn := a + sm + r.extension, a + sn + r.extension;
    assert Candidate(r, m) == cm && Candidate(r, n) == cn;
    assert |sm| == |sn|;
    assert cm[|a|..|a| + |sm|] == sm;
    assert cn[|a|..|a| + |sn|] == sn;
    NatToStringInjective(m, n);
  }

  lemma CandidateNoSlash(r: Resolved, n: nat)
    requires !Contains(r.filename, '/') && !Contains(r.extension, '/')
    ensures !Contains(Candidate(r, n), '/')
  {
    if n <= 1 {
      ContainsConcat(r.filename, r.extension, '/');
    } else {
      var d := NatToString(n);
      assert !Contains(d, '/') by {
        assert forall i | 0 <= i < |d| :: IsDigit(d[i]);
      }
      ContainsConcat(r.filename, ".", '/');
      ContainsConcat(r.filename + ".", d, '/');
      ContainsConcat(r.filename + "." + d, r.extension, '/');
    }
  }

  /**
    * `file_exists($dir . $entry)` for a `dir` that `is_dir` accepts: the
    * string names the entry `Tail(dir) + entry` of `Head(dir)`. When that
    * entry is "", "." or "..", the string names `dir` itself, `Head(dir)`
    * or the directory above it, all of which exist.
    */
  predicate Probe(nodes: Nodes, dir: string, entry: string) {
    var e := Tail(dir) + entry;
    !IsPlainName(e) || Components(Head(dir)) + [e] in nodes
  }

  /** A numbered candidate is always a plain entry name. */
  lemma CandidatePlain(dir: string, r: Resolved, n: nat)
    requires n >= 2 && !Contains(r.filename, '/') && !Contains(r.extension, '/')
    ensures IsPlainName(Tail(dir) + Candidate(r, n))
  {
    var t, d := Tail(dir), NatToString(n);
    var e := t + Candidate(r, n);
    var k := |t| + |r.filename| + 1;
    assert e == t + r.filename + "." + d + r.extension;
    assert e[k] == d[0];
    ContainsConcat(t, r.filename, '/');
    ContainsConcat(t + r.filename, ".", '/');
    assert !Contains(d, '/') by {
      assert forall i | 0 <= i < |d| :: IsDigit(d[i]);
    }
    ContainsConcat(t + r.filename + ".", d, '/');
    ContainsConcat(t + r.filename + "." + d, r.extension, '/');
  }

  /** The directory that holds the entries of `dir`'s last segment is a plain path too. */
  lemma HeadPlain(dir: string)
    requires IsPlainPath(Components(dir))
    ensures IsPlainPath(Components(Head(dir)))
  {
    var k := LastIndexOf(dir, '/');
    if k < 0 {
      ComponentsEmpty();
    } else {
      assert dir == dir[..k] + "/" + dir[k + 1..];
      ComponentsJoin(dir[..k], dir[k + 1..]);
      var h := Components(dir[..k]);
      assert forall i | 0 <= i < |h| :: h[i] == Components(dir)[i];
    }
  }

  /** Where `$dir . $name` lands when the probe finds it free: a plain path not yet in use. */
  lemma FreeTarget(nodes: Nodes, dir: string, name: string)
    requires IsPlainPath(Components(dir)) && !Contains(name, '/')
    requires !Probe(nodes, dir, name)
    ensures Components(dir + name) == Components(Head(dir)) + [Tail(dir) + name]
    ensures IsPlainPath(Components(dir + name)) && Components(dir + name) !in nodes
  {
    ComponentsAppend(dir, name);
    HeadPlain(dir);
    PlainAppend(Components(Head(dir)), Tail(dir) + name);
  }

  /** The path the `n`-th probe looks at, when its entry is a plain name. */
  function ProbeKey(dir: string, r: Resolved, n: nat): Path {
    Components(Head(dir)) + [Tail(dir) + Candidate(r, n)]
  }

  /** The paths the numbered probes before `slot` looked at. */
  function ProbedKeys(dir: string, r: Resolved, slot: nat): set<Path> {
    set n | 2 <= n < slot :: ProbeKey(dir, r, n)
  }

  /** One more taken numbered candidate: its path is in use and was not looked at before. */
  lemma ProbeStep(nodes: Nodes, dir: string, r: Resolved, slot: nat)
    requires slot >= 2 && !Contains(r.filename, '/') && !Contains(r.extension, '/')
    requires Probe(nodes, dir, Candidate(r, slot))
    ensures ProbeKey(dir, r, slot) in nodes && ProbeKey(dir, r, slot) !in ProbedKeys(dir, r, slot)
    ensures ProbedKeys(dir, r, slot + 1) == ProbedKeys(dir, r, slot) + {ProbeKey(dir, r, slot)}
    ensures ProbedKeys(dir, r, slot) <= nodes.Keys ==>
            ProbedKeys(dir, r, slot + 1) <= nodes.Keys
            && nodes.Keys - ProbedKeys(dir, r, slot + 1) < nodes.Keys - ProbedKeys(dir, r, slot)
  {
    CandidatePlain(dir, r, slot);
    var t := Tail(dir);
    var key := ProbeKey(dir, r, slot);
    if key in ProbedKeys(dir, r, slot) {
      var n :| 2 <= n < slot && key == ProbeKey(dir, r, n);
      var e := key[|Components(Head(dir))|];
      assert e == t + Candidate(r, n) && e == t + Candidate(r, slot);
      assert Candidate(r, n) == e[|t|..] == Candidate(r, slot);
      CandidateInjective(r, n, slot);
    }
  }

  /** Every candidate before `slot` is taken. */
  predicate AllTaken(nodes: Nodes, dir: string, r: Resolved, slot: nat) {
    forall n | 1 <= n < slot :: Probe(nodes, dir, Candidate(r, n))
  }

  lemma TakenExtend(nodes: Nodes, dir: string, r: Resolved, slot: nat)
    requires AllTaken(nodes, dir, r, slot) && Probe(nodes, dir, Candidate(r, slot))
    ensures AllTaken(nodes, dir, r, slot + 1)
  {
  }

  lemma NoProbedKeys(dir: string, r: Resolved)
    ensures ProbedKeys(dir, r, 1) == {} && ProbedKeys(dir, r, 2) == {}
  {
  }

  /**
    * The collision loop for local storage: the first candidate the probe
    * finds free, its path `$dir . $name` and its number (`$my_count - 1`).
    */
  method FirstFree(nodes: Nodes, dir: string, r: Resolved) returns (path: string, finalName: string, slot: nat)
    requires !Contains(r.filename, '/') && !Contains(r.extension, '/')
    ensures slot >= 1 && finalName == Candidate(r, slot) && path == dir + finalName
    ensures !Probe(nodes, dir, finalName)
    ensures AllTaken(nodes, dir, r, slot)
  {
    var count := 2;
    finalName := Candidate(r, 1);  // $my_filename . $my_extension
    path := dir + finalName;
    slot := 1;
    NoProbedKeys(dir, r);
    while Probe(nodes, dir, finalName)
      invariant count == slot + 1 && slot >= 1
      invariant finalName == Candidate(r, slot) && path == dir + finalName
      invariant AllTaken(nodes, dir, r, slot)
      invariant ProbedKeys(dir, r, slot) <= nodes.Keys
      decreases nodes.Keys - ProbedKeys(dir, r, slot), if slot == 1 then 1 else 0
    {
      if slot >= 2 {
        ProbeStep(nodes, dir, r, slot);
      } else {
        NoProbedKeys(dir, r);
      }
      TakenExtend(nodes, dir, r, slot);
      finalName := Candidate(r, count);  // $my_filename . '.' . $my_count . $my_extension
      path := dir + finalName;
      count := count + 1;
      slot := slot + 1;
    }
  }

  // -------------------------------------------------------- the outcomes

  /** `'<font color="green">"…" successfully sent to …. Links:</font>…'`. */
  function SuccessMessage(fullname: string, where: string, url: string, short: string): string {
    "<font color=\"green\">\"" + fullname + "\" successfully sent to " + where + ". Links:</font><br />"
    + "Direct: <a href=\"" + url + "\" target=\"_blank\">" + url + "</a><br />"
    + "Short:  <a href=\"" + short + "\" target=\"_blank\">" + short + "</a>"
  }

  /** The failure report: the form's error code, or "Unknown error" when `$_FILES['file_upload']` is unset. */
  function FailureMessage(src: Source): string {
    "<font color=\"red\">Upload failed, sorry! The error was "
    + (if src.Form? then IntToString(src.file.error) else "Unknown error") + "</font>"
  }

  function S3FailureMessage(message: string): string {
    "<font color=\"red\">S3 Upload failed: " + message + "</font>"
  }

  /** A posted field counts only when it is set and not "" (`!= NULL`). */
  function Given(field: Option<string>): (r: Option<string>)
    ensures r.Some? <==> field.Some? && field.value != ""
    ensures r.Some? ==> r == field
  {
    if field.Some? && field.value != "" then field else None
  }

  /** The keyword asked of YOURLS: the custom short name, or "" to let YOURLS choose. */
  function Keyword(fields: Fields): (k: string)
    ensures Given(fields.customShortname).Some? ==> k == fields.customShortname.value
    ensures Given(fields.customShortname).None? ==> k == ""
  {
    if Given(fields.customShortname).Some? then fields.customShortname.value else ""
  }

  /** The link title: the custom title, or the policy and the uploaded base name (`null` prints as ""). */
  function Title(fields: Fields, name: string): (t: string)
    ensures Given(fields.customTitle).Some? ==> t == fields.customTitle.value
    ensures Given(fields.customTitle).None? ==>
            t == (if fields.convertFilename.Some? then fields.convertFilename.value else "") + ": " + Basename(name)
  {
    if Given(fields.customTitle).Some? then fields.customTitle.value
    else (if fields.convertFilename.Some? then fields.convertFilename.value else "") + ": " + Basename(name)
  }

  /** The default title always ends with the base name of the upload. */
  lemma DefaultTitleEndsWithName(fields: Fields, name: string)
    requires Given(fields.customTitle).None?
    ensures var t := Title(fields, name);
            |Basename(name)| <= |t| && t[|t| - |Basename(name)|..] == Basename(name)
  {
  }

  /** The S3 request: bucket, the published name as key, the file to send, and the ACL unless it is disabled. */
  function PutRequest(cfg: Config, key: string, sourceFile: string): (a: PutArgs)
    ensures a.bucket == cfg.s3Bucket && a.key == key && a.sourceFile == sourceFile
    ensures a.acl.Some? <==> !cfg.disableAcl
    ensures a.acl.Some? ==> a.acl.value == "public-read"
  {
    PutArgs(cfg.s3Bucket, key, sourceFile, if !cfg.disableAcl then Some("public-read") else None)
  }

  /** The file S3 is sent: the assembled file, or the form's temporary file. */
  function SourceFile(src: Source): string {
    if src.Chunked? then src.path else src.file.tmpName
  }

  /**
    * Does the local move succeed? `rename` needs a regular file at the
    * source, `move_uploaded_file` an upload PHP accepted (error code 0);
    * both need a writable target.
    */
  predicate LocalMoves(nodes: Nodes, src: Source, dst: Path) {
    && CanWriteFile(nodes, dst)
    && (src.Chunked? ==> Components(src.path) in nodes && nodes[Components(src.path)].File?)
    && (src.Form? ==> src.file.error == TempSpace.UploadErrOk)
  }

  /** The nodes after a local move. */
  function AfterLocal(nodes: Nodes, src: Source, dst: Path): Nodes
    requires LocalMoves(nodes, src, dst)
  {
    if src.Chunked? then (nodes - {Components(src.path)})[dst := nodes[Components(src.path)]]
    else nodes[dst := File(src.file.data)]
  }

  /** After a local move the target holds the uploaded bytes, and a chunked upload's file is gone from its old place. */
  lemma LocalMoveContents(nodes: Nodes, src: Source, dst: Path)
    requires LocalMoves(nodes, src, dst)
    ensures var after := AfterLocal(nodes, src, dst);
            && dst in after && after[dst].File?
            && after[dst].data == (if src.Chunked? then nodes[Components(src.path)].data else src.file.data)
            && (src.Chunked? && Components(src.path) != dst ==> Components(src.path) !in after)
            && forall q | q in nodes && q != dst && (src.Chunked? ==> q != Components(src.path)) :: q in after && after[q] == nodes[q]
  {
  }

  /** `if ($local_file_path && file_exists($local_file_path)) unlink($local_file_path)`. */
  function AfterS3(nodes: Nodes, src: Source): Nodes {
    if src.Chunked? && Components(src.path) in nodes && !nodes[Components(src.path)].Dir? then nodes - {Components(src.path)}
    else nodes
  }

  // --------------------------------------------------------------- publish

  /**
    * What publishing to local storage does: the probe settles on candidate
    * `slot`, the first one free, whose path is a plain path not in use; the
    * file moves there if it can, and then the link points at
    * `share_url . final_name`.
    */
  ghost predicate LocalOutcome(before: Nodes, after: Nodes, cfg: Config, src: Source, fields: Fields, env: Env,
                               msg: string, link: Option<LinkArgs>, slot: nat)
    requires ValidChance(env.chance)
  {
    var r := Resolve(src, fields, env.chance);
    var dst := Components(cfg.shareDir + Candidate(r, slot));
    var ok := LocalMoves(before, src, dst);
    && slot >= 1
    && !Probe(before, cfg.shareDir, Candidate(r, slot))
    && AllTaken(before, cfg.shareDir, r, slot)
    && IsPlainPath(dst) && dst !in before
    && after == (if ok then AfterLocal(before, src, dst) else before)
    && link == (if ok then Some(LinkArgs(cfg.shareUrl + Candidate(r, slot), Keyword(fields), Title(fields, UploadName(src))))
                else None)
    && msg == (if ok then SuccessMessage(Basename(UploadName(src)), "Server", cfg.shareUrl + Candidate(r, slot), env.shortUrl)
               else FailureMessage(src))
  }

  /**
    * What publishing to S3 does: one `putObject` of the resolved name, with
    * the ACL unless it is disabled; on an exception nothing changes, on
    * success the assembled file is removed and the link points at the
    * object's URL.
    */
  ghost predicate S3Outcome(before: Nodes, after: Nodes, cfg: Config, src: Source, fields: Fields, env: Env,
                            msg: string, put: PutArgs, link: Option<LinkArgs>)
    requires ValidChance(env.chance)
  {
    && put == PutRequest(cfg, Candidate(Resolve(src, fields, env.chance), 1), SourceFile(src))
    && (env.put.PutFailed? ==> after == before && link == None && msg == S3FailureMessage(env.put.message))
    && (env.put.PutOk? ==>
          && after == AfterS3(before, src)
          && link == Some(LinkArgs(env.put.objectUrl, Keyword(fields), Title(fields, UploadName(src))))
          && msg == SuccessMessage(Basename(UploadName(src)), "S3", env.put.objectUrl, env.shortUrl))
  }

  /** `icc_upload_and_shorten_process_upload` for local storage, past the gates. */
  method PublishLocal(fs: FileSystem, cfg: Config, src: Source, fields: Fields, env: Env)
    returns (msg: string, link: Option<LinkArgs>, ghost slot: nat)
    requires fs.Valid() && ValidChance(env.chance)
    requires IsPlainPath(Components(cfg.shareDir))
    modifies fs
    ensures fs.Valid()
    ensures LocalOutcome(old(fs.nodes), fs.nodes, cfg, src, fields, env, msg, link, slot)
  {
    ghost var before := fs.nodes;
    var r := Resolve(src, fields, env.chance);
    var path, finalName, count := FirstFree(fs.nodes, cfg.shareDir, r);
    slot := count;
    CandidateNoSlash(r, slot);
    FreeTarget(fs.nodes, cfg.shareDir, finalName);
    ghost var dst := Components(path);
    var ok;
    if src.Chunked? {
      ok := fs.Rename(Components(src.path), Components(path));
    } else if src.file.error == TempSpace.UploadErrOk {
      ok := fs.WriteFile(Components(path), src.file.data);
    } else {
      // `move_uploaded_file` refuses an upload PHP did not accept
      ok := false;
    }
    assert ok == LocalMoves(before, src, dst);
    assert fs.nodes == if ok then AfterLocal(before, src, dst) else before;
    if ok {
      var url := cfg.shareUrl + finalName;
      link := Some(LinkArgs(url, Keyword(fields), Title(fields, UploadName(src))));
      msg := SuccessMessage(Basename(UploadName(src)), "Server", url, env.shortUrl);
    } else {
      link := None;
      msg := FailureMessage(src);
    }
  }

  /** `icc_upload_and_shorten_process_upload` for S3 storage, past the gates. */
  method PublishS3(fs: FileSystem, cfg: Config, src: Source, fields: Fields, env: Env)
    returns (msg: string, put: PutArgs, link: Option<LinkArgs>)
    requires fs.Valid() && ValidChance(env.chance)
    modifies fs
    ensures fs.Valid()
    ensures S3Outcome(old(fs.nodes), fs.nodes, cfg, src, fields, env, msg, put, link)
  {
    var r := Resolve(src, fields, env.chance);
    var finalName := r.filename + r.extension;
    put := PutRequest(cfg, finalName, SourceFile(src));
    if env.put.PutFailed? {
      return S3FailureMessage(env.put.message), put, None;
    }
    if src.Chunked? && Exists(fs.nodes, Components(src.path)) {
      var gone := fs.Unlink(Components(src.path));
    }
    var url := env.put.objectUrl;
    link := Some(LinkArgs(url, Keyword(fields), Title(fields, UploadName(src))));
    msg := SuccessMessage(Basename(UploadName(src)), "S3", url, env.shortUrl);
  }

  /**
    * What `icc_upload_and_shorten_process_upload` does, from the nodes
    * `before` to the nodes `after`: an error from the gates changes nothing
    * and calls no service; past them the configured storage decides, and any
    * other storage type publishes nothing.
    */
  ghost predicate Published(before: Nodes, after: Nodes, cfg: Config, src: Source, fields: Fields, env: Env,
                            msg: string, put: Option<PutArgs>, link: Option<LinkArgs>, slot: nat)
    requires ValidChance(env.chance)
  {
    var gate := Gate(cfg, src, before, env);
    && (gate.Some? ==> msg == gate.value && after == before && put == None && link == None)
    && (gate.None? && cfg.storageType == "local" ==>
          put == None && LocalOutcome(before, after, cfg, src, fields, env, msg, link, slot))
    && (gate.None? && cfg.storageType == "s3" ==>
          put.Some? && S3Outcome(before, after, cfg, src, fields, env, msg, put.value, link))
    && (gate.None? && cfg.storageType != "local" && cfg.storageType != "s3" ==>
          after == before && put == None && link == None && msg == FailureMessage(src))
  }

  /**
    * `icc_upload_and_shorten_process_upload`: the gates, then the storage
    * the configuration names.
    */
  method ProcessUpload(fs: FileSystem, cfg: Config, src: Source, fields: Fields, env: Env)
    returns (msg: string, put: Option<PutArgs>, link: Option<LinkArgs>, ghost slot: nat)
    requires fs.Valid() && ValidChance(env.chance)
    requires src.Chunked? ==> !Falsy(src.path)
    requires cfg.storageType == "local" ==> IsPlainPath(Components(cfg.shareDir))
    modifies fs
    ensures fs.Valid()
    ensures Published(old(fs.nodes), fs.nodes, cfg, src, fields, env, msg, put, link, slot)
  {
    var gate := Gate(cfg, src, fs.nodes, env);
    put, slot := None, 0;
    if gate.Some? {
      return gate.value, None, None, 0;
    }
    if cfg.storageType == "local" {
      msg, link, slot := PublishLocal(fs, cfg, src, fields, env);
    } else if cfg.storageType == "s3" {
      var args;
      msg, args, link := PublishS3(fs, cfg, src, fields, env);
      put := Some(args);
    } else {
      msg, link := FailureMessage(src), None;
    }
  }

  /** A gate error comes before any move, any S3 request and any link. */
  lemma GateFirst(before: Nodes, after: Nodes, cfg: Config, src: Source, fields: Fields, env: Env,
                  msg: string, put: Option<PutArgs>, link: Option<LinkArgs>, slot: nat)
    requires ValidChance(env.chance)
    requires Published(before, after, cfg, src, fields, env, msg, put, link, slot)
    requires Gate(cfg, src, before, env).Some?
    ensures after == before && put.None? && link.None?
  {
  }

  /** Publishing sends `ACL=public-read` to S3 exactly when the ACL is not disabled. */
  lemma AclUnlessDisabled(before: Nodes, after: Nodes, cfg: Config, src: Source, fields: Fields, env: Env,
                          msg: string, put: Option<PutArgs>, link: Option<LinkArgs>, slot: nat)
    requires ValidChance(env.chance)
    requires Published(before, after, cfg, src, fields, env, msg, put, link, slot)
    requires put.Some?
    ensures put.value.acl == (if cfg.disableAcl then None else Some("public-read"))
  {
  }

  /** On an S3 exception the assembled file stays where it is. */
  lemma S3FailureKeepsFile(before: Nodes, after: Nodes, cfg: Config, src: Source, fields: Fields, env: Env,
                           msg: string, put: Option<PutArgs>, link: Option<LinkArgs>, slot: nat)
    requires ValidChance(env.chance)
    requires Published(before, after, cfg, src, fields, env, msg, put, link, slot)
    requires cfg.storageType == "s3" && env.put.PutFailed?
    ensures after == before && link.None?
  {
  }

  /** Where local storage puts the file: the first free candidate in the share directory. */
  function LocalTarget(cfg: Config, src: Source, fields: Fields, env: Env, slot: nat): Path
    requires ValidChance(env.chance)
  {
    Components(cfg.shareDir + Candidate(Resolve(src, fields, env.chance), slot))
  }

  /**
    * A publish that produced a link has taken the assembled file away: to
    * the local target, or to S3 and then off the disk; nothing else changed.
    */
  lemma LinkedTakesSource(before: Nodes, after: Nodes, cfg: Config, src: Source, fields: Fields, env: Env,
                          msg: string, put: Option<PutArgs>, link: Option<LinkArgs>, slot: nat)
    requires ValidChance(env.chance) && src.Chunked?
    requires Published(before, after, cfg, src, fields, env, msg, put, link, slot)
    requires link.Some? && Components(src.path) in before && before[Components(src.path)].File?
    ensures cfg.storageType == "local" || cfg.storageType == "s3"
    ensures var p := Components(src.path);
            && (cfg.storageType == "local" ==>
                  after == (before - {p})[LocalTarget(cfg, src, fields, env, slot) := before[p]])
            && (cfg.storageType == "s3" ==> after == before - {p})
  {
    assert Gate(cfg, src, before, env).None?;
    if cfg.storageType == "local" {
      LinkedLocal(before, after, cfg, src, fields, env, msg, link, slot);
    } else if cfg.storageType == "s3" {
      LinkedS3(before, after, cfg, src, fields, env, msg, put.value, link);
    }
  }

  lemma LinkedLocal(before: Nodes, after: Nodes, cfg: Config, src: Source, fields: Fields, env: Env,
                    msg: string, link: Option<LinkArgs>, slot: nat)
    requires ValidChance(env.chance) && src.Chunked?
    requires LocalOutcome(before, after, cfg, src, fields, env, msg, link, slot)
    requires link.Some?
    ensures var p := Components(src.path);
            after == (before - {p})[LocalTarget(cfg, src, fields, env, slot) := before[p]]
  {
    assert LocalMoves(before, src, LocalTarget(cfg, src, fields, env, slot));
  }

  lemma LinkedS3(before: Nodes, after: Nodes, cfg: Config, src: Source, fields: Fields, env: Env,
                 msg: string, put: PutArgs, link: Option<LinkArgs>)
    requires ValidChance(env.chance) && src.Chunked?
    requires S3Outcome(before, after, cfg, src, fields, env, msg, put, link)
    requires link.Some? && Components(src.path) in before && before[Components(src.path)].File?
    ensures after == before - {Components(src.path)}
  {
    assert env.put.PutOk?;
  }

  /** Publishing touches nothing but the source file and the target it moves to. */
  lemma PublishFrame(before: Nodes, after: Nodes, cfg: Config, src: Source, fields: Fields, env: Env,
                     msg: string, put: Option<PutArgs>, link: Option<LinkArgs>, slot: nat, q: Path)
    requires ValidChance(env.chance)
    requires Published(before, after, cfg, src, fields, env, msg, put, link, slot)
    requires q in before && (src.Chunked? ==> q != Components(src.path))
    ensures q in after && after[q] == before[q]
  {
    if Gate(cfg, src, before, env).None? && cfg.storageType == "local" {
      LocalFrame(before, after, cfg, src, fields, env, msg, link, slot, q);
    }
  }

  lemma LocalFrame(before: Nodes, after: Nodes, cfg: Config, src: Source, fields: Fields, env: Env,
                   msg: string, link: Option<LinkArgs>, slot: nat, q: Path)
    requires ValidChance(env.chance)
    requires LocalOutcome(before, after, cfg, src, fields, env, msg, link, slot)
    requires q in before && (src.Chunked? ==> q != Components(src.path))
    ensures q in after && after[q] == before[q]
  {
    var dst := Components(cfg.shareDir + Candidate(Resolve(src, fields, env.chance), slot));
    if LocalMoves(before, src, dst) {
      LocalMoveContents(before, src, dst);
    }
  }
}

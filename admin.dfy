/**
  * The admin page's own operations: saving the settings form
  * (`icc_upload_and_shorten_update_settings`), deleting a file from the
  * local file manager or the S3 bucket, the local file manager's
  * pagination and the S3 file manager's Previous/Next links.
  */
module Admin {
  import opened Wrappers
  import opened Text
  import opened Paths
  import opened Files
  import opened Publish

  // ------------------------------------------------------------- settings

  /** What the plugin keeps in the YOURLS options table. */
  datatype Settings = Settings(config: Config, suffixLength: int)

  /**
    * The fields of a settings submission, `None` when a field is not
    * posted. The ACL check box is posted only when it is ticked.
    */
  datatype SettingsForm = SettingsForm(
    storageType: Option<string>,
    shareUrl: Option<string>,
    shareDir: Option<string>,
    s3Key: Option<string>,
    s3Secret: Option<string>,
    s3Region: Option<string>,
    s3Bucket: Option<string>,
    disableAcl: bool,
    suffixLength: Option<string>)

  /** Ends in one `/`, not two. */
  predicate EndsInOneSlash(s: string) {
    s != [] && s[|s| - 1] == '/' && (|s| == 1 || s[|s| - 2] != '/')
  }

  /** `rtrim($s, '/') . '/'`: every trailing slash replaced by exactly one. */
  function WithSlash(s: string): (r: string)
    ensures EndsInOneSlash(r)
    ensures |r| - 1 <= |s| && r[..|r| - 1] == s[..|r| - 1]
    ensures forall i | |r| - 1 <= i < |s| :: s[i] == '/'
  {
    RTrim(s, '/') + "/"
  }

  /** Normalising twice is normalising once. */
  lemma WithSlashIdempotent(s: string)
    ensures WithSlash(WithSlash(s)) == WithSlash(s)
  {
    var t := RTrim(s, '/');
    var r := t + "/";
    assert r[..|r| - 1] == t;
    assert RTrim(r, '/') == RTrim(t, '/');
    assert RTrim(t, '/') == t;
  }

  /** A posted value, or the stored one when the field is not posted. */
  function Update(posted: Option<string>, stored: string): string {
    if posted.Some? then posted.value else stored
  }

  /**
    * The settings after `update_settings`: each posted field is stored,
    * the share URL and directory with one trailing slash, the S3 fields
    * trimmed, the suffix length through `intval`; the ACL option follows
    * the check box whether or not anything else is posted.
    */
  function Saved(s: Settings, f: SettingsForm): Settings
  {
    var c := s.config;
    Settings(
      Config(
        Update(f.storageType, c.storageType),
        if f.shareUrl.Some? then WithSlash(f.shareUrl.value) else c.shareUrl,
        if f.shareDir.Some? then WithSlash(f.shareDir.value) else c.shareDir,
        if f.s3Key.Some? then Trim(f.s3Key.value) else c.s3Key,
        if f.s3Secret.Some? then Trim(f.s3Secret.value) else c.s3Secret,
        if f.s3Region.Some? then Trim(f.s3Region.value) else c.s3Region,
        if f.s3Bucket.Some? then Trim(f.s3Bucket.value) else c.s3Bucket,
        f.disableAcl),
      if f.suffixLength.Some? then IntVal(f.suffixLength.value) else s.suffixLength)
  }

  /** Around a saved value, no white space PHP `trim()` strips. */
  predicate Trimmed(v: string) {
    v == [] || (!IsTrimChar(v[0]) && !IsTrimChar(v[|v| - 1]))
  }

  /**
    * What saving promises: a posted share URL or directory ends in one
    * slash, a posted S3 field carries no surrounding white space, a field
    * not posted keeps its stored value, the suffix length stays a PHP
    * integer, and the ACL option is the check box.
    */
  lemma SavedNormalises(s: Settings, f: SettingsForm)
    requires IntMin <= s.suffixLength <= IntMax
    ensures var r := Saved(s, f).config;
            && (f.shareUrl.Some? ==> EndsInOneSlash(r.shareUrl))
            && (f.shareDir.Some? ==> EndsInOneSlash(r.shareDir))
            && (f.s3Key.Some? ==> Trimmed(r.s3Key))
            && (f.s3Secret.Some? ==> Trimmed(r.s3Secret))
            && (f.s3Region.Some? ==> Trimmed(r.s3Region))
            && (f.s3Bucket.Some? ==> Trimmed(r.s3Bucket))
            && (f.storageType.None? ==> r.storageType == s.config.storageType)
            && (f.shareUrl.None? ==> r.shareUrl == s.config.shareUrl)
            && (f.shareDir.None? ==> r.shareDir == s.config.shareDir)
            && (f.s3Key.None? ==> r.s3Key == s.config.s3Key)
            && (f.s3Secret.None? ==> r.s3Secret == s.config.s3Secret)
            && (f.s3Region.None? ==> r.s3Region == s.config.s3Region)
            && (f.s3Bucket.None? ==> r.s3Bucket == s.config.s3Bucket)
            && r.disableAcl == f.disableAcl
    ensures IntMin <= Saved(s, f).suffixLength <= IntMax
    ensures f.suffixLength.None? ==> Saved(s, f).suffixLength == s.suffixLength
  {
  }

  /**
    * The form the settings page shows for the stored settings, as the
    * browser posts it back unchanged: every text field filled with its
    * stored value, the storage-type select on `s3` or else on its first
    * option `local`, the check box ticked when the ACL is disabled.
    */
  function Shown(s: Settings): SettingsForm {
    var c := s.config;
    SettingsForm(
      Some(if c.storageType == "s3" then "s3" else "local"),
      Some(c.shareUrl), Some(c.shareDir),
      Some(c.s3Key), Some(c.s3Secret), Some(c.s3Region), Some(c.s3Bucket),
      c.disableAcl,
      Some(IntToString(s.suffixLength)))
  }

  /** A submission of the settings page: every field posted, the storage type one of the select's options. */
  predicate IsPageSubmission(f: SettingsForm) {
    && (f.storageType == Some("local") || f.storageType == Some("s3"))
    && f.shareUrl.Some? && f.shareDir.Some?
    && f.s3Key.Some? && f.s3Secret.Some? && f.s3Region.Some? && f.s3Bucket.Some?
    && f.suffixLength.Some?
  }

  /** Saving the page again, as it shows what was saved, changes nothing. */
  lemma ResaveKeeps(s: Settings, f: SettingsForm)
    requires IsPageSubmission(f)
    ensures var t := Saved(s, f); Saved(t, Shown(t)) == t
  {
    var t := Saved(s, f);
    var c := t.config;
    var u := Saved(t, Shown(t));
    assert u.config.storageType == c.storageType;
    assert u.config.shareUrl == c.shareUrl by {
      WithSlashIdempotent(f.shareUrl.value);
    }
    assert u.config.shareDir == c.shareDir by {
      WithSlashIdempotent(f.shareDir.value);
    }
    assert u.config.s3Key == c.s3Key by {
      TrimIdempotent(f.s3Key.value);
    }
    assert u.config.s3Secret == c.s3Secret by {
      TrimIdempotent(f.s3Secret.value);
    }
    assert u.config.s3Region == c.s3Region by {
      TrimIdempotent(f.s3Region.value);
    }
    assert u.config.s3Bucket == c.s3Bucket by {
      TrimIdempotent(f.s3Bucket.value);
    }
    assert u.suffixLength == t.suffixLength by {
      IntValOfIntToString(IntVal(f.suffixLength.value));
    }
  }

  /** The YOURLS options table, as far as the plugin's settings go. */
  class OptionTable {
    var settings: Settings

    constructor (init: Settings)
      ensures settings == init
    {
      settings := init;
    }

    /**
      * `icc_upload_and_shorten_update_settings` as written: the result of
      * the nonce check is discarded, so the form is saved whether or not
      * the check passed.
      */
    method UpdateSettings(nonceOk: bool, f: SettingsForm)
      modifies this
      ensures settings == Saved(old(settings), f)
    {
      var c := settings.config;
      var storageType, shareUrl, shareDir := c.storageType, c.shareUrl, c.shareDir;
      var s3Key, s3Secret, s3Region, s3Bucket := c.s3Key, c.s3Secret, c.s3Region, c.s3Bucket;
      var suffix := settings.suffixLength;
      if f.storageType.Some? {
        storageType := f.storageType.value;
      }
      if f.shareUrl.Some? {
        shareUrl := RTrim(f.shareUrl.value, '/') + "/";
      }
      if f.shareDir.Some? {
        shareDir := RTrim(f.shareDir.value, '/') + "/";
      }
      if f.s3Key.Some? {
        s3Key := Trim(f.s3Key.value);
      }
      if f.s3Secret.Some? {
        s3Secret := Trim(f.s3Secret.value);
      }
      if f.s3Region.Some? {
        s3Region := Trim(f.s3Region.value);
      }
      if f.s3Bucket.Some? {
        s3Bucket := Trim(f.s3Bucket.value);
      }
      if f.suffixLength.Some? {
        suffix := IntVal(f.suffixLength.value);
      }
      settings := Settings(Config(storageType, shareUrl, shareDir, s3Key, s3Secret, s3Region, s3Bucket, f.disableAcl), suffix);
    }

    /** `update_settings` with its nonce check heeded: a failed check saves nothing. */
    method UpdateSettingsChecked(nonceOk: bool, f: SettingsForm)
      modifies this
      ensures settings == if nonceOk then Saved(old(settings), f) else old(settings)
    {
      if nonceOk {
        UpdateSettings(nonceOk, f);
      }
    }
  }

  /** Settings a forged submission can reach, and the form that reaches them. */
  const Stored := Settings(Config("local", "https://files.example/", "/srv/files/", "", "", "", "", false), 4)
  const Forged := SettingsForm(None, None, Some("/tmp"), None, None, None, None, false, None)

  /**
    * A submission whose nonce check fails still moves the share
    * directory: the as-written handler saves `Forged` over `Stored`.
    */
  method ForgedSubmissionSaves() returns (table: OptionTable)
    ensures table.settings == Saved(Stored, Forged)
    ensures table.settings.config.shareDir == "/tmp/" != Stored.config.shareDir
  {
    table := new OptionTable(Stored);
    table.UpdateSettings(false, Forged);
    assert Saved(Stored, Forged).config.shareDir == WithSlash("/tmp");
    assert RTrim("/tmp", '/') == "/tmp";
  }

  /** The heeded check leaves the settings alone on the same forged submission. */
  method ForgedSubmissionRefused() returns (table: OptionTable)
    ensures table.settings == Stored
  {
    table := new OptionTable(Stored);
    table.UpdateSettingsChecked(false, Forged);
  }

  // ---------------------------------------------------- local file delete

  /** The message the local delete prints. */
  datatype DeleteOutcome = SecurityCheckFailed | InvalidFilename | FileNotFound | FileDeleted | DeleteFailed

  /** The guard `basename($file_name) == $file_name` accepts exactly the names without a slash. */
  lemma DeleteGuard(fileName: string)
    ensures Basename(fileName) == fileName <==> !Contains(fileName, '/')
  {
    BasenameFixed(fileName);
  }

  /**
    * The delete branch of `icc_upload_and_shorten_do_page` for the posted
    * `file_name`. A name the guard accepts that is not a plain entry name
    * (``, `.` or `..`) points at the share directory or its parent: it
    * exists when the share directory is a directory, and `unlink` refuses
    * it.
    */
  method DeleteLocalFile(fs: FileSystem, nonceOk: bool, shareDir: string, fileName: string) returns (outcome: DeleteOutcome)
    requires fs.Valid() && IsPlainPath(Components(shareDir))
    modifies fs
    ensures fs.Valid()
    ensures var p := Components(shareDir) + [fileName];
            && (!nonceOk ==> outcome == SecurityCheckFailed)
            && (nonceOk && Contains(fileName, '/') ==> outcome == InvalidFilename)
            && (nonceOk && !Contains(fileName, '/') && !IsPlainName(fileName) ==>
                  outcome == if IsDir(old(fs.nodes), Components(shareDir)) then DeleteFailed else FileNotFound)
            && (nonceOk && IsPlainName(fileName) ==>
                  outcome == if p !in old(fs.nodes) then FileNotFound
                             else if old(fs.nodes)[p].Dir? then DeleteFailed
                             else FileDeleted)
            && fs.nodes == if outcome == FileDeleted then old(fs.nodes) - {p} else old(fs.nodes)
  {
    if !nonceOk {
      return SecurityCheckFailed;
    }
    DeleteGuard(fileName);
    if Basename(fileName) != fileName {
      return InvalidFilename;
    }
    var dir := Components(shareDir);
    if !IsPlainName(fileName) {
      if IsDir(fs.nodes, dir) {
        return DeleteFailed;
      }
      return FileNotFound;
    }
    ChildOf(shareDir, fileName);
    var filePath := Components(RTrim(shareDir, '/') + "/" + fileName);
    if Exists(fs.nodes, filePath) {
      var ok := fs.Unlink(filePath);
      if ok {
        outcome := FileDeleted;
      } else {
        outcome := DeleteFailed;
      }
    } else {
      outcome := FileNotFound;
    }
  }

  // ------------------------------------------------------- S3 file delete

  /** The arguments given to `deleteObject`. */
  datatype DeleteArgs = DeleteArgs(bucket: string, key: string)

  /** The message of the S3 delete branch and the `deleteObject` request it makes, if any. */
  datatype S3Delete = S3Delete(message: string, request: Option<DeleteArgs>)

  /**
    * The S3 delete branch of `icc_upload_and_shorten_do_page` for the
    * posted `file_key`: `clientOk` is whether `icc_get_aws_client` returns
    * a client, `failure` the message of an `S3Exception` from `deleteObject`.
    */
  function DeleteS3File(nonceOk: bool, cfg: Config, clientOk: bool, failure: Option<string>, fileKey: string): (r: S3Delete)
    ensures r.request.Some? <==> nonceOk && clientOk
    ensures r.request.Some? ==> r.request.value == DeleteArgs(cfg.s3Bucket, fileKey)
    ensures !nonceOk ==> r.message == "Security check failed (Invalid Nonce)."
  {
    if !nonceOk then S3Delete("Security check failed (Invalid Nonce).", None)
    else if !clientOk then S3Delete("Failed to initialize S3 client for deletion.", None)
    else
      var request := Some(DeleteArgs(cfg.s3Bucket, fileKey));
      if failure.Some? then S3Delete("Failed to delete file: " + failure.value, request)
      else S3Delete("File deleted successfully: " + fileKey, request)
  }

  // ------------------------------------------------------------ pagination

  /** Files per page of the local file manager. */
  const PerPage := 20

  /** `ceil($total_files / $per_page)`. */
  function TotalPages(total: nat): (n: nat)
    ensures (n - 1) * PerPage < total <= n * PerPage || (total == 0 && n == 0)
  {
    (total + PerPage - 1) / PerPage
  }

  /** `isset($_GET['local_page']) ? max(1, intval($_GET['local_page'])) : 1`. */
  function CurrentPage(param: Option<string>): (page: int)
    ensures page >= 1
    ensures param.None? ==> page == 1
    ensures param.Some? && IntVal(param.value) >= 1 ==> page == IntVal(param.value)
    ensures param.Some? && IntVal(param.value) < 1 ==> page == 1
  {
    if param.None? then 1
    else
      var v := IntVal(param.value);
      if v > 1 then v else 1
  }

  /** `($current_page - 1) * $per_page`. */
  function Offset(page: int): int {
    (page - 1) * PerPage
  }

  /** `array_slice($files, $offset, $per_page)` for the page `page`. */
  function PageOf<T>(files: seq<T>, page: nat): seq<T>
    requires page >= 1
  {
    var offset := Offset(page);
    if offset >= |files| then []
    else if offset + PerPage <= |files| then files[offset..offset + PerPage]
    else files[offset..]
  }

  /**
    * A page holds the next (at most) twenty files from its offset, in
    * order: as many as there are left, and none past the end.
    */
  lemma PageShape<T>(files: seq<T>, page: nat)
    requires page >= 1
    ensures var r := PageOf(files, page);
            && |r| == (if Offset(page) >= |files| then 0
                       else if |files| - Offset(page) < PerPage then |files| - Offset(page)
                       else PerPage)
            && forall i | 0 <= i < |r| :: r[i] == files[Offset(page) + i]
  {
  }

  /** A page is shown with entries exactly when its number is at most the page count. */
  lemma PageNonEmpty<T>(files: seq<T>, page: nat)
    requires page >= 1
    ensures PageOf(files, page) != [] <==> page <= TotalPages(|files|)
  {
  }

  /** The pages `from` to `from + k - 1`, one after the other. */
  function Pages<T>(files: seq<T>, from: nat, k: nat): seq<T>
    requires from >= 1
    decreases k
  {
    if k == 0 then [] else PageOf(files, from) + Pages(files, from + 1, k - 1)
  }

  /** From page `from` on, the pages list the files from that page's offset, each once, in order. */
  lemma {:induction false} PagesFrom<T>(files: seq<T>, from: nat, k: nat)
    requires from >= 1 && Offset(from) <= |files| && |files| <= Offset(from + k)
    ensures Pages(files, from, k) == files[Offset(from)..]
    decreases k
  {
    var offset := Offset(from);
    if k == 0 {
      assert offset == |files|;
    } else {
      var page := PageOf(files, from);
      var later := Pages(files, from + 1, k - 1);
      assert Pages(files, from, k) == page + later;
      if offset + PerPage <= |files| {
        assert Offset(from + 1) == offset + PerPage;
        PagesFrom(files, from + 1, k - 1);
        assert page == files[offset..offset + PerPage];
        SliceSplit(files, offset, offset + PerPage);
      } else {
        PagesPast(files, from + 1, k - 1);
        assert page == files[offset..];
        assert page + later == page;
      }
    }
  }

  /** A suffix of a sequence is its next slice followed by the rest. */
  lemma SliceSplit<T>(s: seq<T>, i: nat, j: nat)
    requires i <= j <= |s|
    ensures s[i..] == s[i..j] + s[j..]
  {
    assert forall k | 0 <= k < |s| - i :: s[i..][k] == (s[i..j] + s[j..])[k];
  }

  /** Pages past the last are empty. */
  lemma {:induction false} PagesPast<T>(files: seq<T>, from: nat, k: nat)
    requires from >= 1 && Offset(from) >= |files|
    ensures Pages(files, from, k) == []
    decreases k
  {
    if k > 0 {
      PagesPast(files, from + 1, k - 1);
    }
  }

  /** Reading the pages 1 to the page count in turn shows every file exactly once, in the sorted order. */
  lemma PagesCoverAll<T>(files: seq<T>)
    ensures Pages(files, 1, TotalPages(|files|)) == files
  {
    PagesFrom(files, 1, TotalPages(|files|));
  }

  // ----------------------------------------------------------- S3 history

  /** The sentinel pushed onto the history for the first page. */
  const Top := "__TOP__"

  /** The query parameters `s3_next_token` and `s3_history` of an S3 file-manager page, `None` when absent. */
  datatype PageLink = PageLink(token: Option<string>, history: Option<string>)

  /** A parameter PHP reads as true: present, and neither `` nor `0`. */
  predicate Truthy(v: Option<string>) {
    v.Some? && !Falsy(v.value)
  }

  /** The page a link shows: a parameter PHP reads as false is as good as absent. */
  function Effective(l: PageLink): PageLink {
    PageLink(if Truthy(l.token) then l.token else None, if Truthy(l.history) then l.history else None)
  }

  /** `$history_raw ? explode(',', $history_raw) : []`. */
  function History(l: PageLink): seq<string> {
    if Truthy(l.history) then Explode(l.history.value, ',') else []
  }

  /** The "Next" link, when S3 returns `next` as the `NextContinuationToken`. */
  function NextLink(l: PageLink, next: string): PageLink {
    var add := if Truthy(l.token) then l.token.value else Top;
    var current := if Truthy(l.history) then l.history.value + "," + add else add;
    PageLink(Some(next), Some(current))
  }

  /** The "Previous" link: the history popped, or none when the history is empty. */
  function PreviousLink(l: PageLink): Option<PageLink> {
    var h := History(l);
    if h == [] then None
    else
      var prev := h[|h| - 1];
      var rest := Implode(h[..|h| - 1], ',');
      Some(PageLink(if prev != Top then Param(prev) else None, Param(rest)))
  }

  /** A link parameter written only when PHP reads its value as true. */
  function Param(v: string): Option<string> {
    if Falsy(v) then None else Some(v)
  }

  /** The "First" link, shown on every page but the first. */
  function FirstLink(l: PageLink): (r: Option<PageLink>)
    ensures r.Some? <==> Effective(l).token.Some?
  {
    if Truthy(l.token) then Some(PageLink(None, None)) else None
  }

  /** A continuation token the history can carry: no comma, and not the first-page sentinel. */
  predicate Carried(token: Option<string>) {
    token.Some? ==> !Contains(token.value, ',') && token.value != Top
  }

  /** Following "Next" and then "Previous" comes back to the page one started from. */
  lemma NextThenPrevious(l: PageLink, next: string)
    requires Carried(l.token)
    ensures PreviousLink(NextLink(l, next)) == Some(Effective(l))
  {
    var add := if Truthy(l.token) then l.token.value else Top;
    assert !Contains(add, ',') by {
      assert forall i | 0 <= i < |Top| :: Top[i] != ',';
    }
    assert (if add != Top then Param(add) else None) == Effective(l).token;
    if Truthy(l.history) {
      PushedOnHistory(l.history.value, add, next);
      assert Param(l.history.value) == Effective(l).history;
    } else {
      PushedOnEmpty(add, next);
    }
  }

  /** Pushing a page onto a non-empty history and popping it again gives the page and the history back. */
  lemma PushedOnHistory(raw: string, add: string, next: string)
    requires !Falsy(raw) && !Contains(add, ',')
    ensures var pushed := PageLink(Some(next), Some(raw + "," + add));
            PreviousLink(pushed) == Some(PageLink(if add != Top then Param(add) else None, Param(raw)))
  {
    var pushed := PageLink(Some(next), Some(raw + "," + add));
    assert !Falsy(raw + "," + add);
    ExplodeAppend(raw, ',', add);
    assert raw + "," + add == raw + [','] + add;
    var h := Explode(raw, ',') + [add];
    assert History(pushed) == h;
    assert h[|h| - 1] == add;
    assert h[..|h| - 1] == Explode(raw, ',');
    ImplodeExplode(raw, ',');
  }

  /** Pushing a page onto an empty history and popping it again gives the page and no history. */
  lemma PushedOnEmpty(add: string, next: string)
    requires !Contains(add, ',') && !Falsy(add)
    ensures PreviousLink(PageLink(Some(next), Some(add))) == Some(PageLink(if add != Top then Param(add) else None, None))
  {
    ExplodeSingle(add, ',');
    assert History(PageLink(Some(next), Some(add))) == [add];
    assert Implode([add][..0], ',') == "";
  }

  /** Following "Next" `k` times along `nexts` and then "Previous" `k` times comes back to the start. */
  function Forward(l: PageLink, nexts: seq<string>): PageLink
    decreases |nexts|
  {
    if nexts == [] then l else Forward(NextLink(l, nexts[0]), nexts[1..])
  }

  function Back(l: PageLink, k: nat): Option<PageLink>
    decreases k
  {
    if k == 0 then Some(l)
    else
      var p := PreviousLink(l);
      if p.None? then None else Back(p.value, k - 1)
  }

  /** Tokens S3 can hand out as `NextContinuationToken` and the history can carry. */
  predicate CarriedAll(nexts: seq<string>) {
    forall i | 0 <= i < |nexts| :: nexts[i] != "" && nexts[i] != "0" && Carried(Some(nexts[i]))
  }

  /** The history is a stack: `k` steps forward and `k` steps back return to the page one started from. */
  lemma {:induction false} ForwardBack(l: PageLink, nexts: seq<string>)
    requires Carried(l.token) && CarriedAll(nexts) && nexts != []
    ensures Back(Forward(l, nexts), |nexts|) == Some(Effective(l))
    decreases |nexts|
  {
    var n := NextLink(l, nexts[0]);
    if |nexts| > 1 {
      NextIsEffective(l, nexts[0]);
      ForwardBack(n, nexts[1..]);
    }
    ForwardBackStep(n, nexts);
    NextThenPrevious(l, nexts[0]);
  }

  /** A "Next" link for a token S3 hands out carries parameters PHP reads as true. */
  lemma NextIsEffective(l: PageLink, next: string)
    requires !Falsy(next)
    ensures Effective(NextLink(l, next)) == NextLink(l, next)
  {
    var add := if Truthy(l.token) then l.token.value else Top;
    assert !Falsy(add);
    if Truthy(l.history) {
      assert |l.history.value + "," + add| >= 2;
    }
  }

  /** Going back over one more "Next" step first reaches the page that step came from. */
  lemma {:induction false} ForwardBackStep(n: PageLink, nexts: seq<string>)
    requires nexts != []
    requires |nexts| > 1 ==> Back(Forward(n, nexts[1..]), |nexts| - 1) == Some(n)
    ensures Back(Forward(n, nexts[1..]), |nexts|) == PreviousLink(n)
  {
    var rest := nexts[1..];
    var last := Forward(n, rest);
    if rest == [] {
      assert last == n;
      BackAppend(n, 0, n);
    } else {
      BackAppend(last, |rest|, n);
    }
  }

  /** Going back `k` steps to `mid`, then one more, is going back `k + 1` steps. */
  lemma {:induction false} BackAppend(l: PageLink, k: nat, mid: PageLink)
    requires Back(l, k) == Some(mid)
    ensures Back(l, k + 1) == PreviousLink(mid)
    decreases k
  {
    if k > 0 {
      var p := PreviousLink(l);
      BackAppend(p.value, k - 1, mid);
    }
  }
}

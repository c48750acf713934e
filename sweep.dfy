/**
  * Removal of abandoned scratch directories: `icc_rrmdir`, the automatic
  * sweep `icc_upload_and_shorten_cleanup_temp` and the manual-cleanup
  * branch of the admin page. A scratch directory is swept once its
  * modification time is more than 24 hours in the past.
  */
module Sweep {
  import opened Text
  import opened Paths
  import opened Files
  import opened TempSpace

  /** 24 hours, in seconds. */
  const MaxAge := 86400

  // ------------------------------------------------------------- listings

  /** The entries strictly below `dir` that lie under one of its entries named in `names`. */
  ghost function Under(nodes: Nodes, dir: Path, names: set<string>): set<Path> {
    set q | q in nodes && |q| > |dir| && q[..|dir|] == dir && q[|dir|] in names
  }

  /** What lies under the entry `n` of `dir` is the subtree of `dir + [n]`. */
  lemma UnderOne(nodes: Nodes, dir: Path, n: string)
    ensures Under(nodes, dir, {n}) == Subtree(nodes, dir + [n])
  {
    forall q | q in Subtree(nodes, dir + [n]) ensures q in Under(nodes, dir, {n}) {
      assert q[..|dir|] == dir && q[|dir|] == n;
    }
    forall q | q in Under(nodes, dir, {n}) ensures q in Subtree(nodes, dir + [n]) {
      assert q[..|dir| + 1] == dir + [n];
    }
  }

  /** Under all the entries of `dir` lies everything below it. */
  lemma {:induction false} UnderAll(nodes: Nodes, dir: Path)
    requires WellFormed(nodes)
    ensures Under(nodes, dir, Children(nodes, dir)) == Subtree(nodes, dir) - {dir}
  {
    forall q | q in Subtree(nodes, dir) - {dir} ensures q in Under(nodes, dir, Children(nodes, dir)) {
      BelowHasChild(nodes, dir, q);
    }
  }

  /** Removing what lies under some entries leaves what lies under another entry as it was. */
  lemma {:induction false} UnderElsewhere(nodes: Nodes, dir: Path, done: set<string>, n: string)
    requires n !in done
    ensures Subtree(nodes - Under(nodes, dir, done), dir + [n]) == Subtree(nodes, dir + [n])
    ensures Under(nodes - Under(nodes, dir, done), dir, {n}) == Under(nodes, dir, {n})
  {
    forall q | q in Subtree(nodes, dir + [n]) ensures q !in Under(nodes, dir, done) {
      assert q[..|dir| + 1] == dir + [n];
      assert q[|dir|] == n;
    }
    UnderOne(nodes, dir, n);
    UnderOne(nodes - Under(nodes, dir, done), dir, n);
  }

  /** Under no entry lies nothing. */
  lemma UnderNone(nodes: Nodes, dir: Path)
    ensures nodes - Under(nodes, dir, {}) == nodes
  {
    assert Under(nodes, dir, {}) == {};
  }

  /** Removing under `done`, then under `n`, is removing under `done + {n}`. */
  lemma UnderMore(nodes: Nodes, dir: Path, done: set<string>, n: string)
    ensures nodes - Under(nodes, dir, done) - Under(nodes, dir, {n}) == nodes - Under(nodes, dir, done + {n})
  {
  }

  /**
    * PHP `scandir`: every entry of `d` exactly once, together with `.` and
    * `..`. PHP sorts the names; the order is left open here.
    */
  method ScanDir(fs: FileSystem, d: Path) returns (listing: seq<string>)
    requires fs.Valid()
    ensures Listing(fs.nodes, d, listing)
  {
    var rest := Children(fs.nodes, d);
    listing := [".", ".."];
    forall n | n in rest ensures IsPlainName(n) {
      assert (d + [n])[|d|] == n;
    }
    while rest != {}
      invariant forall n | n in rest :: IsPlainName(n)
      invariant forall n :: n in listing || n in rest <==> n == "." || n == ".." || n in Children(fs.nodes, d)
      invariant forall n | n in rest :: n !in listing
      invariant Distinct(listing)
      decreases rest
    {
      var n :| n in rest;
      listing := listing + [n];
      rest := rest - {n};
    }
  }

  ghost predicate Distinct(s: seq<string>) {
    forall i, j | 0 <= i < j < |s| :: s[i] != s[j]
  }

  /** `listing` is a `scandir` result for `d`. */
  ghost predicate Listing(nodes: Nodes, d: Path, listing: seq<string>) {
    && Distinct(listing)
    && forall n :: n in listing <==> n == "." || n == ".." || n in Children(nodes, d)
  }

  /** The entries of `listing[..i]` other than `.` and `..`. */
  ghost function Seen(listing: seq<string>, i: nat): set<string>
    requires i <= |listing|
  {
    set k | 0 <= k < i && listing[k] != "." && listing[k] != ".." :: listing[k]
  }

  lemma SeenStep(listing: seq<string>, i: nat)
    requires i < |listing|
    ensures Seen(listing, i + 1) == Seen(listing, i) + (if listing[i] == "." || listing[i] == ".." then {} else {listing[i]})
  {
  }

  lemma SeenNotYet(listing: seq<string>, i: nat)
    requires i < |listing| && Distinct(listing)
    ensures listing[i] !in Seen(listing, i)
  {
  }

  lemma SeenAll(nodes: Nodes, d: Path, listing: seq<string>)
    requires WellFormed(nodes) && Listing(nodes, d, listing)
    ensures Seen(listing, |listing|) == Children(nodes, d)
  {
    forall n | n in Children(nodes, d) ensures n in Seen(listing, |listing|) {
      assert (d + [n])[|d|] == n;
      assert IsPlainName(n);
      var k :| 0 <= k < |listing| && listing[k] == n;
    }
  }

  // -------------------------------------------------------------- rrmdir

  /**
    * `icc_rrmdir`: a real directory goes with everything below it; links
    * are unlinked, never descended into. Anything else, a link to a
    * directory included (`rmdir` refuses it), is left alone.
    */
  method Rrmdir(fs: FileSystem, p: Path)
    requires fs.Valid() && p != []
    modifies fs
    ensures fs.Valid()
    ensures fs.nodes == if IsRealDir(old(fs.nodes), p) then old(fs.nodes) - Subtree(old(fs.nodes), p) else old(fs.nodes)
    decreases Subtree(fs.nodes, p), 0
  {
    if !IsDir(fs.nodes, p) {
      return;
    }
    ghost var before := fs.nodes;
    var entries := ScanDir(fs, p);
    var i := 0;
    while i < |entries|
      invariant 0 <= i <= |entries| && fs.Valid()
      invariant fs.nodes == before - Under(before, p, Seen(entries, i))
    {
      var entry := entries[i];
      if entry != "." && entry != ".." {
        RrmdirNext(before, fs.nodes, p, entries, i);
        RemoveEntry(fs, p + [entry]);
      } else {
        SeenStep(entries, i);
      }
      i := i + 1;
    }
    RrmdirEmptied(before, p, entries);
    var _ := fs.RemoveDir(p);
  }

  /**
    * The body of the `foreach` of `icc_rrmdir` for the entry `q`: a real
    * directory is descended into, anything else unlinked; either way `q`
    * goes with everything below it.
    */
  method RemoveEntry(fs: FileSystem, q: Path)
    requires fs.Valid() && q in fs.nodes
    modifies fs
    ensures fs.Valid()
    ensures fs.nodes == old(fs.nodes) - Subtree(old(fs.nodes), q)
    decreases Subtree(fs.nodes, q), 1
  {
    if IsDir(fs.nodes, q) && !IsLink(fs.nodes, q) {
      Rrmdir(fs, q);
    } else {
      LeafSubtree(fs.nodes, q);
      var _ := fs.Unlink(q);
    }
  }

  /** A non-directory is its own subtree. */
  lemma {:induction false} LeafSubtree(nodes: Nodes, q: Path)
    requires WellFormed(nodes) && q in nodes && !nodes[q].Dir?
    ensures Subtree(nodes, q) == {q}
  {
    forall r | r in Subtree(nodes, q) ensures r == q {
      if r != q {
        NothingBelowNonDir(nodes, q, r);
      }
    }
  }

  /**
    * One entry of the `foreach` of `icc_rrmdir`: descending into a real
    * directory, or unlinking anything else, removes exactly what lies under
    * that entry. Descending works on a strictly smaller subtree.
    */
  lemma {:induction false} RrmdirStep(before: Nodes, cur: Nodes, p: Path, seen: set<string>, n: string)
    requires WellFormed(before) && p in before && n in Children(before, p) && n !in seen
    requires cur == before - Under(before, p, seen)
    ensures p + [n] in cur
    ensures cur - Subtree(cur, p + [n]) == before - Under(before, p, seen + {n})
    ensures Subtree(cur, p + [n]) < Subtree(before, p)
  {
    UnderElsewhere(before, p, seen, n);
    UnderOne(before, p, n);
    UnderMore(before, p, seen, n);
    RrmdirChild(before, cur, p, n);
  }

  /** The entry `i` of the listing, a name, in the `foreach` of `icc_rrmdir`. */
  lemma {:induction false} RrmdirNext(before: Nodes, cur: Nodes, p: Path, entries: seq<string>, i: nat)
    requires WellFormed(before) && p in before && Listing(before, p, entries) && i < |entries|
    requires entries[i] != "." && entries[i] != ".."
    requires cur == before - Under(before, p, Seen(entries, i))
    ensures p + [entries[i]] in cur
    ensures cur - Subtree(cur, p + [entries[i]]) == before - Under(before, p, Seen(entries, i + 1))
    ensures Subtree(cur, p + [entries[i]]) < Subtree(before, p)
  {
    SeenStep(entries, i);
    SeenNotYet(entries, i);
    EntryName(before, p, entries, i);
    RrmdirStep(before, cur, p, Seen(entries, i), entries[i]);
  }

  /** Once the `foreach` has been through the whole listing, `p` is empty and only `p` itself is left to remove. */
  lemma {:induction false} RrmdirEmptied(before: Nodes, p: Path, entries: seq<string>)
    requires WellFormed(before) && p in before && Listing(before, p, entries)
    ensures var cur := before - Under(before, p, Seen(entries, |entries|));
            && p in cur && cur[p] == before[p]
            && Children(cur, p) == {}
            && cur - {p} == before - Subtree(before, p)
  {
    var cur := before - Under(before, p, Seen(entries, |entries|));
    SeenAll(before, p, entries);
    UnderAll(before, p);
    forall n ensures p + [n] !in cur {
      if p + [n] in before {
        assert p + [n] in Under(before, p, Children(before, p));
      }
    }
    assert p in Subtree(before, p);
  }

  /** Recursing into an entry works on a strictly smaller subtree. */
  lemma {:induction false} RrmdirChild(before: Nodes, now: Nodes, p: Path, n: string)
    requires p in before && now.Keys <= before.Keys
    ensures Subtree(now, p + [n]) < Subtree(before, p)
  {
    forall q | q in Subtree(now, p + [n]) ensures q in Subtree(before, p) {
      assert q[..|p|] == p;
    }
    assert p !in Subtree(now, p + [n]);
  }

  // ---------------------------------------------------------------- sweeps

  /**
    * The entries of the scratch root a sweep removes: real directories
    * named `icc_temp_…` whose modification time is more than 24 hours
    * before `now`.
    */
  ghost function Expired(nodes: Nodes, root: Path, now: int): set<string> {
    set n | n in Children(nodes, root) && HasPrefix(n, "icc_temp_") && nodes[root + [n]].Dir?
                                       && nodes[root + [n]].mtime < now - MaxAge
  }

  /** The tests both sweeps make on an entry: `is_dir`, the `icc_temp_` prefix, and then the age. */
  predicate IsScratchEntry(nodes: Nodes, root: Path, n: string) {
    IsDir(nodes, root + [n]) && HasPrefix(n, "icc_temp_")
  }

  /** An entry is expired when it passes the tests the sweeps make and `icc_rrmdir` can remove it. */
  lemma ExpiredIff(nodes: Nodes, root: Path, n: string, now: int)
    ensures n in Expired(nodes, root, now) <==>
              IsScratchEntry(nodes, root, n) && DirMtime(nodes, root + [n]) < now - MaxAge && IsRealDir(nodes, root + [n])
  {
  }

  /** A listed entry other than `.` and `..` is a plain name of the directory. */
  lemma EntryName(nodes: Nodes, d: Path, listing: seq<string>, i: nat)
    requires WellFormed(nodes) && Listing(nodes, d, listing) && i < |listing|
    requires listing[i] != "." && listing[i] != ".."
    ensures listing[i] in Children(nodes, d) && IsPlainName(listing[i])
  {
    assert listing[i] in listing;
    assert (d + [listing[i]])[|d|] == listing[i];
  }

  /** One entry of a sweep, in the tree the sweep has reached: an expired entry goes with everything below it. */
  ghost function SweepOne(nodes: Nodes, root: Path, n: string, now: int): Nodes {
    if n in Expired(nodes, root, now) then nodes - Subtree(nodes, root + [n]) else nodes
  }

  /** A sweep along a `scandir` listing of the scratch root, in the listing's order, skipping `.` and `..`. */
  ghost function SweepAlong(nodes: Nodes, root: Path, listing: seq<string>, now: int): Nodes
    decreases |listing|
  {
    if listing == [] then nodes
    else
      var reached := SweepAlong(nodes, root, listing[..|listing| - 1], now);
      var n := listing[|listing| - 1];
      if n == "." || n == ".." then reached else SweepOne(reached, root, n, now)
  }

  /** The sweep along one more entry of the listing. */
  lemma SweepAlongNext(nodes: Nodes, root: Path, listing: seq<string>, i: nat, now: int)
    requires i < |listing|
    ensures SweepAlong(nodes, root, listing[..i + 1], now)
              == var reached := SweepAlong(nodes, root, listing[..i], now);
                 if listing[i] == "." || listing[i] == ".." then reached else SweepOne(reached, root, listing[i], now)
  {
    assert listing[..i + 1][..i] == listing[..i];
  }

  /**
    * Sweeping an entry not swept before: it is found as it was, and it
    * goes, with what lies under it, exactly when it was expired in the
    * tree the sweep started from.
    */
  lemma {:induction false} SweepStep(before: Nodes, root: Path, seen: set<string>, n: string, now: int)
    requires WellFormed(before) && n in Children(before, root) && n !in seen
    ensures var e := Expired(before, root, now);
            var cur := before - Under(before, root, seen * e);
            && root + [n] in cur && cur[root + [n]] == before[root + [n]]
            && SweepOne(cur, root, n, now) == before - Under(before, root, (seen + {n}) * e)
  {
    var e := Expired(before, root, now);
    var cur := before - Under(before, root, seen * e);
    UnderElsewhere(before, root, seen * e, n);
    UnderOne(before, root, n);
    assert root + [n] in Subtree(before, root + [n]);
    ExpiredIff(before, root, n, now);
    ExpiredIff(cur, root, n, now);
    if n in e {
      UnderMore(before, root, seen * e, n);
      assert (seen + {n}) * e == seen * e + {n};
    } else {
      assert (seen + {n}) * e == seen * e;
    }
  }

  /** After `k` entries of the listing, the sweep has removed what lies under the expired ones among them. */
  lemma {:induction false} SweepAlongPrefix(before: Nodes, root: Path, listing: seq<string>, k: nat, now: int)
    requires WellFormed(before) && Listing(before, root, listing) && k <= |listing|
    ensures SweepAlong(before, root, listing[..k], now)
              == before - Under(before, root, Seen(listing, k) * Expired(before, root, now))
  {
    if k == 0 {
      assert listing[..0] == [];
      assert Seen(listing, 0) * Expired(before, root, now) == {};
      UnderNone(before, root);
    } else {
      SweepAlongPrefix(before, root, listing, k - 1, now);
      SweepAlongNext(before, root, listing, k - 1, now);
      SeenStep(listing, k - 1);
      var n := listing[k - 1];
      if n != "." && n != ".." {
        EntryName(before, root, listing, k - 1);
        SeenNotYet(listing, k - 1);
        SweepStep(before, root, Seen(listing, k - 1), n, now);
      }
    }
  }

  /** A sweep along the whole listing removes every expired entry, with all it holds, and nothing else. */
  lemma SweepAlongAll(before: Nodes, root: Path, listing: seq<string>, now: int)
    requires WellFormed(before) && Listing(before, root, listing)
    ensures SweepAlong(before, root, listing, now) == before - Under(before, root, Expired(before, root, now))
  {
    SweepAlongPrefix(before, root, listing, |listing|, now);
    assert listing[..|listing|] == listing;
    SeenAll(before, root, listing);
  }

  /** Only a directory has entries: there is nothing to sweep in a scratch root that is not one. */
  lemma {:induction false} EntriesOnlyInDir(nodes: Nodes, root: Path, now: int)
    requires WellFormed(nodes)
    ensures IsDir(nodes, root) || Expired(nodes, root, now) == {}
  {
    forall n | n in Children(nodes, root) ensures IsRealDir(nodes, root) {
      if root != [] {
        WellFormedPrefix(nodes, root + [n], |root|);
        assert (root + [n])[..|root|] == root;
      }
    }
  }

  /** One entry of the `foreach` of `icc_upload_and_shorten_cleanup_temp`, past the `.`/`..` skip. */
  method CleanEntry(fs: FileSystem, tempDir: string, file: string, now: int)
    requires fs.Valid() && IsPlainName(file)
    modifies fs
    ensures fs.Valid()
    ensures fs.nodes == SweepOne(old(fs.nodes), Components(tempDir), file, now)
  {
    var root := Components(tempDir);
    ChildOf(tempDir, file);
    ExpiredIff(fs.nodes, root, file, now);
    var path := Components(RTrim(tempDir, '/') + "/" + file);
    if IsDir(fs.nodes, path) && HasPrefix(file, "icc_temp_") {
      if DirMtime(fs.nodes, path) < now - MaxAge {
        Rrmdir(fs, path);
      }
    }
  }

  /**
    * `icc_upload_and_shorten_cleanup_temp`: every expired scratch
    * directory of the scratch root goes, with all it holds; nothing else
    * changes. A scratch root that is not a directory is left alone.
    */
  method CleanupTemp(fs: FileSystem, shareDir: string, sysTemp: string, now: int)
    requires fs.Valid()
    modifies fs
    ensures fs.Valid()
    ensures var root := Components(ScratchRoot(shareDir, sysTemp));
            && (!IsDir(old(fs.nodes), root) ==> fs.nodes == old(fs.nodes))
            && fs.nodes == old(fs.nodes) - Under(old(fs.nodes), root, Expired(old(fs.nodes), root, now))
  {
    var tempDir := shareDir;
    if Falsy(tempDir) {
      tempDir := sysTemp;
    }
    var root := Components(tempDir);
    if !IsDir(fs.nodes, root) {
      EntriesOnlyInDir(fs.nodes, root, now);
      UnderNone(fs.nodes, root);
      return;
    }
    var files := ScanDir(fs, root);
    var i := 0;
    while i < |files|
      invariant 0 <= i <= |files| && fs.Valid()
      invariant fs.nodes == SweepAlong(old(fs.nodes), root, files[..i], now)
    {
      var file := files[i];
      SweepAlongNext(old(fs.nodes), root, files, i, now);
      if file != "." && file != ".." {
        EntryName(old(fs.nodes), root, files, i);
        CleanEntry(fs, tempDir, file, now);
      }
      i := i + 1;
    }
    assert files[..|files|] == files;
    SweepAlongAll(old(fs.nodes), root, files, now);
  }

  // --------------------------------------------------------- manual sweep

  /** The verdict the diagnostics print for one scratch directory. */
  datatype Status = Kept | Deleted | DeleteFailed

  /** One "Found:" block of the diagnostics: the entry, its age in seconds and the verdict. */
  datatype Found = Found(name: string, age: int, status: Status)

  /** What the manual-cleanup branch reports. `found == []` is the "No temporary 'icc_temp_' folders found." case. */
  datatype Diagnostics =
    | SecurityCheckFailed
    | Missing(target: string)
    | NotWritable(target: string)
    | Scanned(target: string, found: seq<Found>)

  /** The verdict for the scratch entry `n` of `root`: an entry more than 24 hours old is deleted unless it is a link. */
  ghost function Verdict(nodes: Nodes, root: Path, n: string, now: int): Status
    requires IsScratchEntry(nodes, root, n)
  {
    if now - DirMtime(nodes, root + [n]) <= MaxAge then Kept
    else if nodes[root + [n]].Dir? then Deleted
    else DeleteFailed
  }

  /** The scratch entries of `root`: the ones the diagnostics report on. */
  ghost function ScratchEntries(nodes: Nodes, root: Path): set<string> {
    set n | n in Children(nodes, root) && IsScratchEntry(nodes, root, n)
  }

  ghost function FoundNames(found: seq<Found>): set<string> {
    set k | 0 <= k < |found| :: found[k].name
  }

  /** `found` reports, once each, on the scratch entries of `root` among `names`, as they stood in `nodes`. */
  ghost predicate Reports(nodes: Nodes, root: Path, now: int, names: set<string>, found: seq<Found>) {
    && (forall a, b | 0 <= a < b < |found| :: found[a].name != found[b].name)
    && FoundNames(found) == names * ScratchEntries(nodes, root)
    && forall k | 0 <= k < |found| ::
         && IsScratchEntry(nodes, root, found[k].name)
         && found[k].age == now - DirMtime(nodes, root + [found[k].name])
         && found[k].status == Verdict(nodes, root, found[k].name, now)
  }

  /** The "Found:" block printed for the entry `n`, if it is a scratch entry. */
  ghost function Report(nodes: Nodes, root: Path, n: string, now: int): seq<Found> {
    if IsScratchEntry(nodes, root, n)
    then [Found(n, now - DirMtime(nodes, root + [n]), Verdict(nodes, root, n, now))]
    else []
  }

  /** The blocks printed along a listing, each entry inspected in the tree the sweep has reached. */
  ghost function ReportAlong(nodes: Nodes, root: Path, listing: seq<string>, now: int): seq<Found>
    decreases |listing|
  {
    if listing == [] then []
    else
      var prefix := listing[..|listing| - 1];
      var n := listing[|listing| - 1];
      if n == "." || n == ".." then ReportAlong(nodes, root, prefix, now)
      else ReportAlong(nodes, root, prefix, now) + Report(SweepAlong(nodes, root, prefix, now), root, n, now)
  }

  /** The blocks printed along one more entry of the listing. */
  lemma ReportAlongNext(nodes: Nodes, root: Path, listing: seq<string>, i: nat, now: int)
    requires i < |listing|
    ensures ReportAlong(nodes, root, listing[..i + 1], now)
              == var printed := ReportAlong(nodes, root, listing[..i], now);
                 if listing[i] == "." || listing[i] == ".." then printed
                 else printed + Report(SweepAlong(nodes, root, listing[..i], now), root, listing[i], now)
  {
    assert listing[..i + 1][..i] == listing[..i];
  }

  /** Reporting on one more entry of the listing. */
  lemma {:induction false} ReportsStep(nodes: Nodes, root: Path, now: int, seen: set<string>, found: seq<Found>, n: string)
    requires Reports(nodes, root, now, seen, found) && n in Children(nodes, root) && n !in seen
    ensures Reports(nodes, root, now, seen + {n}, found + Report(nodes, root, n, now))
  {
    var extra := Report(nodes, root, n, now);
    var all := found + extra;
    assert FoundNames(all) == FoundNames(found) + (if extra == [] then {} else {n}) by {
      forall x ensures x in FoundNames(all) <==> x in FoundNames(found) || (extra != [] && x == n) {
        if x in FoundNames(found) {
          var k :| 0 <= k < |found| && found[k].name == x;
          assert all[k] == found[k];
        }
        if extra != [] && x == n {
          assert all[|found|].name == n;
        }
      }
    }
    forall a, b | 0 <= a < b < |all| ensures all[a].name != all[b].name {
      if b == |found| {
        assert all[a].name in FoundNames(found);
      } else {
        assert all[a] == found[a] && all[b] == found[b];
      }
    }
  }

  /** The sweep has not touched an entry before reaching it: its block reports on it as it was. */
  lemma {:induction false} ReportUntouched(before: Nodes, root: Path, listing: seq<string>, i: nat, now: int)
    requires WellFormed(before) && Listing(before, root, listing) && i < |listing|
    requires listing[i] != "." && listing[i] != ".."
    ensures Report(SweepAlong(before, root, listing[..i], now), root, listing[i], now)
              == Report(before, root, listing[i], now)
  {
    var n := listing[i];
    EntryName(before, root, listing, i);
    SeenNotYet(listing, i);
    SweepAlongPrefix(before, root, listing, i, now);
    SweepStep(before, root, Seen(listing, i), n, now);
  }

  /** Reporting along one more entry of the listing. */
  lemma {:induction false} ReportAlongStep(before: Nodes, root: Path, listing: seq<string>, i: nat, now: int)
    requires WellFormed(before) && Listing(before, root, listing) && i < |listing|
    requires Reports(before, root, now, Seen(listing, i), ReportAlong(before, root, listing[..i], now))
    ensures Reports(before, root, now, Seen(listing, i + 1), ReportAlong(before, root, listing[..i + 1], now))
  {
    if listing[i] != "." && listing[i] != ".." {
      ReportAlongEntry(before, root, listing, i, now);
    } else {
      ReportAlongNext(before, root, listing, i, now);
      SeenStep(listing, i);
      assert ReportAlong(before, root, listing[..i + 1], now) == ReportAlong(before, root, listing[..i], now);
      assert Seen(listing, i + 1) == Seen(listing, i);
    }
  }

  /** Reporting along one more entry of the listing, when that entry is a name. */
  lemma {:induction false} ReportAlongEntry(before: Nodes, root: Path, listing: seq<string>, i: nat, now: int)
    requires WellFormed(before) && Listing(before, root, listing) && i < |listing|
    requires listing[i] != "." && listing[i] != ".."
    requires Reports(before, root, now, Seen(listing, i), ReportAlong(before, root, listing[..i], now))
    ensures Reports(before, root, now, Seen(listing, i + 1), ReportAlong(before, root, listing[..i + 1], now))
  {
    ReportAlongNext(before, root, listing, i, now);
    SeenStep(listing, i);
    var n := listing[i];
    var printed := ReportAlong(before, root, listing[..i], now);
    EntryName(before, root, listing, i);
    SeenNotYet(listing, i);
    ReportUntouched(before, root, listing, i, now);
    assert ReportAlong(before, root, listing[..i + 1], now) == printed + Report(before, root, n, now);
    assert Seen(listing, i + 1) == Seen(listing, i) + {n};
    ReportsStep(before, root, now, Seen(listing, i), printed, n);
  }

  /** After `k` entries of the listing, the blocks printed report on the scratch entries among them, as they were. */
  lemma {:induction false} ReportAlongPrefix(before: Nodes, root: Path, listing: seq<string>, k: nat, now: int)
    requires WellFormed(before) && Listing(before, root, listing) && k <= |listing|
    ensures Reports(before, root, now, Seen(listing, k), ReportAlong(before, root, listing[..k], now))
  {
    if k == 0 {
      assert listing[..0] == [];
      assert Seen(listing, 0) * ScratchEntries(before, root) == {};
    } else {
      ReportAlongPrefix(before, root, listing, k - 1, now);
      ReportAlongStep(before, root, listing, k - 1, now);
    }
  }

  /** Along the whole listing, the blocks printed report once each on every scratch entry of the root, as it was. */
  lemma ReportAlongAll(before: Nodes, root: Path, listing: seq<string>, now: int)
    requires WellFormed(before) && Listing(before, root, listing)
    ensures Reports(before, root, now, Children(before, root), ReportAlong(before, root, listing, now))
  {
    ReportAlongPrefix(before, root, listing, |listing|, now);
    assert listing[..|listing|] == listing;
    SeenAll(before, root, listing);
  }

  /**
    * One "Found:" block of the manual cleanup: the age of the scratch
    * entry, then, past 24 hours, `icc_rrmdir` and a `file_exists` check.
    */
  method Diagnose(fs: FileSystem, root: Path, n: string, now: int) returns (f: Found)
    requires fs.Valid() && IsScratchEntry(fs.nodes, root, n)
    modifies fs
    ensures fs.Valid()
    ensures f == Found(n, now - DirMtime(old(fs.nodes), root + [n]), Verdict(old(fs.nodes), root, n, now))
    ensures fs.nodes == if f.status == Deleted then old(fs.nodes) - Subtree(old(fs.nodes), root + [n]) else old(fs.nodes)
  {
    var path := root + [n];
    var age := now - DirMtime(fs.nodes, path);
    var status;
    if age > MaxAge {
      ghost var before := fs.nodes;
      Rrmdir(fs, path);
      assert path in Subtree(before, path);
      if !Exists(fs.nodes, path) {
        status := Deleted;
      } else {
        status := DeleteFailed;
      }
    } else {
      status := Kept;
    }
    f := Found(n, age, status);
  }

  /**
    * One entry of the manual cleanup's `foreach`, past the `.`/`..` skip:
    * the `icc_temp_` prefix and `is_dir` tests, then `Diagnose`. The
    * result is the "Found:" block printed, if any; the entry goes when it
    * is expired.
    */
  method InspectEntry(fs: FileSystem, tempDir: string, file: string, now: int) returns (extra: seq<Found>)
    requires fs.Valid() && IsPlainName(file)
    modifies fs
    ensures fs.Valid()
    ensures extra == Report(old(fs.nodes), Components(tempDir), file, now)
    ensures fs.nodes == SweepOne(old(fs.nodes), Components(tempDir), file, now)
  {
    var root := Components(tempDir);
    ChildOf(tempDir, file);
    ExpiredIff(fs.nodes, root, file, now);
    extra := [];
    if HasPrefix(file, "icc_temp_") {
      var path := Components(RTrim(tempDir, '/') + "/" + file);
      if IsDir(fs.nodes, path) {
        var f := Diagnose(fs, root, file, now);
        extra := [f];
      }
    }
  }

  /**
    * The manual-cleanup branch of `icc_upload_and_shorten_do_page`. It
    * removes what the automatic sweep removes (`age > 86400` is
    * `filemtime < time() - 86400`) and reports on every scratch entry of
    * the root. `writable` is `is_writable` of the root.
    */
  method ManualCleanup(fs: FileSystem, nonceOk: bool, shareDir: string, sysTemp: string, writable: bool, now: int)
    returns (report: Diagnostics)
    requires fs.Valid()
    modifies fs
    ensures fs.Valid()
    ensures var target := ScratchRoot(shareDir, sysTemp);
            var root := Components(target);
            && (!nonceOk ==> report == SecurityCheckFailed && fs.nodes == old(fs.nodes))
            && (nonceOk && !IsDir(old(fs.nodes), root) ==> report == Missing(target) && fs.nodes == old(fs.nodes))
            && (nonceOk && IsDir(old(fs.nodes), root) && !writable ==>
                  report == NotWritable(target) && fs.nodes == old(fs.nodes))
            && (nonceOk && IsDir(old(fs.nodes), root) && writable ==>
                  && report.Scanned? && report.target == target
                  && Reports(old(fs.nodes), root, now, Children(old(fs.nodes), root), report.found)
                  && fs.nodes == old(fs.nodes) - Under(old(fs.nodes), root, Expired(old(fs.nodes), root, now)))
  {
    if !nonceOk {
      return SecurityCheckFailed;
    }
    var tempDir := shareDir;
    if Falsy(tempDir) {
      tempDir := sysTemp;
    }
    var root := Components(tempDir);
    if !IsDir(fs.nodes, root) {
      return Missing(tempDir);
    }
    if !writable {
      return NotWritable(tempDir);
    }
    var files := ScanDir(fs, root);
    var found: seq<Found> := [];
    var i := 0;
    while i < |files|
      invariant 0 <= i <= |files| && fs.Valid()
      invariant fs.nodes == SweepAlong(old(fs.nodes), root, files[..i], now)
      invariant found == ReportAlong(old(fs.nodes), root, files[..i], now)
    {
      var file := files[i];
      SweepAlongNext(old(fs.nodes), root, files, i, now);
      ReportAlongNext(old(fs.nodes), root, files, i, now);
      if file != "." && file != ".." {
        EntryName(old(fs.nodes), root, files, i);
        var extra := InspectEntry(fs, tempDir, file, now);
        found := found + extra;
      }
      i := i + 1;
    }
    assert files[..|files|] == files;
    SweepAlongAll(old(fs.nodes), root, files, now);
    ReportAlongAll(old(fs.nodes), root, files, now);
    report := Scanned(tempDir, found);
  }
}

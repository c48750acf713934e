/**
  * How `icc_upload_and_shorten_process_upload` turns the name a file was
  * uploaded under into the name it is published under: `pathinfo` splits it
  * into a file name and an extension, and the `convert_filename` policy
  * (`browser-safe`, `safe_suffix`, `randomized`, or none) rewrites them.
  */
module Naming {
  import opened Wrappers
  import opened Text

  // --------------------------------------------------------------- pathinfo

  /** `pathinfo($name, PATHINFO_EXTENSION)`: what follows the last `.` of the base name, "" without one. */
  function Extension(name: string): (e: string)
    ensures !Contains(e, '.') && !Contains(e, '/')
    ensures var b := Basename(name);
            if Contains(b, '.') then |e| < |b| && b[|b| - |e| - 1] == '.' && b[|b| - |e|..] == e
            else e == ""
  {
    var b := Basename(name);
    var k := LastIndexOf(b, '.');
    if k < 0 then "" else b[k + 1..]
  }

  /** `pathinfo($name, PATHINFO_FILENAME)`: the base name without its last `.` and what follows it. */
  function Filename(name: string): (f: string)
    ensures !Contains(f, '/')
    ensures var b := Basename(name);
            if Contains(b, '.') then |f| < |b| && b[..|f|] == f && b[|f|] == '.' && !Contains(b[|f| + 1..], '.')
            else f == b
  {
    var b := Basename(name);
    var k := LastIndexOf(b, '.');
    if k < 0 then b else b[..k]
  }

  /** The extension with the leading dot it gets only when it is not empty. */
  function WithDot(ext: string): (d: string)
    ensures !Contains(ext, '/') ==> !Contains(d, '/')
  {
    ContainsConcat(".", ext, '/');
    if ext != "" then "." + ext else ""
  }

  /**
    * The file name and the dotted extension put back together give the base
    * name, unless the base name ends in a bare dot (which `pathinfo` reports
    * as an empty extension, and which is then lost).
    */
  lemma PathInfoSplit(name: string)
    ensures var b := Basename(name);
            Filename(name) + WithDot(Extension(name)) == if b != "" && b[|b| - 1] == '.' then b[..|b| - 1] else b
  {
    var b := Basename(name);
    var k := LastIndexOf(b, '.');
    DotSplitAt(b, k);
  }

  lemma DotSplitAt(b: string, k: int)
    requires -1 <= k < |b|
    requires k >= 0 ==> b[k] == '.'
    requires forall i | k < i < |b| :: b[i] != '.'
    ensures (if k < 0 then b else b[..k]) + WithDot(if k < 0 then "" else b[k + 1..])
            == if b != "" && b[|b| - 1] == '.' then b[..|b| - 1] else b
  {
    if k < 0 {
      assert b != "" ==> b[|b| - 1] != '.';
      assert b + WithDot("") == b;
    } else if k == |b| - 1 {
      var f := b[..k];
      assert b[k + 1..] == "";
      assert f + WithDot("") == f;
    } else {
      var f, e := b[..k], b[k + 1..];
      assert b[|b| - 1] != '.';
      assert e != "";
      assert WithDot(e) == "." + e;
      assert b == f + "." + e;
    }
  }

  // ---------------------------------------------------------- browser-safe

  /** The characters `[()_\-.,0-9a-zA-Z\[\]]` the browser-safe policy keeps. */
  predicate IsSafeChar(c: char) {
    c == '(' || c == ')' || c == '_' || c == '-' || c == '.' || c == ','
    || IsDigit(c) || IsLower(c) || IsUpper(c) || c == '[' || c == ']'
  }

  /** `preg_replace('([^()_\-\.,0-9a-zA-Z\[\]])', '_', $s)`. */
  function ReplaceUnsafe(s: string): (r: string)
    ensures |r| == |s|
    ensures forall i | 0 <= i < |s| :: r[i] == if IsSafeChar(s[i]) then s[i] else '_'
  {
    if s == [] then [] else [if IsSafeChar(s[0]) then s[0] else '_'] + ReplaceUnsafe(s[1..])
  }

  /** Does `s` hold two underscores in a row? */
  predicate HasDoubleUnderscore(s: string) {
    exists i | 0 <= i < |s| - 1 :: s[i] == '_' && s[i + 1] == '_'
  }

  /** `preg_replace('(_{2,})', '_', $s)`: every run of underscores becomes one. */
  function Collapse(s: string): (r: string)
    ensures |r| <= |s|
    ensures s != [] ==> r != [] && r[0] == s[0]
    ensures forall i | 0 <= i < |r| :: r[i] in s
  {
    if |s| < 2 then s
    else if s[0] == '_' && s[1] == '_' then Collapse(s[1..])
    else
      var rest := Collapse(s[1..]);
      assert forall i | 0 <= i < |rest| :: rest[i] in s;
      [s[0]] + rest
  }

  /** After collapsing, no two underscores stand together. */
  lemma {:induction false} CollapseNoDouble(s: string)
    ensures !HasDoubleUnderscore(Collapse(s))
  {
    if |s| >= 2 {
      CollapseNoDouble(s[1..]);
      if !(s[0] == '_' && s[1] == '_') {
        var rest := Collapse(s[1..]);
        var r := [s[0]] + rest;
        forall i | 0 <= i < |r| - 1 ensures !(r[i] == '_' && r[i + 1] == '_') {
          if i > 0 {
            assert r[i] == rest[i - 1] && r[i + 1] == rest[i];
          } else {
            assert r[1] == s[1];
          }
        }
      }
    }
  }

  /** Collapsing leaves alone exactly the strings without a double underscore. */
  lemma {:induction false} CollapseFixed(s: string)
    ensures Collapse(s) == s <==> !HasDoubleUnderscore(s)
  {
    if |s| >= 2 {
      CollapseFixed(s[1..]);
      if s[0] == '_' && s[1] == '_' {
        assert |Collapse(s)| <= |s[1..]| < |s|;
      } else {
        var rest := Collapse(s[1..]);
        assert Collapse(s) == [s[0]] + rest;
        if HasDoubleUnderscore(s) {
          var i :| 0 <= i < |s| - 1 && s[i] == '_' && s[i + 1] == '_';
          assert i > 0;
          assert s[1..][i - 1] == '_' && s[1..][i] == '_';
        } else {
          assert !HasDoubleUnderscore(s[1..]) by {
            forall i | 0 <= i < |s[1..]| - 1 ensures !(s[1..][i] == '_' && s[1..][i + 1] == '_') {
              assert s[1..][i] == s[i + 1] && s[1..][i + 1] == s[i + 2];
            }
          }
          assert s == [s[0]] + s[1..];
        }
      }
    }
  }

  /**
    * The reference reading of `_{2,}` -> `_`, position by position from `i`
    * on: `s[j]` is dropped exactly when it is an underscore right after
    * another underscore.
    */
  function KeepFrom(s: string, i: nat): (r: string)
    requires i <= |s|
    decreases |s| - i
  {
    if i == |s| then []
    else (if i > 0 && s[i] == '_' && s[i - 1] == '_' then [] else [s[i]]) + KeepFrom(s, i + 1)
  }

  /** The reference reading applied to the whole string. */
  function Keep(s: string): string {
    KeepFrom(s, 0)
  }

  /** `Collapse` keeps every character of `s` in order except the second and later underscores of each run. */
  lemma CollapseKeeps(s: string)
    ensures Collapse(s) == Keep(s)
  {
    if s != [] {
      CollapseKeepsFrom(s, 0);
      assert s[0..] == s;
    }
  }

  lemma {:induction false} CollapseKeepsFrom(s: string, j: nat)
    requires j < |s|
    ensures KeepFrom(s, j) == if j > 0 && s[j] == '_' && s[j - 1] == '_' then Collapse(s[j..])[1..] else Collapse(s[j..])
    decreases |s| - j
  {
    var t := s[j..];
    if j == |s| - 1 {
      assert t == [s[j]];
      assert KeepFrom(s, j + 1) == [];
    } else {
      CollapseKeepsFrom(s, j + 1);
      assert t[1..] == s[j + 1..];
      var c := Collapse(s[j + 1..]);
      assert c[0] == s[j + 1];
      if s[j] == '_' && s[j + 1] == '_' {
        assert Collapse(t) == c;
        assert KeepFrom(s, j + 1) == c[1..];
        if !(j > 0 && s[j - 1] == '_') {
          assert ['_'] + c[1..] == c;
        }
      } else {
        assert Collapse(t) == [s[j]] + c;
        assert KeepFrom(s, j + 1) == c;
        assert ([s[j]] + c)[1..] == c;
      }
    }
  }

  /** A run inside a name becomes one underscore. */
  lemma CollapseInside()
    ensures Collapse("a__b") == "a_b"
  {
    var s := "a__b";
    assert s[1..] == "__b";
    assert s[1..][1..] == "_b";
    assert "_b"[1..] == "b";
    assert Collapse("_b") == "_b";
    assert Collapse("__b") == "_b";
  }

  /** Runs at both ends become one underscore each. */
  lemma CollapseEnds()
    ensures Collapse("__x___") == "_x_"
  {
    assert "__x___"[1..] == "_x___";
    assert "_x___"[1..] == "x___";
    assert "x___"[1..] == "___";
    assert "___"[1..] == "__";
    assert "__"[1..] == "_";
    assert Collapse("__") == "_";
    assert Collapse("___") == "_";
    assert Collapse("x___") == "x_";
    assert Collapse("_x___") == "_x_";
  }

  /** Collapsing twice is collapsing once. */
  lemma CollapseIdempotent(s: string)
    ensures Collapse(Collapse(s)) == Collapse(s)
  {
    CollapseNoDouble(s);
    CollapseFixed(Collapse(s));
  }

  /** The browser-safe file name: trimmed, lower-cased, unsafe characters replaced, underscores collapsed. */
  function SafeFilename(f: string): string {
    Collapse(ReplaceUnsafe(Lower(Trim(f))))
  }

  /** The browser-safe extension (the dot included): lower-cased, replaced, collapsed, not trimmed. */
  function SafeExtension(e: string): string {
    Collapse(ReplaceUnsafe(Lower(e)))
  }

  /** What the browser-safe rewriting yields, from any input. */
  predicate IsBrowserSafe(s: string) {
    (forall i | 0 <= i < |s| :: IsSafeChar(s[i]) && !IsUpper(s[i])) && !HasDoubleUnderscore(s)
  }

  /** Replacing and collapsing a lower-case string makes it browser-safe. */
  lemma SafeOfLower(s: string)
    requires forall i | 0 <= i < |s| :: !IsUpper(s[i])
    ensures IsBrowserSafe(Collapse(ReplaceUnsafe(s)))
  {
    CollapseNoDouble(ReplaceUnsafe(s));
    SafeCharsOfLower(s);
  }

  lemma SafeCharsOfLower(s: string)
    requires forall i | 0 <= i < |s| :: !IsUpper(s[i])
    ensures var c := Collapse(ReplaceUnsafe(s));
            forall i | 0 <= i < |c| :: IsSafeChar(c[i]) && !IsUpper(c[i])
  {
    var r := ReplaceUnsafe(s);
    var c := Collapse(r);
    forall i | 0 <= i < |c| ensures IsSafeChar(c[i]) && !IsUpper(c[i]) {
      var j :| 0 <= j < |r| && r[j] == c[i];
    }
  }

  lemma SafeFilenameShape(f: string)
    ensures IsBrowserSafe(SafeFilename(f))
  {
    SafeOfLower(Lower(Trim(f)));
  }

  lemma SafeExtensionShape(e: string)
    ensures IsBrowserSafe(SafeExtension(e))
  {
    SafeOfLower(Lower(e));
  }

  lemma LowerFixed(s: string)
    requires forall i | 0 <= i < |s| :: !IsUpper(s[i])
    ensures Lower(s) == s
  {
    assert forall i | 0 <= i < |s| :: Lower(s)[i] == s[i];
  }

  lemma ReplaceFixed(s: string)
    requires forall i | 0 <= i < |s| :: IsSafeChar(s[i])
    ensures ReplaceUnsafe(s) == s
  {
    assert forall i | 0 <= i < |s| :: ReplaceUnsafe(s)[i] == s[i];
  }

  /** No character `trim` strips is browser-safe. */
  lemma TrimFixed(s: string)
    requires forall i | 0 <= i < |s| :: IsSafeChar(s[i])
    ensures Trim(s) == s
  {
    if s != [] {
      assert !IsTrimChar(s[|s| - 1]) && !IsTrimChar(s[0]);
    }
    assert TrimRight(s) == s;
  }

  /** Each step of the rewriting leaves a browser-safe string as it is. */
  lemma SafeFixed(s: string)
    requires IsBrowserSafe(s)
    ensures Trim(s) == s && Lower(s) == s && ReplaceUnsafe(s) == s && Collapse(s) == s
  {
    TrimFixed(s);
    LowerFixed(s);
    ReplaceFixed(s);
    CollapseFixed(s);
  }

  /** Applying the browser-safe policy to its own output changes nothing. */
  lemma SafeFilenameIdempotent(f: string)
    ensures SafeFilename(SafeFilename(f)) == SafeFilename(f)
  {
    SafeFilenameShape(f);
    SafeFixed(SafeFilename(f));
  }

  lemma SafeExtensionIdempotent(e: string)
    ensures SafeExtension(SafeExtension(e)) == SafeExtension(e)
  {
    SafeExtensionShape(e);
    SafeFixed(SafeExtension(e));
  }

  // ----------------------------------------------------------- safe_suffix

  /** The `i`-th character of the alphabet `str_shuffle` permutes for the suffix, "abcdefghijklmnopqrstuvwxyz0123456789". */
  function AlphabetChar(i: nat): (c: char)
    requires i < 36
    ensures IsBase36(c)
  {
    if i < 26 then ('a' as int + i) as char else ('0' as int + i - 26) as char
  }

  /** The alphabet from its `i`-th character on. */
  function AlphabetFrom(i: nat): (s: string)
    requires i <= 36
    ensures |s| == 36 - i
    ensures forall j | 0 <= j < |s| :: s[j] == AlphabetChar(i + j)
    decreases 36 - i
  {
    if i == 36 then [] else [AlphabetChar(i)] + AlphabetFrom(i + 1)
  }

  function SuffixAlphabet(): string {
    AlphabetFrom(0)
  }

  predicate Distinct(s: string) {
    forall i, j | 0 <= i < j < |s| :: s[i] != s[j]
  }

  lemma {:induction false} DistinctCounts(s: string, c: char)
    requires Distinct(s)
    ensures multiset(s)[c] <= 1
    ensures c in s ==> multiset(s)[c] == 1
  {
    if s != [] {
      var t := s[1..];
      assert s == [s[0]] + t;
      assert Distinct(t) by {
        forall i, j | 0 <= i < j < |t| ensures t[i] != t[j] {
          assert t[i] == s[i + 1] && t[j] == s[j + 1];
        }
      }
      DistinctCounts(t, c);
      if c == s[0] {
        assert c !in t by {
          forall j | 0 <= j < |t| ensures t[j] != c {
            assert t[j] == s[j + 1];
          }
        }
      }
    }
  }

  /** A `str_shuffle` of the suffix alphabet: the same 36 characters in some order. */
  predicate IsShuffle(s: string) {
    multiset(s) == multiset(SuffixAlphabet())
  }

  lemma {:induction false} SameMultisetDistinct(s: string, t: string)
    requires Distinct(t) && multiset(s) == multiset(t)
    ensures Distinct(s)
  {
    forall i, j | 0 <= i < j < |s| ensures s[i] != s[j] {
      if s[i] == s[j] {
        var c := s[i];
        assert s == s[..i] + [c] + s[i + 1..j] + [c] + s[j + 1..];
        assert multiset(s)[c] >= 2;
        DistinctCounts(t, c);
      }
    }
  }

  /** `'_' . substr(str_shuffle('a…z0…9'), 0, $suffix_length)`'s random part. */
  function Suffix(shuffled: string, length: int): string {
    Prefix(shuffled, length)
  }

  lemma AlphabetDistinct()
    ensures Distinct(SuffixAlphabet())
  {
        forall i, j | 0 <= i < j < 36 ensures SuffixAlphabet()[i] != SuffixAlphabet()[j] {
      assert SuffixAlphabet()[i] == AlphabetChar(i) && SuffixAlphabet()[j] == AlphabetChar(j);
    }
  }

  /** A shuffle of the alphabet is 36 distinct lower-case letters and digits. */
  lemma ShuffleShape(shuffled: string)
    requires IsShuffle(shuffled)
    ensures |shuffled| == 36 && Distinct(shuffled)
    ensures forall i | 0 <= i < |shuffled| :: IsBase36(shuffled[i])
  {
    AlphabetDistinct();
    SameMultisetDistinct(shuffled, SuffixAlphabet());
    assert |shuffled| == |multiset(shuffled)| == |multiset(SuffixAlphabet())|;
        forall i | 0 <= i < |shuffled| ensures IsBase36(shuffled[i]) {
      assert shuffled[i] in multiset(SuffixAlphabet());
      var j :| 0 <= j < 36 && SuffixAlphabet()[j] == shuffled[i];
      assert shuffled[i] == AlphabetChar(j);
    }
  }

  /** For a length from 1 to 36 the suffix is that many distinct lower-case letters and digits. */
  lemma SuffixShape(shuffled: string, length: int)
    requires IsShuffle(shuffled)
    requires 1 <= length <= 36
    ensures var s := Suffix(shuffled, length);
            |s| == length && Distinct(s) && forall i | 0 <= i < |s| :: IsBase36(s[i])
  {
    ShuffleShape(shuffled);
    var s := Suffix(shuffled, length);
    assert s == shuffled[..length];
    assert forall i | 0 <= i < |s| :: s[i] == shuffled[i];
  }

  // ------------------------------------------------------------ randomized

  predicate IsHexDigit(c: char) {
    IsDigit(c) || ('a' <= c <= 'f')
  }

  /** What `md5()` returns: 32 lower-case hexadecimal digits. */
  predicate IsMd5Hex(s: string) {
    |s| == 32 && forall i | 0 <= i < |s| :: IsHexDigit(s[i])
  }

  /** `substr(md5(…), 0, 12)`. */
  function RandomName(md5hex: string): (r: string)
    requires IsMd5Hex(md5hex)
    ensures |r| == 12 && forall i | 0 <= i < |r| :: IsHexDigit(r[i])
  {
    Prefix(md5hex, 12)
  }

  // ------------------------------------------------------------- policies

  /** The file name and dotted extension the upload is published under, before any collision probe. */
  datatype Resolved = Resolved(filename: string, extension: string)

  /** What the policy needs from outside: the option `icc_upload_suffix_length`, `str_shuffle` and `md5` results. */
  datatype Chance = Chance(suffixLength: int, shuffled: string, md5hex: string)

  predicate ValidChance(ch: Chance) {
    IsShuffle(ch.shuffled) && IsMd5Hex(ch.md5hex)
  }

  /** The `switch ($_POST['convert_filename'])` of `process_upload`; `None` when the field is not posted. */
  function Policy(f: string, ext: string, policy: Option<string>, ch: Chance): Resolved
    requires ValidChance(ch)
  {
    if policy == Some("browser-safe") then Resolved(SafeFilename(f), SafeExtension(ext))
    else if policy == Some("safe_suffix") then
      Resolved(SafeFilename(f) + "_" + Suffix(ch.shuffled, ch.suffixLength), SafeExtension(ext))
    else if policy == Some("randomized") then Resolved(RandomName(ch.md5hex), ext)
    else Resolved(f, ext)
  }

  /** The name an upload called `name` is published under, before the collision probe. */
  function ResolveName(name: string, policy: Option<string>, ch: Chance): Resolved
    requires ValidChance(ch)
  {
    Policy(Filename(name), WithDot(Extension(name)), policy, ch)
  }

  /** The browser-safe policy yields a browser-safe name and extension. */
  lemma BrowserSafePolicy(f: string, ext: string, ch: Chance)
    requires ValidChance(ch)
    ensures var r := Policy(f, ext, Some("browser-safe"), ch);
            IsBrowserSafe(r.filename) && IsBrowserSafe(r.extension)
  {
    SafeFilenameShape(f);
    SafeExtensionShape(ext);
  }

  /** safe_suffix is the browser-safe name, an underscore and the random suffix; the extension is as browser-safe makes it. */
  lemma SafeSuffixPolicy(f: string, ext: string, ch: Chance)
    requires ValidChance(ch) && 1 <= ch.suffixLength <= 36
    ensures var r := Policy(f, ext, Some("safe_suffix"), ch);
            var safe := Policy(f, ext, Some("browser-safe"), ch);
            var n := |safe.filename|;
            && r.extension == safe.extension
            && |r.filename| == n + 1 + ch.suffixLength
            && r.filename[..n] == safe.filename && r.filename[n] == '_'
            && Distinct(r.filename[n + 1..])
            && forall i | n < i < |r.filename| :: IsBase36(r.filename[i])
  {
    var safe := SafeFilename(f);
    var s := Suffix(ch.shuffled, ch.suffixLength);
    assert Policy(f, ext, Some("safe_suffix"), ch) == Resolved(safe + "_" + s, SafeExtension(ext));
    assert Policy(f, ext, Some("browser-safe"), ch) == Resolved(safe, SafeExtension(ext));
    SuffixShape(ch.shuffled, ch.suffixLength);
    Suffixed(safe, s);
  }

  lemma Suffixed(safe: string, s: string)
    requires Distinct(s) && forall i | 0 <= i < |s| :: IsBase36(s[i])
    ensures var r := safe + "_" + s;
            var n := |safe|;
            && |r| == n + 1 + |s|
            && r[..n] == safe && r[n] == '_'
            && Distinct(r[n + 1..])
            && forall i | n < i < |r| :: IsBase36(r[i])
  {
    var r := safe + "_" + s;
    assert r[..|safe|] == safe && r[|safe| + 1..] == s;
    forall i | |safe| < i < |r| ensures IsBase36(r[i]) {
      assert r[i] == s[i - |safe| - 1];
    }
  }

  /** randomized replaces the file name by 12 hexadecimal digits and keeps the extension as uploaded. */
  lemma RandomizedPolicy(f: string, ext: string, ch: Chance)
    requires ValidChance(ch)
    ensures var r := Policy(f, ext, Some("randomized"), ch);
            |r.filename| == 12 && (forall i | 0 <= i < 12 :: IsHexDigit(r.filename[i]))
            && r.extension == ext
  {
  }

  /** Without a policy, or with one the switch does not know, the name is kept as uploaded. */
  lemma NoPolicy(f: string, ext: string, policy: Option<string>, ch: Chance)
    requires ValidChance(ch)
    requires policy != Some("browser-safe") && policy != Some("safe_suffix") && policy != Some("randomized")
    ensures Policy(f, ext, policy, ch) == Resolved(f, ext)
  {
  }

  /** No policy puts a `/` into a name that had none. */
  lemma PolicyNoSlash(f: string, ext: string, policy: Option<string>, ch: Chance)
    requires ValidChance(ch) && !Contains(f, '/') && !Contains(ext, '/')
    ensures var r := Policy(f, ext, policy, ch);
            !Contains(r.filename, '/') && !Contains(r.extension, '/')
  {
    if policy == Some("browser-safe") {
      BrowserSafePolicy(f, ext, ch);
      SafeNoSlash(SafeFilename(f));
      SafeNoSlash(SafeExtension(ext));
    } else if policy == Some("safe_suffix") {
      SuffixedNoSlash(f, ch);
      SafeExtensionShape(ext);
      SafeNoSlash(SafeExtension(ext));
    } else if policy == Some("randomized") {
      var r := RandomName(ch.md5hex);
      assert forall i | 0 <= i < |r| :: r[i] != '/';
    }
  }

  /** The safe_suffix file name has no `/`. */
  lemma SuffixedNoSlash(f: string, ch: Chance)
    requires ValidChance(ch)
    ensures !Contains(SafeFilename(f) + "_" + Suffix(ch.shuffled, ch.suffixLength), '/')
  {
    SafeFilenameShape(f);
    SafeNoSlash(SafeFilename(f));
    SuffixNoSlash(ch.shuffled, ch.suffixLength);
    JoinNoSlash(SafeFilename(f), Suffix(ch.shuffled, ch.suffixLength));
  }

  lemma SuffixNoSlash(shuffled: string, length: int)
    requires IsShuffle(shuffled)
    ensures !Contains(Suffix(shuffled, length), '/')
  {
    ShuffleShape(shuffled);
    var s := Suffix(shuffled, length);
    forall i | 0 <= i < |s| ensures s[i] != '/' {
      assert s[i] == shuffled[i];
    }
  }

  lemma JoinNoSlash(a: string, b: string)
    requires !Contains(a, '/') && !Contains(b, '/')
    ensures !Contains(a + "_" + b, '/')
  {
    ContainsConcat(a, "_", '/');
    ContainsConcat(a + "_", b, '/');
  }

  lemma SafeNoSlash(s: string)
    requires IsBrowserSafe(s)
    ensures !Contains(s, '/')
  {
  }
}

/**
  * Path strings as the plugin builds them (`rtrim($dir, '/') . '/' . $name`,
  * `$dir . $name`) and the directory paths they denote. A path is resolved
  * as the kernel does for `/`, empty and `.` segments: `a//b/./c/` and `a/b/c`
  * are the same path. `..` is not resolved; callers keep it out of their
  * inputs.
  */
module Paths {
  import opened Text

  /** A resolved path: the sequence of entry names from the root. */
  type Path = seq<string>

  /** A name that can stand as one directory entry of a resolved path. */
  predicate IsSegment(n: string) {
    n != "" && n != "." && !Contains(n, '/')
  }

  /** A name that is an entry of its directory, not `.` or `..`. */
  predicate IsPlainName(n: string) {
    IsSegment(n) && n != ".."
  }

  predicate IsPlainPath(p: Path) {
    forall i | 0 <= i < |p| :: IsPlainName(p[i])
  }

  lemma PlainAppend(p: Path, n: string)
    requires IsPlainPath(p) && IsPlainName(n)
    ensures IsPlainPath(p + [n])
  {
    assert forall i | 0 <= i < |p| :: (p + [n])[i] == p[i];
  }

  /** The path a string denotes. */
  function Components(s: string): (p: Path)
    ensures forall i | 0 <= i < |p| :: IsSegment(p[i])
  {
    ExplodePieces(s, '/');
    Keep(Explode(s, '/'))
  }

  /** The pieces between slashes that name entries: all but "" and ".". */
  function Keep(pieces: seq<string>): (p: Path)
    requires forall i | 0 <= i < |pieces| :: !Contains(pieces[i], '/')
    ensures forall i | 0 <= i < |p| :: IsSegment(p[i])
  {
    if pieces == [] then []
    else
      var rest := Keep(pieces[1..]);
      if pieces[0] == "" || pieces[0] == "." then rest else [pieces[0]] + rest
  }

  lemma {:induction false} KeepAppend(x: seq<string>, y: seq<string>)
    requires forall i | 0 <= i < |x| :: !Contains(x[i], '/')
    requires forall i | 0 <= i < |y| :: !Contains(y[i], '/')
    ensures Keep(x + y) == Keep(x) + Keep(y)
  {
    if x != [] {
      var xy := x + y;
      assert xy[0] == x[0] && xy[1..] == x[1..] + y;
      KeepAppend(x[1..], y);
      var head := if x[0] == "" || x[0] == "." then [] else [x[0]];
      assert Keep(x) == head + Keep(x[1..]);
      assert Keep(xy) == head + Keep(x[1..] + y);
    } else {
      assert x + y == y;
    }
  }

  /** Joining two strings with `/` joins the paths they denote. */
  lemma ComponentsJoin(a: string, b: string)
    ensures Components(a + "/" + b) == Components(a) + Components(b)
  {
    ExplodeJoin(a, '/', b);
    ExplodePieces(a, '/');
    ExplodePieces(b, '/');
    KeepAppend(Explode(a, '/'), Explode(b, '/'));
  }

  /** A single entry name denotes the one-entry path. */
  lemma ComponentsOfSegment(n: string)
    requires IsSegment(n)
    ensures Components(n) == [n]
  {
    ExplodeSingle(n, '/');
    assert Keep([n]) == [n] + Keep([]);
  }

  lemma ComponentsEmpty()
    ensures Components("") == []
  {
    ExplodeSingle("", '/');
  }

  /** Trailing slashes do not change the path a string denotes. */
  lemma {:induction false} ComponentsRTrim(s: string)
    ensures Components(RTrim(s, '/')) == Components(s)
    decreases |s|
  {
    if s != [] && s[|s| - 1] == '/' {
      var t := s[..|s| - 1];
      assert s == t + "/" + "";
      ComponentsJoin(t, "");
      ComponentsRTrim(t);
    }
  }

  /** `rtrim($dir, '/') . '/' . $name` denotes the entry `name` of `dir`. */
  lemma ChildOf(dir: string, name: string)
    requires IsSegment(name)
    ensures Components(RTrim(dir, '/') + "/" + name) == Components(dir) + [name]
  {
    ComponentsJoin(RTrim(dir, '/'), name);
    ComponentsRTrim(dir);
    ComponentsOfSegment(name);
  }

  /** `$dir . $name` for a `dir` that ends in `/` denotes the entry `name` of `dir`. */
  lemma ChildOfSlashed(dir: string, name: string)
    requires |dir| > 0 && dir[|dir| - 1] == '/'
    requires IsSegment(name)
    ensures Components(dir + name) == Components(dir) + [name]
  {
    var d := dir[..|dir| - 1];
    assert dir + name == d + "/" + name;
    assert dir == d + "/" + "";
    ComponentsJoin(d, name);
    ComponentsJoin(d, "");
    ComponentsOfSegment(name);
  }

  /** `$dir . $name` for a `dir` that ends in `/` and a name without one lies at most one entry below `dir`. */
  lemma SlashedEntryDepth(dir: string, name: string)
    requires |dir| > 0 && dir[|dir| - 1] == '/'
    requires !Contains(name, '/')
    ensures |Components(dir + name)| <= |Components(dir)| + 1
  {
    var d := dir[..|dir| - 1];
    assert dir + name == d + "/" + name;
    assert dir == d + "/" + "";
    ComponentsJoin(d, name);
    ComponentsJoin(d, "");
    ComponentsEmpty();
    ExplodeSingle(name, '/');
    assert Keep([name]) == (if name == "" || name == "." then [] else [name]) + Keep([]);
  }

  /** What follows the last `/` of a string (all of it when there is none). */
  function Tail(s: string): (t: string)
    ensures !Contains(t, '/')
  {
    var k := LastIndexOf(s, '/');
    s[k + 1..]
  }

  /** What precedes the last `/` of a string ("" when there is none). */
  function Head(s: string): string {
    var k := LastIndexOf(s, '/');
    if k < 0 then "" else s[..k]
  }

  /**
    * Appending a slash-free `x` to any string extends its last segment:
    * `$dir . $x` denotes the entry `Tail(dir) + x` of `Head(dir)`.
    */
  lemma ComponentsAppend(s: string, x: string)
    requires !Contains(x, '/')
    requires IsSegment(Tail(s) + x)
    ensures Components(s + x) == Components(Head(s)) + [Tail(s) + x]
  {
    var k := LastIndexOf(s, '/');
    if k < 0 {
      assert s + x == Tail(s) + x;
      ComponentsOfSegment(Tail(s) + x);
      ComponentsEmpty();
    } else {
      assert s + x == s[..k] + "/" + (s[k + 1..] + x);
      ComponentsJoin(s[..k], s[k + 1..] + x);
      ComponentsOfSegment(Tail(s) + x);
    }
  }

  /** The proper prefixes of a path: the directories that lead to it. */
  predicate IsPrefix(d: Path, p: Path) {
    |d| <= |p| && p[..|d|] == d
  }
}

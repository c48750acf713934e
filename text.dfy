/**
  * The PHP string built-ins the upload plugin relies on, stated over
  * `string` (one `char` stands for one byte: the plugin's regular expressions
  * run without the `/u` flag, so they see bytes).
  */
module Text {

  predicate HasPrefix(s: string, p: string) {
    |p| <= |s| && s[..|p|] == p
  }

  /** Does `c` occur in `s`? */
  predicate Contains(s: string, c: char) {
    exists i | 0 <= i < |s| :: s[i] == c
  }

  lemma ContainsConcat(a: string, b: string, c: char)
    ensures Contains(a + b, c) <==> Contains(a, c) || Contains(b, c)
  {
    if Contains(a + b, c) {
      var i :| 0 <= i < |a + b| && (a + b)[i] == c;
      if i >= |a| {
        assert b[i - |a|] == c;
      }
    }
    if Contains(a, c) {
      var i :| 0 <= i < |a| && a[i] == c;
      assert (a + b)[i] == c;
    }
    if Contains(b, c) {
      var i :| 0 <= i < |b| && b[i] == c;
      assert (a + b)[|a| + i] == c;
    }
  }

  /** PHP `rtrim($s, $c)` for a single character: drop every trailing `c`. */
  function RTrim(s: string, c: char): (r: string)
    ensures |r| <= |s| && r == s[..|r|]
    ensures r == [] || r[|r| - 1] != c
    ensures forall i | |r| <= i < |s| :: s[i] == c
  {
    if s != [] && s[|s| - 1] == c then RTrim(s[..|s| - 1], c) else s
  }

  /** The characters PHP `trim()` strips by default: " \t\n\r\0\x0B". */
  predicate IsTrimChar(c: char) {
    c == ' ' || c == '\t' || c == '\n' || c == '\r' || c == '\U{0}' || c == '\U{B}'
  }

  function TrimRight(s: string): (r: string)
    ensures |r| <= |s| && r == s[..|r|]
    ensures r == [] || !IsTrimChar(r[|r| - 1])
    ensures forall i | |r| <= i < |s| :: IsTrimChar(s[i])
  {
    if s != [] && IsTrimChar(s[|s| - 1]) then TrimRight(s[..|s| - 1]) else s
  }

  function TrimLeft(s: string): (r: string)
    ensures |r| <= |s| && r == s[|s| - |r|..]
    ensures r == [] || !IsTrimChar(r[0])
    ensures forall i | 0 <= i < |s| - |r| :: IsTrimChar(s[i])
  {
    if s != [] && IsTrimChar(s[0]) then TrimLeft(s[1..]) else s
  }

  /** PHP `trim($s)`. */
  function Trim(s: string): (r: string)
    ensures r == [] || (!IsTrimChar(r[0]) && !IsTrimChar(r[|r| - 1]))
  {
    TrimLeft(TrimRight(s))
  }

  /** Trimming twice is trimming once. */
  lemma TrimIdempotent(s: string)
    ensures Trim(Trim(s)) == Trim(s)
  {
    var r := Trim(s);
    assert TrimRight(r) == r;
    assert TrimLeft(r) == r;
  }

  predicate IsUpper(c: char) { 'A' <= c <= 'Z' }
  predicate IsLower(c: char) { 'a' <= c <= 'z' }
  predicate IsDigit(c: char) { '0' <= c <= '9' }
  /** A digit of JavaScript's base-36 `toString(36)`, as PHP's `str_shuffle` alphabet here. */
  predicate IsBase36(c: char) { IsDigit(c) || IsLower(c) }

  /** PHP 8 `strtolower`: ASCII letters only, every other byte unchanged. */
  function LowerChar(c: char): (r: char)
    ensures !IsUpper(r)
    ensures IsUpper(c) ==> IsLower(r)
    ensures !IsUpper(c) ==> r == c
  {
    if IsUpper(c) then (c as int + 32) as char else c
  }

  function Lower(s: string): (r: string)
    ensures |r| == |s|
    ensures forall i | 0 <= i < |s| :: r[i] == LowerChar(s[i])
  {
    if s == [] then [] else [LowerChar(s[0])] + Lower(s[1..])
  }

  /** PHP `substr($s, 0, $len)`: a negative length drops that many characters from the end. */
  function Prefix(s: string, len: int): (r: string)
    ensures |r| <= |s| && r == s[..|r|]
    ensures len >= 0 ==> |r| == if len <= |s| then len else |s|
    ensures len < 0 ==> |r| == if |s| + len >= 0 then |s| + len else 0
  {
    if len >= 0 then (if len <= |s| then s[..len] else s)
    else if |s| + len >= 0 then s[..|s| + len] else []
  }

  /** PHP truthiness of a string: only "" and "0" are false. */
  predicate Falsy(s: string) {
    s == "" || s == "0"
  }

  // ---------------------------------------------------------------- numbers

  function DigitChar(d: nat): (c: char)
    requires d < 10
    ensures IsDigit(c)
  {
    ('0' as int + d) as char
  }

  function DigitValue(c: char): (d: nat)
    requires IsDigit(c)
    ensures d < 10 && DigitChar(d) == c
  {
    c as int - '0' as int
  }

  predicate AllDigits(s: string) {
    forall i | 0 <= i < |s| :: IsDigit(s[i])
  }

  /** A decimal numeral as PHP prints an integer: digits, no leading zero. */
  predicate IsCanonicalNat(s: string) {
    |s| > 0 && AllDigits(s) && (s[0] == '0' ==> |s| == 1)
  }

  /** The value of a string of decimal digits. */
  function ParseDigits(s: string): (n: nat)
    requires AllDigits(s)
  {
    if s == [] then 0 else 10 * ParseDigits(s[..|s| - 1]) + DigitValue(s[|s| - 1])
  }

  /** PHP's decimal rendering of a non-negative integer. */
  function NatToString(n: nat): (s: string)
    ensures IsCanonicalNat(s)
    ensures ParseDigits(s) == n
  {
    if n < 10 then [DigitChar(n)]
    else
      var r := NatToString(n / 10) + [DigitChar(n % 10)];
      assert r[..|r| - 1] == NatToString(n / 10);
      r
  }

  /** PHP's decimal rendering of an integer (`'part_' . $i`). */
  function IntToString(i: int): (s: string)
    ensures |s| > 0
    ensures i >= 0 ==> IsCanonicalNat(s)
    ensures i < 0 ==> s[0] == '-'
  {
    if i < 0 then "-" + NatToString(-i) else NatToString(i)
  }

  lemma {:induction false} ParseDigitsZero(s: string)
    requires AllDigits(s) && |s| > 0 && s[0] == '0'
    ensures ParseDigits(s) < Power10(|s| - 1)
  {
    if |s| > 1 {
      ParseDigitsZero(s[..|s| - 1]);
    }
  }

  function Power10(k: nat): (p: nat)
    ensures p >= 1
  {
    if k == 0 then 1 else 10 * Power10(k - 1)
  }

  lemma {:induction false} ParseDigitsBounds(s: string)
    requires IsCanonicalNat(s)
    ensures ParseDigits(s) < Power10(|s|)
    ensures |s| > 1 ==> Power10(|s| - 1) <= ParseDigits(s)
  {
    if |s| > 1 {
      var t := s[..|s| - 1];
      assert t[0] == s[0];
      ParseDigitsBounds(t);
      if |t| == 1 {
        assert t[0] != '0';
        assert ParseDigits(t) == DigitValue(t[0]);
      }
    } else {
      assert ParseDigits(s) == DigitValue(s[0]);
    }
  }

  /** A canonical numeral is the rendering of its value: the two are inverse. */
  lemma {:induction false} NatToStringOfParse(s: string)
    requires IsCanonicalNat(s)
    ensures NatToString(ParseDigits(s)) == s
  {
    var n := ParseDigits(s);
    if |s| == 1 {
      assert n == DigitValue(s[0]) && n < 10;
    } else {
      var t := s[..|s| - 1];
      assert t[0] == s[0];
      ParseDigitsBounds(s);
      ParseDigitsBounds(t);
      assert IsCanonicalNat(t);
      assert n / 10 == ParseDigits(t) && n % 10 == DigitValue(s[|s| - 1]);
      NatToStringOfParse(t);
      assert s == t + [s[|s| - 1]];
    }
  }

  /** Distinct numbers render as distinct numerals. */
  lemma NatToStringInjective(m: nat, n: nat)
    requires NatToString(m) == NatToString(n)
    ensures m == n
  {
  }

  /** Distinct integers render as distinct strings: a `-` never starts a canonical numeral. */
  lemma {:induction false} IntToStringInjective(i: int, j: int)
    requires IntToString(i) == IntToString(j)
    ensures i == j
  {
    var s := IntToString(i);
    if i < 0 && j < 0 {
      assert NatToString(-i) == s[1..] == NatToString(-j);
      NatToStringInjective(-i, -j);
    } else if i >= 0 && j >= 0 {
      NatToStringInjective(i, j);
    } else {
      assert false;
    }
  }

  /** PHP_INT_MIN and PHP_INT_MAX on a 64-bit build. */
  const IntMin: int := -0x8000_0000_0000_0000
  const IntMax: int := 0x7FFF_FFFF_FFFF_FFFF

  predicate IsIntvalSpace(c: char) {
    c == ' ' || c == '\t' || c == '\n' || c == '\r' || c == '\U{B}' || c == '\U{C}'
  }

  /** Length of the longest prefix of `s` made of decimal digits. */
  function DigitRun(s: string): (k: nat)
    ensures k <= |s| && AllDigits(s[..k])
    ensures k < |s| ==> !IsDigit(s[k])
  {
    if s != [] && IsDigit(s[0]) then
      var k := 1 + DigitRun(s[1..]);
      assert s[..k] == [s[0]] + s[1..][..k - 1];
      k
    else 0
  }

  lemma {:induction false} DigitRunAll(s: string)
    requires AllDigits(s)
    ensures DigitRun(s) == |s|
  {
    if s != [] {
      assert AllDigits(s[1..]);
      DigitRunAll(s[1..]);
    }
  }

  function Saturate(v: int): (r: int)
    ensures IntMin <= r <= IntMax
    ensures IntMin <= v <= IntMax ==> r == v
  {
    if v < IntMin then IntMin else if v > IntMax then IntMax else v
  }

  /**
    * PHP `intval($s)` for a string: leading white space, an optional sign and
    * the longest run of digits that follows; anything else reads as 0; values
    * beyond the 64-bit range saturate.
    */
  function IntVal(s: string): (r: int)
    ensures IntMin <= r <= IntMax
  {
    var t := TrimSpaceLeft(s);
    if t != [] && (t[0] == '-' || t[0] == '+') then
      var d := t[1..][..DigitRun(t[1..])];
      var v: int := if t[0] == '-' then 0 - ParseDigits(d) else ParseDigits(d);
      Saturate(v)
    else
      Saturate(ParseDigits(t[..DigitRun(t)]))
  }

  function TrimSpaceLeft(s: string): (r: string)
    ensures |r| <= |s| && r == s[|s| - |r|..]
    ensures r == [] || !IsIntvalSpace(r[0])
  {
    if s != [] && IsIntvalSpace(s[0]) then TrimSpaceLeft(s[1..]) else s
  }

  /** `intval` reads back every integer PHP prints. */
  lemma IntValOfNatToString(n: nat)
    requires n <= IntMax
    ensures IntVal(NatToString(n)) == n
  {
    var s := NatToString(n);
    assert !IsIntvalSpace(s[0]) && s[0] != '-' && s[0] != '+';
    assert TrimSpaceLeft(s) == s;
    DigitRunAll(s);
    assert s[..|s|] == s;
    assert IntVal(s) == Saturate(ParseDigits(s));
  }

  /** `intval` reads back every integer PHP prints, negative ones included. */
  lemma IntValOfIntToString(i: int)
    requires IntMin <= i <= IntMax
    ensures IntVal(IntToString(i)) == i
  {
    if i < 0 {
      IntValOfNegative(-i);
    } else {
      IntValOfNatToString(i);
    }
  }

  /** `intval` reads back a negative integer PHP prints. */
  lemma IntValOfNegative(m: nat)
    requires 0 < m <= -IntMin
    ensures IntVal("-" + NatToString(m)) == -(m as int)
  {
    var d := NatToString(m);
    var s := "-" + d;
    assert TrimSpaceLeft(s) == s;
    assert s[0] == '-' && s[1..] == d;
    DigitRunAll(d);
    assert d[..|d|] == d;
    assert IntVal(s) == Saturate(0 - ParseDigits(d));
  }

  // ------------------------------------------------------ explode / implode

  /** The pieces of `c + s`, given the pieces `r` of `s`: a separator starts a new piece, any other character joins the first. */
  function ConsPieces(c: char, sep: char, r: seq<string>): seq<string>
    requires |r| >= 1
  {
    if c == sep then [""] + r else [[c] + r[0]] + r[1..]
  }

  /** PHP `explode($sep, $s)` for a one-character separator, read from the left. */
  function Explode(s: string, sep: char): (r: seq<string>)
    ensures |r| >= 1
  {
    if s == [] then [""] else ConsPieces(s[0], sep, Explode(s[1..], sep))
  }

  /** No piece `explode` returns holds the separator. */
  lemma {:induction false} ExplodePieces(s: string, sep: char)
    ensures forall i | 0 <= i < |Explode(s, sep)| :: !Contains(Explode(s, sep)[i], sep)
  {
    if s != [] {
      ExplodePieces(s[1..], sep);
      var r := Explode(s[1..], sep);
      if s[0] != sep {
        var x := [s[0]] + r[0];
        assert !Contains(r[0], sep);
        assert forall i | 0 <= i < |x| :: x[i] != sep by {
          forall i | 0 <= i < |x| ensures x[i] != sep {
            if i > 0 {
              assert x[i] == r[0][i - 1];
            }
          }
        }
      }
    }
  }

  /** PHP `implode($sep, $parts)`. */
  function Implode(parts: seq<string>, sep: char): string {
    if parts == [] then ""
    else if |parts| == 1 then parts[0]
    else parts[0] + [sep] + Implode(parts[1..], sep)
  }

  /** Joining what `explode` split gives back the string. */
  lemma {:induction false} ImplodeExplode(s: string, sep: char)
    ensures Implode(Explode(s, sep), sep) == s
  {
    if s != [] {
      ImplodeExplode(s[1..], sep);
      ImplodeExplodeCons(s, sep);
    }
  }

  /** The step of `ImplodeExplode`: one more character in front. */
  lemma ImplodeExplodeCons(s: string, sep: char)
    requires s != [] && Implode(Explode(s[1..], sep), sep) == s[1..]
    ensures Implode(Explode(s, sep), sep) == s
  {
    var r := Explode(s[1..], sep);
    assert Explode(s, sep) == ConsPieces(s[0], sep, r);
    if s[0] == sep {
      ImplodeCons("", r, sep);
      assert s == [sep] + s[1..];
    } else {
      ImplodeFirst(s[0], r, sep);
      assert s == [s[0]] + s[1..];
    }
  }

  lemma ImplodeCons(x: string, rest: seq<string>, sep: char)
    requires rest != []
    ensures Implode([x] + rest, sep) == x + [sep] + Implode(rest, sep)
  {
    var e := [x] + rest;
    assert e[0] == x && e[1..] == rest;
  }

  /** A character put in front of the first part comes out in front of the whole. */
  lemma ImplodeFirst(c: char, parts: seq<string>, sep: char)
    requires parts != []
    ensures Implode([[c] + parts[0]] + parts[1..], sep) == [c] + Implode(parts, sep)
  {
    var e := [[c] + parts[0]] + parts[1..];
    assert e[0] == [c] + parts[0] && e[1..] == parts[1..];
    if |parts| > 1 {
      ImplodeCons(parts[0], parts[1..], sep);
      assert parts == [parts[0]] + parts[1..];
    }
  }

  /** Splitting at an inserted separator splits the two sides independently. */
  lemma {:induction false} ExplodeJoin(s: string, sep: char, t: string)
    ensures Explode(s + [sep] + t, sep) == Explode(s, sep) + Explode(t, sep)
  {
    var u := s + [sep] + t;
    if s == [] {
      assert u == [sep] + t;
      assert u[1..] == t;
      assert Explode(u, sep) == [""] + Explode(t, sep);
    } else {
      var v := s[1..] + [sep] + t;
      assert s == [s[0]] + s[1..] && u == [s[0]] + v;
      ExplodeJoin(s[1..], sep, t);
      ExplodeCons(s[0], s[1..], sep);
      ExplodeCons(s[0], v, sep);
      ConsJoin(s[0], sep, Explode(s[1..], sep), Explode(t, sep));
    }
  }

  lemma ConsJoin(c: char, sep: char, a: seq<string>, b: seq<string>)
    requires |a| >= 1
    ensures ConsPieces(c, sep, a + b) == ConsPieces(c, sep, a) + b
  {
    if c != sep {
      assert (a + b)[0] == a[0];
      assert (a + b)[1..] == a[1..] + b;
    }
  }

  /** The defining step of `Explode`, for a string given by its first character. */
  lemma ExplodeCons(c: char, s: string, sep: char)
    ensures Explode([c] + s, sep) == ConsPieces(c, sep, Explode(s, sep))
  {
    var cs := [c] + s;
    assert cs[0] == c && cs[1..] == s;
  }

  /** A string without the separator explodes to itself. */
  lemma {:induction false} ExplodeSingle(t: string, sep: char)
    requires !Contains(t, sep)
    ensures Explode(t, sep) == [t]
  {
    if t != [] {
      assert !Contains(t[1..], sep) by {
        forall i | 0 <= i < |t[1..]| ensures t[1..][i] != sep {
          assert t[1..][i] == t[i + 1];
        }
      }
      ExplodeSingle(t[1..], sep);
      assert t == [t[0]] + t[1..];
    }
  }

  /** Appending `sep + t`, with `t` free of `sep`, appends exactly one element. */
  lemma ExplodeAppend(s: string, sep: char, t: string)
    requires !Contains(t, sep)
    ensures Explode(s + [sep] + t, sep) == Explode(s, sep) + [t]
  {
    ExplodeJoin(s, sep, t);
    ExplodeSingle(t, sep);
  }

  // ------------------------------------------------------------- basename

  /** PHP `basename($s)`: trailing slashes dropped, then what follows the last `/`. */
  function Basename(s: string): (r: string)
    ensures !Contains(r, '/')
  {
    var t := RTrim(s, '/');
    var k := LastIndexOf(t, '/');
    if k < 0 then t else t[k + 1..]
  }

  /** `basename($s) == $s` exactly when `s` holds no slash. */
  lemma BasenameFixed(s: string)
    ensures Basename(s) == s <==> !Contains(s, '/')
  {
    if !Contains(s, '/') {
      assert RTrim(s, '/') == s;
    }
  }

  /** Index of the last `c` in `s`, or -1. */
  function LastIndexOf(s: string, c: char): (k: int)
    ensures -1 <= k < |s|
    ensures k >= 0 ==> s[k] == c
    ensures forall i | k < i < |s| :: s[i] != c
  {
    if s == [] then -1
    else if s[|s| - 1] == c then |s| - 1
    else LastIndexOf(s[..|s| - 1], c)
  }
}

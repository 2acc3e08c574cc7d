/** The part of Python's `os.path` (POSIX flavour) and `str(int)` that the
    transfer engine relies on, over `/`-separated ASCII paths. */
module Paths {

  /** The index of the last `c` among the first `n` characters, or -1. */
  function LastIndexBefore(s: string, c: char, n: nat): (r: int)
    requires n <= |s|
    ensures -1 <= r < n
    ensures r >= 0 ==> s[r] == c
    ensures forall i :: r < i < n ==> s[i] != c
  {
    if n == 0 then -1
    else if s[n - 1] == c then n - 1
    else LastIndexBefore(s, c, n - 1)
  }

  /** `s.rfind(c)`: the index of the last occurrence of `c`, or -1. */
  function LastIndexOf(s: string, c: char): (r: int)
    ensures -1 <= r < |s|
    ensures r >= 0 ==> s[r] == c
    ensures forall i :: r < i < |s| ==> s[i] != c
  {
    LastIndexBefore(s, c, |s|)
  }

  lemma LastIndexOfAbsent(s: string, c: char)
    requires c !in s
    ensures LastIndexOf(s, c) == -1
  {
  }

  lemma LastIndexOfAfter(a: string, c: char, b: string)
    requires c !in b
    ensures LastIndexOf(a + [c] + b, c) == |a|
  {
    var s := a + [c] + b;
    assert s[|a|] == c;
    assert forall i :: |a| < i < |s| ==> s[i] == b[i - |a| - 1];
  }

  predicate AllDots(s: string) {
    forall i :: 0 <= i < |s| ==> s[i] == '.'
  }

  /** Where `os.path.splitext(p)` starts the extension: the last `.` of the
      last path component, unless everything before that dot in the component
      is itself a dot (so `.bashrc` and `..` have no extension); `|p|` when
      there is no extension. */
  function ExtStart(p: string): (k: nat)
    ensures k <= |p|
    ensures k < |p| ==> p[k] == '.'
    ensures forall i :: k < i < |p| ==> p[i] != '.' && p[i] != '/'
  {
    var sep := LastIndexOf(p, '/');
    var dot := LastIndexOf(p, '.');
    if dot > sep && !AllDots(p[sep + 1..dot]) then dot else |p|
  }

  /** `os.path.splitext(p)`: the stem and the extension, which starts with a
      dot and holds no other dot and no separator. */
  function SplitExt(p: string): (r: (string, string))
    ensures r.0 + r.1 == p
    ensures r.1 == [] || r.1[0] == '.'
    ensures forall i :: 0 < i < |r.1| ==> r.1[i] != '.' && r.1[i] != '/'
  {
    var k := ExtStart(p);
    (p[..k], p[k..])
  }

  /** A name with a plain extension splits before its last dot. */
  lemma SplitExtOfName(stem: string, tail: string)
    requires '/' !in stem && '/' !in tail && '.' !in tail
    requires !AllDots(stem)
    ensures SplitExt(stem + "." + tail) == (stem, "." + tail)
  {
    var p := stem + "." + tail;
    assert p == stem + ['.'] + tail;
    LastIndexOfAfter(stem, '.', tail);
    LastIndexOfAbsent(p, '/');
    assert p[0..|stem|] == stem;
    assert ExtStart(p) == |stem|;
    assert p[..|stem|] == stem && p[|stem|..] == "." + tail;
  }

  /** In a path whose last component follows `x` (empty or ending with `/`),
      the last separator is the end of `x`. */
  lemma LastSeparator(x: string, rest: string)
    requires x == [] || x[|x| - 1] == '/'
    requires '/' !in rest
    ensures LastIndexOf(x + rest, '/') == |x| - 1
  {
    if x == [] {
      assert x + rest == rest;
      LastIndexOfAbsent(rest, '/');
    } else {
      var front := x[..|x| - 1];
      assert x + rest == front + ['/'] + rest;
      LastIndexOfAfter(front, '/', rest);
    }
  }

  /** `splitext` on a last component `stem.tail` (the tail free of dots):
      the extension is `.tail` unless the stem is empty or all dots, as for
      `dir/.bashrc`, in which case there is none. */
  lemma SplitExtInComponent(x: string, stem: string, tail: string)
    requires x == [] || x[|x| - 1] == '/'
    requires '/' !in stem && '/' !in tail && '.' !in tail
    ensures !AllDots(stem) ==> SplitExt(x + stem + "." + tail) == (x + stem, "." + tail)
    ensures AllDots(stem) ==> SplitExt(x + stem + "." + tail) == (x + stem + "." + tail, "")
  {
    var p := x + stem + "." + tail;
    assert p == (x + stem) + ['.'] + tail;
    assert p == x + (stem + "." + tail);
    LastSeparator(x, stem + "." + tail);
    LastIndexOfAfter(x + stem, '.', tail);
    assert p[|x|..|x| + |stem|] == stem;
    if AllDots(stem) {
      assert ExtStart(p) == |p|;
      assert p[..|p|] == p;
    } else {
      assert ExtStart(p) == |x| + |stem|;
      var head, ext := x + stem, "." + tail;
      assert p == head + ext;
      assert p[..|head|] == head;
      assert p[|head|..] == ext;
    }
  }

  /** A last component without a dot has no extension. */
  lemma SplitExtNoDot(x: string, name: string)
    requires x == [] || x[|x| - 1] == '/'
    requires '/' !in name && '.' !in name
    ensures SplitExt(x + name) == (x + name, "")
  {
    var p := x + name;
    LastSeparator(x, name);
    assert forall i :: |x| <= i < |p| ==> p[i] == name[i - |x|];
    assert LastIndexOf(p, '.') < |x|;
    assert ExtStart(p) == |p|;
    assert p[..|p|] == p;
  }

  /** The resolvers split a joined path `to/stem.tail`: the extension is
      `.tail` and the stem keeps the folder. */
  lemma SplitExtOfJoin(to: string, stem: string, tail: string)
    requires '/' !in stem && '/' !in tail && '.' !in tail
    requires !AllDots(stem)
    ensures SplitExt(Join(to, stem + "." + tail)) == (Join(to, stem), "." + tail)
  {
    var x := if to == [] || to[|to| - 1] == '/' then to else to + "/";
    assert stem[0] != '/';
    assert Join(to, stem + "." + tail) == x + stem + "." + tail;
    assert Join(to, stem) == x + stem;
    SplitExtInComponent(x, stem, tail);
  }

  /** `splitext("d/photo.jpg")` is `("d/photo", ".jpg")`. */
  lemma SplitExtPhoto()
    ensures SplitExt("d/photo.jpg") == ("d/photo", ".jpg")
  {
    var p := "d/photo.jpg";
    assert p == "d" + ['/'] + "photo.jpg";
    LastIndexOfAfter("d", '/', "photo.jpg");
    assert p == "d/photo" + ['.'] + "jpg";
    LastIndexOfAfter("d/photo", '.', "jpg");
    assert p[2..7][0] == 'p';
    assert ExtStart(p) == 7;
    assert p[..7] == "d/photo" && p[7..] == ".jpg";
  }

  /** `splitext("d/.bashrc")` is `("d/.bashrc", "")`: a leading dot starts
      no extension. */
  lemma SplitExtDotfile()
    ensures SplitExt("d/.bashrc") == ("d/.bashrc", "")
  {
    var q := "d/.bashrc";
    assert q == "d" + ['/'] + ".bashrc";
    LastIndexOfAfter("d", '/', ".bashrc");
    assert q == "d/" + ['.'] + "bashrc";
    LastIndexOfAfter("d/", '.', "bashrc");
    assert ExtStart(q) == |q|;
    assert q[..|q|] == q;
  }

  /** `os.path.basename(p)`: the characters after the last `/`, collected
      from the end of the path. */
  function Basename(p: string): (r: string)
    ensures '/' !in r
    ensures |r| <= |p|
    decreases |p|
  {
    if p == [] || p[|p| - 1] == '/' then []
    else Basename(p[..|p| - 1]) + [p[|p| - 1]]
  }

  /** It is the tail after `p.rfind('/')`, as Python slices it. */
  lemma {:induction false} BasenameIsTail(p: string)
    ensures Basename(p) == p[LastIndexOf(p, '/') + 1..]
    decreases |p|
  {
    if p != [] && p[|p| - 1] != '/' {
      var front := p[..|p| - 1];
      BasenameIsTail(front);
      var k := LastIndexOf(front, '/');
      assert LastIndexOf(p, '/') == k;
      assert p[k + 1..] == front[k + 1..] + [p[|p| - 1]];
    }
  }

  /** `os.path.join(a, b)` for two components. */
  function Join(a: string, b: string): string {
    if |b| > 0 && b[0] == '/' then b
    else if a == [] || a[|a| - 1] == '/' then a + b
    else a + "/" + b
  }

  /** `os.path.join(a, b)` ends with `b`; an absolute `b` discards `a`;
      otherwise `a` comes first, followed by a separator only when `a` is
      non-empty and does not already end with one. */
  lemma JoinParts(a: string, b: string)
    ensures var r := Join(a, b);
            && |b| <= |r| && r[|r| - |b|..] == b
            && (|b| > 0 && b[0] == '/' ==> r == b)
            && ((|b| == 0 || b[0] != '/') ==>
                  r == (if a == [] || a[|a| - 1] == '/' then a else a + "/") + b)
  {
  }

  /** After a separator (or at the start), a name without separators is the
      basename. */
  lemma {:induction false} BasenameAfterSeparator(x: string, b: string)
    requires x == [] || x[|x| - 1] == '/'
    requires '/' !in b
    ensures Basename(x + b) == b
    decreases |b|
  {
    if b != [] {
      var front := b[..|b| - 1];
      BasenameAfterSeparator(x, front);
      assert (x + b)[..|x + b| - 1] == x + front;
      assert front + [b[|b| - 1]] == b;
    } else {
      assert x + b == x;
    }
  }

  lemma BasenameOfJoin(a: string, b: string)
    requires '/' !in b
    ensures Basename(Join(a, b)) == b
  {
    if !(|b| > 0 && b[0] == '/') {
      if a == [] || a[|a| - 1] == '/' {
        BasenameAfterSeparator(a, b);
      } else {
        BasenameAfterSeparator(a + "/", b);
        assert a + "/" + b == (a + "/") + b;
      }
    }
  }

  function Digit(d: nat): (c: char)
    requires d < 10
    ensures '0' <= c <= '9'
  {
    ('0' as int + d) as char
  }

  /** `str(n)` for a natural number: decimal digits without leading zeros. */
  function DecimalString(n: nat): (s: string)
    ensures |s| >= 1
    ensures forall i :: 0 <= i < |s| ==> '0' <= s[i] <= '9'
    ensures n >= 10 ==> |s| >= 2
  {
    if n < 10 then [Digit(n)] else DecimalString(n / 10) + [Digit(n % 10)]
  }

  /** Distinct numbers print differently. */
  lemma {:induction false} DecimalStringInjective(m: nat, n: nat)
    requires DecimalString(m) == DecimalString(n)
    ensures m == n
  {
    var s, t := DecimalString(m), DecimalString(n);
    if m < 10 && n < 10 {
      assert s[0] == Digit(m) && t[0] == Digit(n);
    } else if 10 <= m && 10 <= n {
      assert s[|s| - 1] == Digit(m % 10) && t[|t| - 1] == Digit(n % 10);
      assert s[..|s| - 1] == DecimalString(m / 10);
      assert t[..|t| - 1] == DecimalString(n / 10);
      DecimalStringInjective(m / 10, n / 10);
    }
  }

  /** The number a string of decimal digits denotes, read left to right
      (`int(s)` for digit strings). */
  function DigitsValue(s: string): nat
    requires forall i :: 0 <= i < |s| ==> '0' <= s[i] <= '9'
  {
    if s == [] then 0
    else DigitsValue(s[..|s| - 1]) * 10 + (s[|s| - 1] as int - '0' as int)
  }

  /** `str(n)` denotes `n`, and has no leading zero unless it is `"0"`. */
  lemma {:induction false} DecimalStringValue(n: nat)
    ensures DigitsValue(DecimalString(n)) == n
    ensures |DecimalString(n)| > 1 ==> DecimalString(n)[0] != '0'
  {
    var s := DecimalString(n);
    if n >= 10 {
      var t := DecimalString(n / 10);
      assert s[..|s| - 1] == t;
      DecimalStringValue(n / 10);
      assert s[0] == t[0];
      if |t| == 1 {
        assert t[0] == Digit(n / 10);
      }
    }
  }

  /** ASCII `str.lower()`. */
  function LowerChar(c: char): char {
    if 'A' <= c <= 'Z' then (c as int + 32) as char else c
  }

  /** ASCII `str.upper()`. */
  function UpperChar(c: char): char {
    if 'a' <= c <= 'z' then (c as int - 32) as char else c
  }

  function Lower(s: string): (r: string)
    ensures |r| == |s|
    ensures forall i :: 0 <= i < |s| ==> r[i] == LowerChar(s[i])
  {
    seq(|s|, i requires 0 <= i < |s| => LowerChar(s[i]))
  }

  function Upper(s: string): (r: string)
    ensures |r| == |s|
    ensures forall i :: 0 <= i < |s| ==> r[i] == UpperChar(s[i])
  {
    seq(|s|, i requires 0 <= i < |s| => UpperChar(s[i]))
  }

  /** `lower()` leaves no upper-case letter, keeps every other character,
      and lowering twice is lowering once. */
  lemma LowerIsLowerCase(s: string)
    ensures forall i :: 0 <= i < |s| ==> !('A' <= Lower(s)[i] <= 'Z')
    ensures forall i :: 0 <= i < |s| && !('A' <= s[i] <= 'Z') ==> Lower(s)[i] == s[i]
    ensures Lower(Lower(s)) == Lower(s)
  {
  }

  /** Lowering forgets the case: upper-casing first changes nothing. */
  lemma LowerUpper(s: string)
    ensures Lower(Upper(s)) == Lower(s)
  {
    forall i | 0 <= i < |s| ensures Lower(Upper(s))[i] == Lower(s)[i] {
      var c := s[i];
      if 'a' <= c <= 'z' {
        assert UpperChar(c) == (c as int - 32) as char;
      }
    }
  }

  /** `s.endswith(suffix)`. */
  predicate EndsWith(s: string, suffix: string) {
    |suffix| <= |s| && s[|s| - |suffix|..] == suffix
  }
}

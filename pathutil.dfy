/**
 * Paths and the string helpers the file manager applies to them: the
 * `os.path.splitext` extension split, ASCII lower-casing, substring search,
 * the string form of a path and `os.path.relpath`.
 */
module PathUtil {

  /** A path as the sequence of its name components; `p + [n]` is `os.path.join(p, n)`. */
  type Path = seq<string>

  /** The index of the last occurrence of `c` in `s`, or -1 (Python's `str.rfind`). */
  function LastIndexOf(s: string, c: char): (r: int)
    ensures -1 <= r < |s|
    ensures r >= 0 ==> s[r] == c
    ensures forall k :: r < k < |s| ==> s[k] != c
  {
    if |s| == 0 then -1
    else if s[|s| - 1] == c then |s| - 1
    else LastIndexOf(s[..|s| - 1], c)
  }

  predicate AllDots(s: string) {
    forall i :: 0 <= i < |s| ==> s[i] == '.'
  }

  /** The last component of a '/'-separated path string. */
  function Basename(p: string): string {
    p[LastIndexOf(p, '/') + 1..]
  }

  /**
   * `os.path.splitext` on a '/'-separated path string: the extension starts
   * at the last '.' of the final component, unless everything before that
   * '.' in the component is a dot (leading dots of a name do not count).
   */
  function SplitExt(p: string): (r: (string, string))
    ensures r.0 + r.1 == p
  {
    var sep := LastIndexOf(p, '/');
    var dot := LastIndexOf(p, '.');
    if dot > sep && !AllDots(p[sep + 1..dot]) then (p[..dot], p[dot..]) else (p, "")
  }

  /** The extension is empty, or a '.' followed by characters that are neither '.' nor '/'. */
  lemma ExtensionShape(p: string)
    ensures var e := SplitExt(p).1;
      e == "" || (e[0] == '.' && forall k :: 1 <= k < |e| ==> e[k] != '.' && e[k] != '/')
  {
    var sep := LastIndexOf(p, '/');
    var dot := LastIndexOf(p, '.');
    var e := SplitExt(p).1;
    if dot > sep && !AllDots(p[sep + 1..dot]) {
      assert e == p[dot..];
      SuffixAfterLast(p, dot, sep);
    }
  }

  /** After the last '.' and the last '/' of `p`, neither character occurs again. */
  lemma SuffixAfterLast(p: string, dot: int, sep: int)
    requires 0 <= dot < |p| && p[dot] == '.' && -1 <= sep < dot
    requires forall k :: dot < k < |p| ==> p[k] != '.'
    requires forall k :: sep < k < |p| ==> p[k] != '/'
    ensures var e := p[dot..]; e[0] == '.' && forall k :: 1 <= k < |e| ==> e[k] != '.' && e[k] != '/'
  {
    var e := p[dot..];
    forall k | 1 <= k < |e| ensures e[k] != '.' && e[k] != '/' {
      assert e[k] == p[dot + k];
    }
  }

  /**
   * The extension, characterised on the final component `b`: it is empty
   * exactly when no '.' of `b` has a non-dot before it; otherwise it is the
   * suffix of `b` from its last '.'.
   */
  lemma ExtensionOfBasename(p: string)
    ensures var b := Basename(p); var e := SplitExt(p).1;
      && (e == "" <==> forall i :: 0 <= i < |b| && b[i] == '.' ==> AllDots(b[..i]))
      && (e != "" ==> e == b[LastIndexOf(b, '.')..] && !AllDots(b[..LastIndexOf(b, '.')]))
  {
    var sep := LastIndexOf(p, '/');
    var dot := LastIndexOf(p, '.');
    var b := Basename(p);
    var e := SplitExt(p).1;
    var start := sep + 1;
    assert b == p[start..];
    var bd := LastIndexOf(b, '.');
    if dot > sep {
      assert b[dot - start] == '.';
      forall k | dot - start < k < |b| ensures b[k] != '.' {
        assert b[k] == p[start + k];
      }
      assert bd == dot - start;
      assert b[..bd] == p[start..dot];
      if !AllDots(p[start..dot]) {
        assert e == p[dot..] == b[bd..];
        assert !(AllDots(b[..bd]));
      } else {
        assert e == "";
        forall i | 0 <= i < |b| && b[i] == '.' ensures AllDots(b[..i]) {
          assert i <= bd;
          assert b[..i] == b[..bd][..i];
        }
      }
    } else {
      assert e == "";
      forall i | 0 <= i < |b| ensures b[i] != '.' {
        assert b[i] == p[start + i];
      }
    }
  }

  function LowerChar(c: char): char {
    if 'A' <= c <= 'Z' then (c as int + 32) as char else c
  }

  /** `str.lower()` restricted to ASCII letters. */
  function Lower(s: string): (r: string)
    ensures |r| == |s|
    ensures forall i :: 0 <= i < |s| ==> r[i] == LowerChar(s[i])
  {
    if s == [] then [] else Lower(s[..|s| - 1]) + [LowerChar(s[|s| - 1])]
  }

  /** `sub in s` on strings. */
  predicate Contains(s: string, sub: string) {
    exists i :: 0 <= i <= |s| - |sub| && OccursAt(s, sub, i)
  }

  predicate OccursAt(s: string, sub: string, i: int)
    requires 0 <= i <= |s| - |sub|
  {
    s[i..i + |sub|] == sub
  }

  lemma ContainsInLonger(s: string, t: string, u: string, sub: string)
    requires Contains(s, sub)
    ensures Contains(t + s + u, sub)
  {
    var i :| 0 <= i <= |s| - |sub| && OccursAt(s, sub, i);
    var w := t + s + u;
    assert w[|t| + i..|t| + i + |sub|] == s[i..i + |sub|];
    assert OccursAt(w, sub, |t| + i);
  }

  /** The string `os.path.join` builds from the components, separated by '/'. */
  function PathString(p: Path): string {
    if |p| == 0 then ""
    else if |p| == 1 then p[0]
    else PathString(p[..|p| - 1]) + "/" + p[|p| - 1]
  }

  /** Every component of a path occurs in its string form. */
  lemma {:induction false} ComponentInPathString(p: Path, k: nat)
    requires k < |p|
    ensures Contains(PathString(p), p[k])
  {
    var s := PathString(p);
    if |p| == 1 {
      assert s[0..|p[0]|] == p[0];
      assert OccursAt(s, p[k], 0);
    } else if k == |p| - 1 {
      var front := PathString(p[..|p| - 1]) + "/";
      assert s == front + p[k];
      assert s[|front|..|front| + |p[k]|] == p[k];
      assert OccursAt(s, p[k], |front|);
    } else {
      var q := p[..|p| - 1];
      assert q[k] == p[k];
      ComponentInPathString(q, k);
      ContainsInLonger(PathString(q), "", "/" + p[|p| - 1], p[k]);
      assert "" + PathString(q) + ("/" + p[|p| - 1]) == s;
    }
  }

  /** `q` is `root` itself or lies below it. */
  predicate IsUnder(root: Path, q: Path) {
    |root| <= |q| && q[..|root|] == root
  }

  /** `q` is an immediate entry of the directory `parent`. */
  predicate IsChild(parent: Path, q: Path) {
    |q| == |parent| + 1 && q[..|parent|] == parent
  }

  function CommonPrefixLength(a: Path, b: Path): (k: nat)
    ensures k <= |a| && k <= |b| && a[..k] == b[..k]
    ensures k < |a| && k < |b| ==> a[k] != b[k]
  {
    if |a| == 0 || |b| == 0 || a[0] != b[0] then 0
    else
      var k := CommonPrefixLength(a[1..], b[1..]);
      assert a[..k + 1] == [a[0]] + a[1..][..k];
      assert b[..k + 1] == [b[0]] + b[1..][..k];
      k + 1
  }

  /**
   * `os.path.relpath(p, base)` on component paths: one ".." per component of
   * `base` below the common prefix, then the rest of `p`. The "." that
   * Python returns for `p == base` is the empty path here.
   */
  function RelPath(p: Path, base: Path): (r: Path)
    ensures IsUnder(base, p) ==> base + r == p
  {
    var k := CommonPrefixLength(p, base);
    assert IsUnder(base, p) ==> forall j :: 0 <= j < |base| ==> p[j] == p[..|base|][j] == base[j];
    seq(|base| - k, _ => "..") + p[k..]
  }

  /** For a folder below the base, the relative path is what follows the base. */
  lemma RelPathBelowBase(base: Path, rest: Path)
    ensures RelPath(base + rest, base) == rest
  {
    var p := base + rest;
    var k := CommonPrefixLength(p, base);
    forall j | 0 <= j < |base| ensures p[j] == base[j] { }
    assert k == |base|;
    assert p[k..] == rest;
  }
}

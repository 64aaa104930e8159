/** String and path helpers with the semantics of the Python built-ins the
    pipeline calls: `str.lower`, `str.endswith`, `os.path.splitext`,
    `os.path.join` and `s.split('/')[-1]` (POSIX flavour). */
module PathNames {

  /** Lower-cases the ASCII letters A-Z and leaves every other character alone. */
  function LowerChar(c: char): (r: char)
    ensures 'A' <= c <= 'Z' ==> 'a' <= r <= 'z' && r as int - c as int == 32
    ensures !('A' <= c <= 'Z') ==> r == c
  {
    if 'A' <= c <= 'Z' then (c as int + 32) as char else c
  }

  function Lower(s: string): (r: string)
    ensures |r| == |s|
    ensures forall i :: 0 <= i < |s| ==> r[i] == LowerChar(s[i])
  {
    if s == [] then [] else [LowerChar(s[0])] + Lower(s[1..])
  }

  predicate EndsWith(s: string, suffix: string)
  {
    |suffix| <= |s| && s[|s| - |suffix|..] == suffix
  }

  /** Index of the last occurrence of `c` in `s`, or -1 (Python's `str.rfind`). */
  function LastIndexOf(s: string, c: char): (r: int)
    ensures -1 <= r < |s|
    ensures r == -1 ==> c !in s
    ensures r >= 0 ==> s[r] == c
    ensures forall i :: r < i < |s| ==> s[i] != c
  {
    if s == [] then -1
    else if s[|s| - 1] == c then |s| - 1
    else LastIndexOf(s[..|s| - 1], c)
  }

  /** True when some character of s[lo..hi] is not a dot. */
  predicate HasNonDot(s: string, lo: int, hi: int)
    requires 0 <= lo <= hi <= |s|
  {
    exists i :: lo <= i < hi && s[i] != '.'
  }

  /** A split of a path into root and extension that `os.path.splitext` accepts:
      the extension is a dot followed by neither a dot nor a separator, and the
      root's last component holds a character other than a dot (so leading dots
      of a name never start an extension). */
  ghost predicate IsExtSplit(root: string, ext: string)
  {
    && |ext| >= 1 && ext[0] == '.'
    && (forall i :: 1 <= i < |ext| ==> ext[i] != '.' && ext[i] != '/')
    && exists i :: 0 <= i < |root| && root[i] != '.' && '/' !in root[i..]
  }

  /** `os.path.splitext(p)`: the last dot after the last separator starts the
      extension, unless only dots precede it within the final component. */
  function SplitExt(p: string): (r: (string, string))
    ensures r.0 + r.1 == p
    ensures r.1 == [] || IsExtSplit(r.0, r.1)
  {
    var sep := LastIndexOf(p, '/');
    var dot := LastIndexOf(p, '.');
    if dot > sep && HasNonDot(p, sep + 1, dot) then
      SplitAtLastDot(p, sep, dot);
      (p[..dot], p[dot..])
    else
      (p, [])
  }

  /** Splitting at the last dot, when that dot follows the last separator and
      some non-dot character lies between them, is an acceptable split. */
  lemma SplitAtLastDot(p: string, sep: int, dot: int)
    requires -1 <= sep < dot < |p| && p[dot] == '.'
    requires forall i :: sep < i < |p| ==> p[i] != '/'
    requires forall i :: dot < i < |p| ==> p[i] != '.'
    requires HasNonDot(p, sep + 1, dot)
    ensures p[..dot] + p[dot..] == p
    ensures IsExtSplit(p[..dot], p[dot..])
  {
    var root, ext := p[..dot], p[dot..];
    assert root + ext == p;
    assert forall i :: 1 <= i < |ext| ==> ext[i] == p[dot + i];
    var k :| sep + 1 <= k < dot && p[k] != '.';
    assert root[k..] == p[k..dot];
    assert root[k] != '.' && '/' !in root[k..];
  }

  /** The title of a file: `os.path.splitext(name)[0]`. */
  function Stem(name: string): (r: string)
    ensures r <= name
  {
    SplitExt(name).0
  }

  /** `s.split('/')[-1]`: everything after the last '/'. */
  function LastSegment(s: string): (r: string)
    ensures '/' !in r
    ensures |r| <= |s| && r == s[|s| - |r|..]
    ensures |r| < |s| ==> s[|s| - |r| - 1] == '/'
  {
    s[LastIndexOf(s, '/') + 1..]
  }

  /** `os.path.join(a, b)` for two components. */
  function Join(a: string, b: string): (r: string)
    ensures |b| > 0 && b[0] == '/' ==> r == b
    ensures EndsWith(r, b)
    ensures !(|b| > 0 && b[0] == '/') ==> r == a + b || r == a + "/" + b
    ensures !(|b| > 0 && b[0] == '/') ==> (r == a + "/" + b <==> a != [] && a[|a| - 1] != '/')
  {
    if |b| > 0 && b[0] == '/' then b
    else if a == [] || a[|a| - 1] == '/' then a + b
    else a + "/" + b
  }

  /** The converse of SplitExt's contract: whenever `p` can be split into a root
      and an extension that `os.path.splitext` accepts, that split is the one it
      returns. Together they characterise the result completely: the extension is
      empty exactly when no acceptable split exists. */
  lemma {:induction false} SplitExtFindsEveryExtension(root: string, ext: string)
    requires IsExtSplit(root, ext)
    ensures SplitExt(root + ext) == (root, ext)
  {
    var p := root + ext;
    assert forall i :: |root| < i < |p| ==> p[i] == ext[i - |root|];
    assert p[|root|] == '.';
    var dot := LastIndexOf(p, '.');
    assert dot == |root|;
    var k :| 0 <= k < |root| && root[k] != '.' && '/' !in root[k..];
    var sep := LastIndexOf(p, '/');
    assert sep < k;
    assert p[k] == root[k];
    assert HasNonDot(p, sep + 1, dot);
    assert p[..dot] == root && p[dot..] == ext;
  }

  /** Characters after the last occurrence do not move it. */
  lemma {:induction false} LastIndexOfSkips(x: string, y: string, c: char)
    requires c !in y
    ensures LastIndexOf(x + y, c) == LastIndexOf(x, c)
    ensures x != [] && x[|x| - 1] == c ==> LastIndexOf(x, c) == |x| - 1
  {
    if y != [] {
      assert (x + y)[..|x + y| - 1] == x + y[..|y| - 1];
      LastIndexOfSkips(x, y[..|y| - 1], c);
    } else {
      assert x + y == x;
    }
  }

  /** `split('/')[-1]` of `a + "/" + b` is `b` when `b` holds no separator. */
  lemma LastSegmentAfterSlash(a: string, b: string)
    requires '/' !in b
    ensures LastSegment(a + "/" + b) == b
  {
    LastIndexOfSkips(a + "/", b, '/');
    assert (a + "/" + b)[|a| + 1..] == b;
  }

  /** `Lower` leaves a string without upper-case ASCII letters unchanged. */
  lemma LowerKeepsLowerCase(s: string)
    requires forall i :: 0 <= i < |s| ==> !('A' <= s[i] <= 'Z')
    ensures Lower(s) == s
  {
  }

  /** Concrete titles: a plain name loses its extension, and only the last
      extension goes. */
  lemma StemExamples()
    ensures Stem("B.jpg") == "B"
    ensures Stem("a.b.PNG") == "a.b"
  {
    assert "B"[0] != '.' && "B"[0..] == "B";
    SplitExtFindsEveryExtension("B", ".jpg");
    assert "B" + ".jpg" == "B.jpg";
    assert "a.b"[2] != '.' && "a.b"[2..] == "b";
    SplitExtFindsEveryExtension("a.b", ".PNG");
    assert "a.b" + ".PNG" == "a.b.PNG";
  }

  /** Concrete titles: a name whose only dots lead it has no extension and
      keeps its whole text. */
  lemma LeadingDotExamples()
    ensures Stem(".jpg") == ".jpg"
    ensures Stem("..heic") == "..heic"
  {
    assert LastIndexOf(".jpg", '.') == 0 by {
      assert ".jpg"[..3] == ".jp" && ".jp"[..2] == ".j" && ".j"[..1] == ".";
    }
    assert LastIndexOf("..heic", '.') == 1 by {
      assert "..heic"[..5] == "..hei" && "..hei"[..4] == "..he";
      assert "..he"[..3] == "..h" && "..h"[..2] == "..";
    }
  }
}

/** POSIX path text as Python's `os.path` computes it: `join`, `dirname`,
    `basename` and `splitext`. Nothing here looks at a real file system. */
module Paths {
  import Strings

  /** `os.path.join(a, b)`: an absolute `b` replaces `a`; otherwise one '/'
      separates them unless `a` is empty or already ends with '/'. */
  function Join(a: string, b: string): (r: string)
    ensures |b| > 0 && b[0] == '/' ==> r == b
    ensures (|b| == 0 || b[0] != '/') && a != [] && a[|a| - 1] != '/' ==> r == a + "/" + b
  {
    if |b| > 0 && b[0] == '/' then b
    else if a == [] || a[|a| - 1] == '/' then a + b
    else a + "/" + b
  }

  /** `os.path.join(a, b, c)`. */
  function Join3(a: string, b: string, c: string): string {
    Join(Join(a, b), c)
  }

  /** `s.rstrip(c)`. */
  function RStripChar(s: string, c: char): (r: string)
    ensures |r| <= |s| && r == s[..|r|]
    ensures r == [] || r[|r| - 1] != c
    ensures forall i :: |r| <= i < |s| ==> s[i] == c
    decreases |s|
  {
    if s != [] && s[|s| - 1] == c then RStripChar(s[..|s| - 1], c) else s
  }

  predicate AllSlashes(s: string) {
    forall i :: 0 <= i < |s| ==> s[i] == '/'
  }

  /** `os.path.basename(p)`: everything after the last '/'. */
  function Basename(p: string): (r: string)
    ensures '/' !in r
  {
    var k := Strings.RFind(p, '/');
    p[k + 1..]
  }

  /** `os.path.dirname(p)`: everything up to the last '/', with trailing
      slashes removed unless nothing but slashes is left. */
  function Dirname(p: string): string {
    var head := p[..Strings.RFind(p, '/') + 1];
    if head != [] && !AllSlashes(head) then RStripChar(head, '/') else head
  }

  /** When the last '/' of `p` is not doubled, `dirname` and `basename` split
      `p` at that slash and joining them gives `p` back. */
  lemma {:induction false} DirnameBasenameJoin(p: string)
    requires '/' in p
    requires var k := Strings.RFind(p, '/'); k == 0 || p[k - 1] != '/'
    ensures Join(Dirname(p), Basename(p)) == p
  {
    var k := Strings.RFind(p, '/');
    var b := p[k + 1..];
    assert Basename(p) == b;
    DirnameAtLastSlash(p);
    JoinAtSlash(p, k);
  }

  /** Joining the text before and after the slash at `k` gives `p` back. */
  lemma {:induction false} JoinAtSlash(p: string, k: int)
    requires 0 <= k < |p| && p[k] == '/'
    requires k == 0 || p[k - 1] != '/'
    requires k + 1 == |p| || p[k + 1] != '/'
    ensures Join(if k == 0 then "/" else p[..k], p[k + 1..]) == p
  {
    var b := p[k + 1..];
    assert b == [] || b[0] != '/' by {
      if b != [] { assert b[0] == p[k + 1]; }
    }
    SplitAtSlash(p, k);
    if k == 0 {
      assert Join("/", b) == "/" + b;
      assert p[..k] == [];
    } else {
      var d := p[..k];
      assert d[|d| - 1] != '/';
      assert Join(d, b) == d + "/" + b;
    }
  }

  lemma {:induction false} SplitAtSlash(p: string, k: int)
    requires 0 <= k < |p| && p[k] == '/'
    ensures p == p[..k] + "/" + p[k + 1..]
  {
    assert p[k..] == [p[k]] + p[k + 1..];
    assert p == p[..k] + p[k..];
  }

  lemma {:induction false} DirnameAtLastSlash(p: string)
    requires '/' in p
    requires var k := Strings.RFind(p, '/'); k == 0 || p[k - 1] != '/'
    ensures var k := Strings.RFind(p, '/');
      Dirname(p) == if k == 0 then "/" else p[..k]
  {
    var k := Strings.RFind(p, '/');
    var head := p[..k + 1];
    if k == 0 {
      assert head == "/";
      assert AllSlashes(head);
    } else {
      assert !AllSlashes(head) by { assert head[k - 1] != '/'; }
      StripOneSlash(p[..k]);
      assert head == p[..k] + "/";
    }
  }

  lemma {:induction false} StripOneSlash(d: string)
    requires d != [] && d[|d| - 1] != '/'
    ensures RStripChar(d + "/", '/') == d
  {
    assert (d + "/")[..|d|] == d;
  }

  /** The index of the '.' that starts the extension, if any: the last '.',
      after the last '/', with a character other than '.' between that '/'
      and the dot (so a leading dot of a hidden file does not count). */
  function ExtensionStart(p: string): (r: int)
    ensures -1 <= r < |p|
    ensures 0 <= r ==> p[r] == '.' && '.' !in p[r + 1..] && '/' !in p[r + 1..]
  {
    var sep := Strings.RFind(p, '/');
    var dot := Strings.RFind(p, '.');
    if dot > sep && exists j :: sep + 1 <= j < dot && p[j] != '.' then
      var tail := p[dot + 1..];
      assert forall i :: 0 <= i < |tail| ==> tail[i] == p[dot + 1 + i] && tail[i] != '.' && tail[i] != '/';
      dot
    else -1
  }

  /** `os.path.splitext(p)`: `(root, ext)` with `root + ext == p`, where `ext`
      is empty or is a '.' followed by text without '.' or '/'. */
  function Splitext(p: string): (r: (string, string))
    ensures r.0 + r.1 == p
    ensures r.1 == [] || (r.1[0] == '.' && '.' !in r.1[1..] && '/' !in r.1)
  {
    var k := ExtensionStart(p);
    if k < 0 then (p, "")
    else
      assert p[k..] == [p[k]] + p[k + 1..];
      (p[..k], p[k..])
  }
}

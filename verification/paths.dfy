/**
 * The path helpers the queue relies on: `os.path.basename`, the stem that
 * `os.path.splitext(os.path.basename(p))[0]` yields, and the `.png` test of
 * the per-file loops. The host's separators are a parameter (`{'/'}` on POSIX,
 * `{'\\', '/'}` on Windows).
 */
module Paths {

  /** The text after the last separator of `p`. */
  function BaseName(p: string, seps: set<char>): string
    decreases |p|
  {
    if p == [] || p[|p| - 1] in seps then []
    else BaseName(p[..|p| - 1], seps) + [p[|p| - 1]]
  }

  /** The base name is the longest tail of `p` without a separator. */
  lemma {:induction false} BaseNameShape(p: string, seps: set<char>)
    ensures var b := BaseName(p, seps);
      |b| <= |p| && b == p[|p| - |b|..] &&
      (forall i :: 0 <= i < |b| ==> b[i] !in seps) &&
      (|b| < |p| ==> p[|p| - |b| - 1] in seps)
    decreases |p|
  {
    if p != [] && p[|p| - 1] !in seps {
      var init := p[..|p| - 1];
      BaseNameShape(init, seps);
      var b0 := BaseName(init, seps);
      assert init[|init| - |b0|..] + [p[|p| - 1]] == p[|p| - |b0| - 1..];
    }
  }

  /** Index of the last '.', or -1 when there is none. */
  function LastDot(s: string): (i: int)
    ensures -1 <= i < |s|
    ensures i >= 0 ==> s[i] == '.'
    ensures forall j :: i < j < |s| ==> s[j] != '.'
    decreases |s|
  {
    if s == [] then -1
    else if s[|s| - 1] == '.' then |s| - 1
    else LastDot(s[..|s| - 1])
  }

  predicate AllDots(s: string) { forall i :: 0 <= i < |s| ==> s[i] == '.' }

  /**
   * `os.path.splitext(name)[0]` for a name without separators: the last
   * extension is dropped, unless everything before its dot is dots
   * (".bashrc" and "..x" keep their whole text).
   */
  function Stem(name: string): string
  {
    var d := LastDot(name);
    if d >= 0 && !AllDots(name[..d]) then name[..d] else name
  }

  /** The stem is the whole name, or the name cut at its last dot, with something other than dots before it. */
  lemma StemShape(name: string)
    ensures var stem := Stem(name);
      |stem| <= |name| && stem == name[..|stem|] &&
      (stem == name || (name[|stem|] == '.' && !AllDots(stem) &&
        forall j :: |stem| < j < |name| ==> name[j] != '.'))
  {
  }

  /** A name whose text before its last dot holds something other than dots loses the extension. */
  lemma StemDropsExtension(name: string, ext: string)
    requires !AllDots(name) && |ext| >= 1 && ext[0] == '.'
    requires forall j :: 0 <= j < |ext| ==> (ext[j] == '.' <==> j == 0)
    ensures Stem(name + ext) == name
  {
    var s := name + ext;
    assert s[|name|] == '.';
    assert forall j :: |name| < j < |s| ==> s[j] == ext[j - |name|] && s[j] != '.';
    var d := LastDot(s);
    assert d == |name|;
    assert s[..d] == name;
  }

  /** The name the queue gives a video by default: its file name without the extension. */
  function FileStem(path: string, seps: set<char>): string
  {
    Stem(BaseName(path, seps))
  }

  /** The default name holds no separator and is no longer than the path. */
  lemma FileStemShape(path: string, seps: set<char>)
    ensures var stem := FileStem(path, seps);
      |stem| <= |path| && forall i :: 0 <= i < |stem| ==> stem[i] !in seps
  {
    var b := BaseName(path, seps);
    BaseNameShape(path, seps);
    StemShape(b);
    assert forall i :: 0 <= i < |Stem(b)| ==> Stem(b)[i] == b[i];
  }

  /** Python's `name.endswith(".png")`. */
  predicate IsPng(name: string)
  {
    |name| >= 4 && name[|name| - 4..] == ".png"
  }
}

/** The file system and the network as values, and the few `path` helpers the commands use,
    with POSIX separators. */
module Paths {
  import opened Wrappers
  import opened Strings

  /** The files on disk: path to contents; a path that is not a key does not exist. */
  type Files = map<string, string>

  /** Everything the commands read from outside: the disk, the answers a fetch of each URL
      would give (a missing URL is a failed or timed-out request), the working directory
      and the home directory. */
  datatype Env = Env(files: Files, urls: map<string, string>, cwd: string, home: string)

  function Read(files: Files, p: string): Option<string> {
    if p in files then Some(files[p]) else None
  }

  predicate SchemeChar(c: char) {
    'a' <= c <= 'z' || 'A' <= c <= 'Z' || '0' <= c <= '9' || c == '+' || c == '-' || c == '.'
  }

  /** Whether `new URL(s)` succeeds, simplified to "a scheme and a colon": a letter, then
      letters, digits, `+`, `-` or `.`, then `:`. */
  predicate IsUrl(s: string) {
    match IndexOfChar(s, ':')
    case None => false
    case Some(k) =>
      && k > 0
      && ('a' <= s[0] <= 'z' || 'A' <= s[0] <= 'Z')
      && forall i :: 0 < i < k ==> SchemeChar(s[i])
  }

  /** `path.isAbsolute`. */
  predicate IsAbsolute(p: string) {
    |p| > 0 && p[0] == '/'
  }

  /** `path.resolve(cwd, p)` without normalising `.` and `..`. */
  function Resolve(cwd: string, p: string): (r: string)
    ensures IsAbsolute(p) ==> r == p
    ensures !IsAbsolute(p) ==> EndsWith(r, "/" + p)
  {
    if IsAbsolute(p) then p else cwd + "/" + p
  }

  /** Position just after the last `/` of `p`, 0 when there is none. */
  function LastSlashEnd(p: string): (k: nat)
    ensures k <= |p|
    ensures forall i :: k <= i < |p| ==> p[i] != '/'
    ensures k > 0 ==> p[k - 1] == '/'
    decreases |p|
  {
    if |p| == 0 then 0
    else if p[|p| - 1] == '/' then |p|
    else LastSlashEnd(p[..|p| - 1])
  }

  /** `path.basename(p)`: the text after the last `/`. */
  function Basename(p: string): (b: string)
    ensures '/' !in b
    ensures EndsWith(p, b)
    ensures '/' !in p ==> b == p
  {
    var k := LastSlashEnd(p);
    assert forall i :: 0 <= i < |p| - k ==> p[k..][i] == p[k + i];
    p[k..]
  }

  /** `path.basename(p, ext)`: the basename, with `ext` removed when it ends with it and
      something is left in front. */
  function BasenameWithout(p: string, ext: string): (b: string)
    ensures '/' !in b
    ensures Basename(p) == b || Basename(p) == b + ext
  {
    var base := Basename(p);
    if |ext| < |base| && EndsWith(base, ext) then
      var b := base[..|base| - |ext|];
      NoSlashInPrefix(base, |base| - |ext|);
      assert base == b + ext;
      b
    else base
  }

  lemma NoSlashInPrefix(s: string, n: nat)
    requires n <= |s| && '/' !in s
    ensures '/' !in s[..n]
  {
    assert forall i :: 0 <= i < n ==> s[..n][i] == s[i];
  }

  /** Position of the last `.` in `s`, if any. */
  function LastDot(s: string): (r: Option<nat>)
    ensures r.Some? ==> r.value < |s| && s[r.value] == '.'
    ensures r.Some? ==> forall i :: r.value < i < |s| ==> s[i] != '.'
    ensures r.None? ==> forall i :: 0 <= i < |s| ==> s[i] != '.'
    decreases |s|
  {
    if |s| == 0 then None
    else if s[|s| - 1] == '.' then Some(|s| - 1)
    else
      match LastDot(s[..|s| - 1])
      case None => None
      case Some(k) => Some(k)
  }

  /** `path.extname(p)`: the basename from its last `.` on, or "" when the basename has no
      `.` or only a leading one. */
  function Extname(p: string): (e: string)
    ensures e == [] || (e[0] == '.' && '.' !in e[1..])
    ensures EndsWith(Basename(p), e)
    ensures |e| < |Basename(p)| || e == []
  {
    var base := Basename(p);
    match LastDot(base)
    case None => ""
    case Some(k) =>
      if k == 0 then ""
      else
        var e := base[k..];
        assert e[0] == '.';
        assert forall i :: 0 <= i < |e| - 1 ==> e[1..][i] == base[k + 1 + i];
        assert '.' !in e[1..];
        assert base[|base| - |e|..] == e;
        e
  }

  /** The name a file path gets as a composition rule: its basename without its extension. */
  lemma NameOfMarkdownFile(dir: string, stem: string)
    requires '/' !in stem && '.' !in stem && stem != []
    ensures BasenameWithout(dir + "/" + stem + ".md", Extname(dir + "/" + stem + ".md")) == stem
  {
    var p := dir + "/" + stem + ".md";
    var k := LastSlashEnd(p);
    assert p[|dir|] == '/';
    assert forall i :: |dir| < i < |p| ==> p[i] != '/';
    assert forall i :: 0 <= i < |stem| ==> p[|dir| + 1 + i] == stem[i];
    assert k == |dir| + 1;
    var base := p[k..];
    assert base == stem + ".md";
    var d := LastDot(base);
    assert forall i :: 0 <= i < |stem| ==> base[i] == stem[i];
    assert base[|stem|] == '.' && base[|stem| + 1..] == "md";
    assert d == Some(|stem|);
    assert base[|stem|..] == ".md";
    assert base[..|base| - 3] == stem;
  }
}

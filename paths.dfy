/**
 * The string operations the file service uses to build remote paths:
 * `TrimStart` and `TrimEnd` of one character, the file name of a local
 * path, the merge of a relative name into a base path (section 5.2.3 of
 * RFC 3986), and ordinal case-insensitive equality restricted to ASCII.
 *
 * A remote location is modelled by the path component of its URI; the
 * scheme and authority are the one configured server and are left out.
 */
module Paths {

  /** All leading occurrences of `c` removed, as .NET's `TrimStart(c)`. */
  function TrimStart(s: string, c: char): (r: string)
    ensures |r| <= |s| && r == s[|s| - |r|..]
    ensures r == [] || r[0] != c
    ensures forall i :: 0 <= i < |s| - |r| ==> s[i] == c
    decreases |s|
  {
    if s != [] && s[0] == c then TrimStart(s[1..], c) else s
  }

  /** All trailing occurrences of `c` removed, as .NET's `TrimEnd(c)`. */
  function TrimEnd(s: string, c: char): (r: string)
    ensures r <= s
    ensures r == [] || r[|r| - 1] != c
    ensures forall i :: |r| <= i < |s| ==> s[i] == c
    decreases |s|
  {
    if s != [] && s[|s| - 1] == c then TrimEnd(s[..|s| - 1], c) else s
  }

  /** The index of the last `c` in `s`, or -1 when there is none. */
  function LastIndexOf(s: string, c: char): (i: int)
    ensures -1 <= i < |s|
    ensures i >= 0 ==> s[i] == c
    ensures forall j :: i < j < |s| ==> s[j] != c
    decreases |s|
  {
    if s == [] then -1
    else if s[|s| - 1] == c then |s| - 1
    else LastIndexOf(s[..|s| - 1], c)
  }

  /** The file name of a local path: everything after its last '/'. */
  function Basename(path: string): (name: string)
    ensures '/' !in name
    ensures |name| <= |path| && name == path[|path| - |name|..]
    ensures |name| < |path| ==> path[|path| - |name| - 1] == '/'
  {
    path[LastIndexOf(path, '/') + 1..]
  }

  /**
   * All but the last segment of a base path: everything up to and
   * including its last '/'. A base without any '/' is an empty path under
   * an authority, which stands for "/".
   */
  function MergeBase(base: string): (prefix: string)
    ensures prefix != [] && prefix[|prefix| - 1] == '/'
    ensures '/' in base ==> prefix <= base && '/' !in base[|prefix|..]
    ensures '/' !in base ==> prefix == "/"
  {
    var i := LastIndexOf(base, '/');
    if i < 0 then "/" else base[..i + 1]
  }

  /**
   * A relative-path reference in the sense of section 4.2 of RFC 3986 that
   * is resolved by merging: not empty and not starting with '/'.
   */
  predicate RelativeName(reference: string)
  {
    reference != [] && reference[0] != '/'
  }

  /**
   * The path of `new Uri(baseUri, reference)`, following section 5.2.2 of
   * RFC 3986: an empty reference keeps the base path, a reference starting
   * with '/' replaces it, and any other reference is merged (section 5.2.3),
   * appended to all but the last segment of the base path.
   */
  function Resolve(base: string, reference: string): string
  {
    if reference == [] then base
    else if reference[0] == '/' then reference
    else MergeBase(base) + reference
  }

  /** Against the same base, two relative names resolve to the same path exactly when they are equal. */
  lemma {:induction false} ResolveIsInjective(base: string, a: string, b: string)
    requires RelativeName(a) && RelativeName(b)
    ensures Resolve(base, a) == Resolve(base, b) <==> a == b
  {
    var prefix := MergeBase(base);
    assert a == (prefix + a)[|prefix|..];
    assert b == (prefix + b)[|prefix|..];
  }

  /** The upload target of `UploadFileAsync`: `/{remotePath without leading '/'}/{file name}`. */
  function UploadPath(remotePath: string, localPath: string): string
  {
    "/" + TrimStart(remotePath, '/') + "/" + Basename(localPath)
  }

  /** The base path `ReplaceFileAsync` lists: `/{remotePath without trailing '/'}`. */
  function DirectoryPath(remotePath: string): string
  {
    "/" + TrimEnd(remotePath, '/')
  }

  /** The target of `DeleteFileAsync`: the remote path, leading '/' removed, resolved against the server root. */
  function DeletePath(remotePath: string): string
  {
    Resolve("/", TrimStart(remotePath, '/'))
  }

  /** ASCII case folding: the ordinal ignore-case comparison restricted to ASCII letters. */
  function FoldCase(c: char): char
  {
    if 'A' <= c <= 'Z' then (c as int + 32) as char else c
  }

  /** `a.Equals(b, StringComparison.OrdinalIgnoreCase)` over ASCII. */
  predicate EqualsIgnoreCase(a: string, b: string)
  {
    |a| == |b| && forall i :: 0 <= i < |a| ==> FoldCase(a[i]) == FoldCase(b[i])
  }

  /** Ignore-case equality is an equivalence relation that contains plain equality. */
  lemma {:induction false} EqualsIgnoreCaseIsEquivalence(a: string, b: string, c: string)
    ensures EqualsIgnoreCase(a, a)
    ensures EqualsIgnoreCase(a, b) ==> EqualsIgnoreCase(b, a)
    ensures EqualsIgnoreCase(a, b) && EqualsIgnoreCase(b, c) ==> EqualsIgnoreCase(a, c)
  {
  }

  /** Names that differ only in the case of ASCII letters are equal ignoring case. */
  lemma {:induction false} CaseVariantsAreEqual()
    ensures EqualsIgnoreCase("A.txt", "a.txt")
    ensures !EqualsIgnoreCase("B.txt", "A.txt")
  {
    var upper, lower := "A.txt", "a.txt";
    assert upper[0] == 'A' && lower[0] == 'a';
    forall i | 1 <= i < |upper| ensures FoldCase(upper[i]) == FoldCase(lower[i]) {
      assert upper[i] == lower[i];
    }
    assert FoldCase("B.txt"[0]) == 'b';
  }

  /** Stripping leading characters distributes over an append when something is left of the prefix. */
  lemma {:induction false} TrimStartAppend(s: string, t: string, c: char)
    requires TrimStart(s, c) != []
    ensures TrimStart(s + t, c) == TrimStart(s, c) + t
    decreases |s|
  {
    assert (s + t)[0] == s[0];
    if s[0] == c {
      assert (s + t)[1..] == s[1..] + t;
      TrimStartAppend(s[1..], t, c);
      assert TrimStart(s + t, c) == TrimStart(s[1..] + t, c);
    } else {
      assert TrimStart(s, c) == s;
    }
  }

  /** The file name of `dir + "/" + name` is `name` whenever `name` holds no '/'. */
  lemma {:induction false} BasenameAfterSlash(dir: string, name: string)
    requires '/' !in name
    ensures Basename(dir + "/" + name) == name
  {
    var p := dir + "/" + name;
    assert p[|dir|] == '/';
    assert forall j :: |dir| < j < |p| ==> p[j] == name[j - |dir| - 1];
    assert LastIndexOf(p, '/') == |dir|;
    assert p[|dir| + 1..] == name;
  }

  /** A name without any '/' is its own file name. */
  lemma {:induction false} BasenameOfPlainName(name: string)
    requires '/' !in name
    ensures Basename(name) == name
  {
    assert LastIndexOf(name, '/') == -1;
    assert name[0..] == name;
  }

  /** Resolving against the server root puts the reference directly under it. */
  lemma {:induction false} ResolveAtRoot(reference: string)
    requires reference == [] || reference[0] != '/'
    ensures Resolve("/", reference) == "/" + reference
  {
    assert LastIndexOf("/", '/') == 0;
  }

  /** The file `UploadFileAsync` writes is named after the local file. */
  lemma {:induction false} UploadPathNamesLocalFile(remotePath: string, localPath: string)
    ensures Basename(UploadPath(remotePath, localPath)) == Basename(localPath)
  {
    BasenameAfterSlash("/" + TrimStart(remotePath, '/'), Basename(localPath));
  }

  /** A direct delete resolves its path, leading '/' removed, directly under the server root. */
  lemma {:induction false} DeletePathIsRooted(remotePath: string)
    ensures DeletePath(remotePath) == "/" + TrimStart(remotePath, '/')
  {
    ResolveAtRoot(TrimStart(remotePath, '/'));
  }

  /**
   * A direct delete of `{remotePath}/{file name}` targets the very path an
   * upload of that file to `remotePath` writes, as long as the remote path
   * is not made of '/' alone.
   */
  lemma {:induction false} DeletePathUndoesUploadPath(remotePath: string, localPath: string)
    requires TrimStart(remotePath, '/') != []
    ensures DeletePath(remotePath + "/" + Basename(localPath)) == UploadPath(remotePath, localPath)
  {
    DeletePathOfChild(remotePath, Basename(localPath));
  }

  /** A direct delete of `{remotePath}/{name}` targets `/{remotePath without leading '/'}/{name}`. */
  lemma {:induction false} DeletePathOfChild(remotePath: string, name: string)
    requires TrimStart(remotePath, '/') != []
    ensures DeletePath(remotePath + "/" + name) == "/" + TrimStart(remotePath, '/') + "/" + name
  {
    TrimStartOfChild(remotePath, name);
    DeletePathIsRooted(remotePath + "/" + name);
  }

  /** Trimming leading '/' from `{remotePath}/{name}` trims only within the remote path when something of it is left. */
  lemma {:induction false} TrimStartOfChild(remotePath: string, name: string)
    requires TrimStart(remotePath, '/') != []
    ensures TrimStart(remotePath + "/" + name, '/') == TrimStart(remotePath, '/') + "/" + name
  {
    assert remotePath + "/" + name == remotePath + ("/" + name);
    TrimStartAppend(remotePath, "/" + name, '/');
  }

  /**
   * A name with no '/' that the replace operation resolves against a
   * directory other than the server root lands beside that directory, never
   * inside it.
   */
  lemma {:induction false} ResolvedNameIsOutsideDirectory(remotePath: string, name: string)
    requires TrimEnd(remotePath, '/') != []
    requires '/' !in name
    ensures !(DirectoryPath(remotePath) + "/" <= Resolve(DirectoryPath(remotePath), name))
  {
    var base := DirectoryPath(remotePath);
    if name != [] {
      var prefix := MergeBase(base);
      var r := prefix + name;
      assert base[0] == '/';
      // The merged prefix ends at the last '/' of the base, so it is no longer than the base.
      assert |prefix| <= |base|;
      if |r| > |base| {
        assert r[|base|] == name[|base| - |prefix|];
      }
    }
  }

  /** For a one-segment remote directory, replace resolves every name at the server root. */
  lemma {:induction false} ResolveInTopLevelDirectory(remotePath: string, name: string)
    requires '/' !in TrimEnd(remotePath, '/')
    requires RelativeName(name)
    ensures Resolve(DirectoryPath(remotePath), name) == "/" + name
  {
    var dir := TrimEnd(remotePath, '/');
    var base := DirectoryPath(remotePath);
    assert base == "/" + dir;
    assert base[0] == '/';
    assert forall j :: 1 <= j < |base| ==> base[j] == dir[j - 1] && base[j] != '/';
    assert LastIndexOf(base, '/') == 0;
    assert base[..1] == "/";
  }

  /**
   * For a one-segment directory `dir`, upload writes `/dir/{file name}` while
   * replace, for the same arguments, writes `/{file name}` beside `dir`.
   */
  lemma {:induction false} UploadAndReplaceTargetsDiffer(dir: string, localPath: string)
    requires dir != [] && '/' !in dir
    requires Basename(localPath) != []
    ensures UploadPath(dir, localPath) == "/" + dir + "/" + Basename(localPath)
    ensures Resolve(DirectoryPath(dir), Basename(localPath)) == "/" + Basename(localPath)
  {
    assert dir[0] != '/' && dir[|dir| - 1] != '/';
    assert TrimStart(dir, '/') == dir;
    assert TrimEnd(dir, '/') == dir;
    ResolveInTopLevelDirectory(dir, Basename(localPath));
  }
}

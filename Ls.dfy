// user/ls.c: fmtname, which turns a path into the column printed for it
// (its last element, blank-padded to DIRSIZ in a static buffer), and the
// construction of each child's path when ls lists a directory.
module Ls {
  import opened Param
  import opened CStrings
  import Dirent

  const SLASH: byte := '/' as int
  const SPACE: byte := ' ' as int

  /** Index just past the last '/', or 0 when the path has none. */
  function NameStart(path: seq<byte>): (k: nat)
    ensures k <= |path|
    ensures k == 0 || path[k - 1] == SLASH
    ensures forall j :: k <= j < |path| ==> path[j] != SLASH
  {
    if path == [] then 0
    else if path[|path| - 1] == SLASH then |path|
    else NameStart(path[..|path| - 1])
  }

  function Spaces(n: nat): (s: seq<byte>)
    ensures |s| == n && forall i :: 0 <= i < n ==> s[i] == SPACE
  {
    seq(n, _ => SPACE)
  }

  /** The string fmtname's result points to. */
  function Formatted(path: seq<byte>): seq<byte> {
    var name := path[NameStart(path)..];
    if |name| >= DIRSIZ then name else name + Spaces(DIRSIZ - |name|)
  }

  /** fmtname shows the last path element: at least DIRSIZ characters, the
      element itself first, no '/' anywhere, and blanks after it. */
  lemma FormattedShape(path: seq<byte>)
    requires NoNul(path)
    ensures var name := path[NameStart(path)..];
      |Formatted(path)| == (if |name| >= DIRSIZ then |name| else DIRSIZ)
      && Formatted(path)[..|name|] == name
      && (forall j :: |name| <= j < |Formatted(path)| ==> Formatted(path)[j] == SPACE)
      && (forall j :: 0 <= j < |Formatted(path)| ==> Formatted(path)[j] != SLASH)
      && NoNul(Formatted(path))
  {
    var k := NameStart(path);
    var name := path[k..];
    var f := Formatted(path);
    if |name| < DIRSIZ {
      var sp := Spaces(DIRSIZ - |name|);
      assert f == name + sp;
      assert f[..|name|] == name;
      forall j | |name| <= j < |f|
        ensures f[j] == SPACE
      {
        assert f[j] == sp[j - |name|];
      }
    }
    forall j | 0 <= j < |f|
      ensures f[j] != SLASH && f[j] != 0
    {
      if j < |name| {
        assert f[j] == path[k + j];
      }
    }
  }

  /** A path ending in '/' formats as DIRSIZ blanks. */
  lemma TrailingSlashIsBlank(path: seq<byte>)
    requires |path| > 0 && path[|path| - 1] == SLASH
    ensures Formatted(path) == Spaces(DIRSIZ)
  {
    assert path[NameStart(path)..] == [];
  }

  /** A path without '/' formats as itself (padded when short). */
  lemma NoSlashKeepsWholePath(path: seq<byte>)
    requires forall j :: 0 <= j < |path| ==> path[j] != SLASH
    ensures NameStart(path) == 0
    ensures Formatted(path)[..|path|] == path
  {
  }

  /** The first loop of fmtname: p walks back from the terminating NUL to
      the last '/', and the name starts one past it. */
  method FindName(path: seq<byte>) returns (p: nat)
    ensures p == NameStart(path)
  {
    var q: int := |path|;
    while q >= 0 && (q == |path| || path[q] != SLASH)
      invariant -1 <= q <= |path|
      invariant forall j :: q < j < |path| ==> path[j] != SLASH
      decreases q
    {
      q := q - 1;
    }
    p := q + 1;
  }

  /** Where fmtname's result points: into the path, or at the static buffer. */
  datatype Result = InPath(offset: nat) | InBuf

  class FmtBuffer {
    /** static char buf[DIRSIZ+1]; its last byte is never written. */
    var buf: array<byte>

    predicate Valid()
      reads this, buf
    {
      buf.Length == DIRSIZ + 1 && buf[DIRSIZ] == 0
    }

    /** The string the result points to, read up to its NUL. */
    function Shown(path: seq<byte>, r: Result): seq<byte>
      reads this, buf
    {
      match r
      case InPath(k) => if k <= |path| then path[k..] else []
      case InBuf => CStr(buf[..])
    }

    constructor ()
      ensures Valid() && fresh(buf)
    {
      buf := new byte[DIRSIZ + 1](_ => 0);
    }

    /** fmtname(path) */
    method FmtName(path: seq<byte>) returns (r: Result)
      requires Valid() && NoNul(path)
      modifies buf
      ensures Valid()
      ensures Shown(path, r) == Formatted(path)
      ensures r.InPath? <==> |path| - NameStart(path) >= DIRSIZ
      ensures r.InPath? ==> r.offset == NameStart(path) && buf[..] == old(buf[..])
    {
      var p := FindName(path);
      var len := |path| - p;
      if len >= DIRSIZ {
        return InPath(p);
      }
      Fill(path[p..]);
      FormattedShape(path);
      assert buf[..] == buf[..DIRSIZ] + [buf[DIRSIZ]];
      assert buf[..DIRSIZ] == Formatted(path);
      CStrTerminated(Formatted(path));
      return InBuf;
    }

    /** fmtname's copy of a short name into buf, then the blank padding up
        to DIRSIZ; the final NUL stays. */
    method Fill(name: seq<byte>)
      requires Valid() && |name| < DIRSIZ
      modifies buf
      ensures Valid() && buf[..DIRSIZ] == name + Spaces(DIRSIZ - |name|)
    {
      var i := 0;
      while i < |name|
        invariant 0 <= i <= |name| && buf[DIRSIZ] == 0
        invariant buf[..i] == name[..i]
      {
        buf[i] := name[i];
        i := i + 1;
      }
      while i < DIRSIZ
        invariant |name| <= i <= DIRSIZ && buf[DIRSIZ] == 0
        invariant buf[..|name|] == name
        invariant forall j :: |name| <= j < i ==> buf[j] == SPACE
      {
        buf[i] := SPACE;
        i := i + 1;
      }
      assert buf[..DIRSIZ] == name + Spaces(DIRSIZ - |name|);
    }
  }

  /** The path ls stats for one entry: path, '/', and the DIRSIZ name bytes,
      read as a C string. */
  function ChildPath(path: seq<byte>, e: Dirent.Dirent): seq<byte> {
    CStr(path + [SLASH] + e.name + [0])
  }

  /** The paths stat is called on, in directory order; free entries are skipped. */
  function ChildPaths(path: seq<byte>, es: seq<Dirent.Dirent>): seq<seq<byte>> {
    if es == [] then []
    else
      ChildPaths(path, es[..|es| - 1])
        + (if es[|es| - 1].inum == 0 then [] else [ChildPath(path, es[|es| - 1])])
  }

  /** A child of `path`: the path and a '/', then at most DIRSIZ name bytes. */
  predicate IsChildOf(path: seq<byte>, c: seq<byte>) {
    |path| + 1 <= |c| <= |path| + 1 + DIRSIZ && c[..|path| + 1] == path + [SLASH]
  }

  lemma ChildPathIsChild(path: seq<byte>, e: Dirent.Dirent)
    requires NoNul(path) && Dirent.WellFormed(e)
    ensures IsChildOf(path, ChildPath(path, e))
  {
    var s := path + [SLASH] + e.name + [0];
    assert s[..|path| + 1] == path + [SLASH];
    var c := CStr(s);
    assert |c| < |s| by { assert s[|s| - 1] == 0; }
    assert forall j :: 0 <= j < |path| + 1 ==> s[j] != 0;
    assert c[..|path| + 1] == s[..|path| + 1];
  }

  /** Every path ls stats is a child of the listed directory. */
  lemma {:induction false} ChildPathsAreChildren(path: seq<byte>, es: seq<Dirent.Dirent>)
    requires NoNul(path)
    requires forall i :: 0 <= i < |es| ==> Dirent.WellFormed(es[i])
    ensures forall i :: 0 <= i < |ChildPaths(path, es)| ==> IsChildOf(path, ChildPaths(path, es)[i])
  {
    if es != [] {
      var n := |es| - 1;
      ChildPathsAreChildren(path, es[..n]);
      if es[n].inum != 0 {
        ChildPathIsChild(path, es[n]);
      }
    }
  }

  /** There is one child path per used entry. */
  lemma {:induction false} ChildPathsCount(path: seq<byte>, es: seq<Dirent.Dirent>)
    ensures |ChildPaths(path, es)| == |set i | 0 <= i < |es| && es[i].inum != 0|
  {
    if es != [] {
      var n := |es| - 1;
      ChildPathsCount(path, es[..n]);
      var used := set i | 0 <= i < n + 1 && es[i].inum != 0;
      var usedBefore := set i | 0 <= i < n && es[..n][i].inum != 0;
      if es[n].inum == 0 {
        assert used == usedBefore;
      } else {
        assert used == usedBefore + {n};
      }
    }
  }

  /** The directory case of ls: refuse when the path cannot fit, otherwise
      build path + '/' once in a 512-byte buffer and, for each used entry,
      copy its name after the '/' and terminate it. */
  method ListChildren(path: seq<byte>, entries: seq<Dirent.Dirent>) returns (ok: bool, paths: seq<seq<byte>>)
    requires NoNul(path)
    requires forall i :: 0 <= i < |entries| ==> Dirent.WellFormed(entries[i])
    ensures ok <==> |path| + 1 + DIRSIZ + 1 <= 512
    ensures ok ==> paths == ChildPaths(path, entries)
  {
    if |path| + 1 + DIRSIZ + 1 > 512 {
      return false, [];
    }
    ok := true;
    var buf := new byte[512](_ => 0);
    Strcpy(buf, path);
    buf[|path|] := SLASH;
    var p := |path| + 1;
    assert buf[..p] == path + [SLASH];
    paths := [];
    var n := 0;
    while n < |entries|
      invariant 0 <= n <= |entries|
      invariant buf[..p] == path + [SLASH]
      invariant paths == ChildPaths(path, entries[..n])
    {
      var de := entries[n];
      ChildPathsStep(path, entries, n);
      if de.inum != 0 {
        PutName(buf, p, de.name);
        paths := paths + [CStr(buf[..p + DIRSIZ + 1])];
      }
      n := n + 1;
    }
    assert entries[..n] == entries;
  }

  lemma ChildPathsStep(path: seq<byte>, es: seq<Dirent.Dirent>, n: nat)
    requires n < |es|
    ensures ChildPaths(path, es[..n + 1]) == ChildPaths(path, es[..n])
      + (if es[n].inum == 0 then [] else [ChildPath(path, es[n])])
  {
    assert es[..n + 1][..n] == es[..n];
  }

  /** strcpy(buf, s) without the terminator, which ls overwrites at once. */
  method Strcpy(buf: array<byte>, s: seq<byte>)
    requires |s| < buf.Length
    modifies buf
    ensures buf[..|s|] == s
  {
    var k := 0;
    while k < |s|
      invariant 0 <= k <= |s|
      invariant buf[..k] == s[..k]
    {
      buf[k] := s[k];
      k := k + 1;
    }
  }

  /** memmove(buf + p, name, DIRSIZ) and the terminator after it. */
  method PutName(buf: array<byte>, p: nat, name: seq<byte>)
    requires |name| == DIRSIZ && p + DIRSIZ + 1 <= buf.Length
    modifies buf
    ensures buf[..p] == old(buf[..p])
    ensures buf[..p + DIRSIZ + 1] == old(buf[..p]) + name + [0]
  {
    Memmove(buf, p, name);
    buf[p + DIRSIZ] := 0;
    ghost var b := buf[..p + DIRSIZ + 1];
    assert b[..p] == old(buf[..p]) && b[p..p + DIRSIZ] == name && b[p + DIRSIZ] == 0;
    assert b == old(buf[..p]) + name + [0];
  }

  /** memmove(buf + p, s, |s|): the bytes before p are kept. */
  method Memmove(buf: array<byte>, p: nat, s: seq<byte>)
    requires p + |s| <= buf.Length
    modifies buf
    ensures buf[..p] == old(buf[..p]) && buf[p..p + |s|] == s
  {
    var j := 0;
    while j < |s|
      invariant 0 <= j <= |s|
      invariant buf[..p] == old(buf[..p])
      invariant buf[p..p + j] == s[..j]
    {
      buf[p + j] := s[j];
      j := j + 1;
    }
  }
}

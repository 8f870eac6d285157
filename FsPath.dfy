// Path names (kernel/fs.c skipelem, namex, namei, nameiparent): a path is
// cut into elements, and namex walks them from its starting directory, one
// dirlookup per element. The locks namex takes and hands over are not
// modelled; each ilock is the read of the dinode it performs.
module FsPath {
  import opened Param
  import opened Wrappers
  import opened CStrings
  import opened FsBitmap
  import opened FsInode
  import opened FsCache
  import opened FsDir

  const SLASH: byte := 0x2F    // '/'
  const PERCENT: byte := 0x25  // '%', which selects device 2

  // ----- skipelem -----

  /** The three runs skipelem steps over: the separators before an element
      ('/' and '%'), the element (up to '/' or NUL), and the '/'s after it. */
  datatype Run = Lead | Elem | Sep

  predicate InRun(b: byte, k: Run) {
    match k
    case Lead => b == SLASH || b == PERCENT
    case Elem => b != SLASH && b != 0
    case Sep => b == SLASH
  }

  /** Where a run of kind k starting at i ends: the first byte from i on
      outside the run. The end of p reads as NUL, which no run holds. */
  function RunEnd(p: seq<byte>, i: nat, k: Run): (j: nat)
    requires i <= |p|
    ensures i <= j <= |p|
    decreases |p| - i
  {
    if i < |p| && InRun(p[i], k) then RunEnd(p, i + 1, k) else i
  }

  /** RunEnd takes one step, or stops at i. */
  lemma RunEndStep(p: seq<byte>, i: nat, k: Run)
    requires i <= |p|
    ensures RunEnd(p, i, k) == if InRun(At(p, i), k) then RunEnd(p, i + 1, k) else i
  {
  }

  /** The run from i to RunEnd is all of kind k and the byte after it is not. */
  lemma {:induction false} RunEndMeaning(p: seq<byte>, i: nat, k: Run)
    requires i <= |p|
    ensures var j := RunEnd(p, i, k);
      (forall m :: i <= m < j ==> InRun(p[m], k)) && !InRun(At(p, j), k)
    decreases |p| - i
  {
    if i < |p| && InRun(p[i], k) {
      RunEndMeaning(p, i + 1, k);
    }
  }

  /** A run of kind k from i to j with a byte of another kind at j ends at j. */
  lemma {:induction false} RunEndAt(p: seq<byte>, i: nat, j: nat, k: Run)
    requires i <= j <= |p| && (forall m :: i <= m < j ==> InRun(p[m], k)) && !InRun(At(p, j), k)
    ensures RunEnd(p, i, k) == j
    decreases j - i
  {
    if i < j {
      RunEndAt(p, i + 1, j, k);
    }
  }

  /** The name skipelem copies out for an element: its first DIRSIZ bytes
      with no terminator when it is that long, else the element and a NUL. */
  function ElemName(e: seq<byte>): seq<byte> {
    if |e| >= DIRSIZ then e[..DIRSIZ] else e + [0]
  }

  /** skipelem(path, name): None for a path with no element left, else the
      path after the element and the '/'s that follow it, and the name. */
  function SkipElem(p: seq<byte>): (r: Option<(seq<byte>, seq<byte>)>)
    ensures r.Some? ==> |r.value.0| < |p|
  {
    var s := RunEnd(p, 0, Lead);
    if At(p, s) == 0 then None
    else
      var e := RunEnd(p, s, Elem);
      Some((p[RunEnd(p, e, Sep)..], ElemName(p[s..e])))
  }

  /** skipelem's three loops over the bytes of path: past the leading '/'
      and '%', to the end of the element, past the '/'s after it; the name
      is the first DIRSIZ bytes of a long element, or the element and a
      NUL. */
  method SkipElemLoops(p: seq<byte>) returns (r: Option<(seq<byte>, seq<byte>)>)
    ensures r == SkipElem(p)
  {
    hide RunEnd;
    var i: nat := 0;
    while At(p, i) == SLASH || At(p, i) == PERCENT
      invariant i <= |p| && RunEnd(p, i, Lead) == RunEnd(p, 0, Lead)
      decreases |p| - i
    {
      RunEndStep(p, i, Lead);
      i := i + 1;
    }
    RunEndStep(p, i, Lead);
    if At(p, i) == 0 {
      return None;
    }
    var s := i;
    while At(p, i) != SLASH && At(p, i) != 0
      invariant s <= i <= |p| && RunEnd(p, i, Elem) == RunEnd(p, s, Elem)
      decreases |p| - i
    {
      RunEndStep(p, i, Elem);
      i := i + 1;
    }
    RunEndStep(p, i, Elem);
    var name: seq<byte>;
    if i - s >= DIRSIZ {
      name := p[s..s + DIRSIZ];
      assert name == p[s..i][..DIRSIZ];
    } else {
      name := p[s..i] + [0];
    }
    var e := i;
    while At(p, i) == SLASH
      invariant e <= i <= |p| && RunEnd(p, i, Sep) == RunEnd(p, e, Sep)
      decreases |p| - i
    {
      RunEndStep(p, i, Sep);
      i := i + 1;
    }
    RunEndStep(p, i, Sep);
    r := Some((p[i..], name));
  }

  /** How skipelem reads p: lead holds only '/' and '%', elem is not empty,
      holds neither '/' nor NUL and does not start with '%', seps holds only
      '/', and rest does not start with '/'; with no '/' after the element
      the element ends the string. */
  predicate Splits(p: seq<byte>, lead: seq<byte>, elem: seq<byte>, seps: seq<byte>, rest: seq<byte>) {
    p == lead + elem + seps + rest
    && (forall i :: 0 <= i < |lead| ==> InRun(lead[i], Lead))
    && elem != [] && elem[0] != PERCENT && (forall i :: 0 <= i < |elem| ==> InRun(elem[i], Elem))
    && (forall i :: 0 <= i < |seps| ==> InRun(seps[i], Sep))
    && At(rest, 0) != SLASH && (seps == [] ==> At(rest, 0) == 0)
  }

  /** Whatever skipelem returns, p splits around the element it names. */
  lemma SkipElemSplits(p: seq<byte>)
    ensures SkipElem(p).Some? ==>
      exists lead, elem, seps :: Splits(p, lead, elem, seps, SkipElem(p).value.0) && SkipElem(p).value.1 == ElemName(elem)
  {
    hide RunEnd;
    var s := RunEnd(p, 0, Lead);
    RunEndMeaning(p, 0, Lead);
    if At(p, s) != 0 {
      var e := RunEnd(p, s, Elem);
      RunEndMeaning(p, s, Elem);
      var t := RunEnd(p, e, Sep);
      RunEndMeaning(p, e, Sep);
      var lead, elem, seps, rest := p[..s], p[s..e], p[e..t], p[t..];
      assert p == lead + elem + seps + rest;
      assert At(rest, 0) == At(p, t);
      assert Splits(p, lead, elem, seps, rest);
    }
  }

  /** Every split of p names the element skipelem returns: the split is
      unique, and skipelem finds it. */
  lemma SplitsSkipElem(p: seq<byte>, lead: seq<byte>, elem: seq<byte>, seps: seq<byte>, rest: seq<byte>)
    requires Splits(p, lead, elem, seps, rest)
    ensures SkipElem(p) == Some((rest, ElemName(elem)))
  {
    var s, e := |lead|, |lead| + |elem|;
    var t := e + |seps|;
    assert p[s] == elem[0];
    RunEndAt(p, 0, s, Lead);
    assert forall m :: s <= m < e ==> p[m] == elem[m - s];
    assert At(p, e) == if seps == [] then At(rest, 0) else seps[0];
    RunEndAt(p, s, e, Elem);
    assert forall m :: e <= m < t ==> p[m] == seps[m - e];
    assert At(p, t) == At(rest, 0);
    RunEndAt(p, e, t, Sep);
    assert p[s..e] == elem && p[t..] == rest;
  }

  /** skipelem finds no element exactly when the C string in p holds only
      '/' and '%'. */
  lemma SkipElemNone(p: seq<byte>)
    ensures SkipElem(p).None? <==> forall i :: 0 <= i < |CStr(p)| ==> InRun(CStr(p)[i], Lead)
  {
    var s := RunEnd(p, 0, Lead);
    RunEndMeaning(p, 0, Lead);
    var q := CStr(p);
    if At(p, s) == 0 {
      assert forall m :: 0 <= m < |q| ==> p[m] == q[m] != 0;
      assert |q| <= s;
    } else {
      assert forall m :: 0 <= m < s ==> p[m] != 0;
      assert s < |q| && q[s] == p[s];
      assert SkipElem(p).Some? && !InRun(CStr(p)[s], Lead);
    }
  }

  /** The examples of kernel/fs.c: "a/bb/c" gives "bb/c" and "a". */
  lemma SkipElemExample1()
    ensures SkipElem([0x61, 0x2F, 0x62, 0x62, 0x2F, 0x63]) == Some(([0x62, 0x62, 0x2F, 0x63], [0x61, 0]))
  {
    var p: seq<byte> := [0x61, 0x2F, 0x62, 0x62, 0x2F, 0x63];
    var rest: seq<byte> := [0x62, 0x62, 0x2F, 0x63];
    assert p == [] + [0x61] + [0x2F] + rest;
    SplitsSkipElem(p, [], [0x61], [0x2F], rest);
    assert ElemName([0x61]) == [0x61, 0];
  }

  /** "///a//bb" gives "bb" and "a". */
  lemma SkipElemExample2()
    ensures SkipElem([0x2F, 0x2F, 0x2F, 0x61, 0x2F, 0x2F, 0x62, 0x62]) == Some(([0x62, 0x62], [0x61, 0]))
  {
    var p: seq<byte> := [0x2F, 0x2F, 0x2F, 0x61, 0x2F, 0x2F, 0x62, 0x62];
    var lead: seq<byte> := [0x2F, 0x2F, 0x2F];
    var seps: seq<byte> := [0x2F, 0x2F];
    var rest: seq<byte> := [0x62, 0x62];
    assert p == lead + [0x61] + seps + rest;
    SplitsSkipElem(p, lead, [0x61], seps, rest);
    assert ElemName([0x61]) == [0x61, 0];
  }

  /** "a" gives "" and "a"; "" and "////" give nothing. */
  lemma SkipElemExample3()
    ensures SkipElem([0x61]) == Some(([], [0x61, 0]))
    ensures SkipElem([]) == None && SkipElem([0x2F, 0x2F, 0x2F, 0x2F]) == None
  {
    var p: seq<byte> := [0x61];
    assert p == [] + [0x61] + [] + [];
    SplitsSkipElem(p, [], [0x61], [], []);
    assert ElemName([0x61]) == [0x61, 0];
    SkipElemNone([]);
    SkipElemNone([0x2F, 0x2F, 0x2F, 0x2F]);
  }

  /** A long element is cut to its first DIRSIZ bytes, with no terminator. */
  lemma SkipElemLong(p: seq<byte>, lead: seq<byte>, elem: seq<byte>, seps: seq<byte>, rest: seq<byte>)
    requires Splits(p, lead, elem, seps, rest) && |elem| >= DIRSIZ
    ensures SkipElem(p) == Some((rest, elem[..DIRSIZ])) && 0 !in SkipElem(p).value.1
  {
    SplitsSkipElem(p, lead, elem, seps, rest);
    assert forall i :: 0 <= i < DIRSIZ ==> elem[..DIRSIZ][i] == elem[i];
  }

  /** The names of a path's elements, in order, as namex's loop takes them. */
  function Elems(p: seq<byte>): seq<seq<byte>>
    decreases |p|
  {
    match SkipElem(p)
    case None => []
    case Some((rest, name)) => [name] + Elems(rest)
  }

  // ----- namex -----

  /** What namex returns: the cache slot of the inode it reached, 0, or a
      directory whose reads take the large-file path, which is not part of
      this model. */
  datatype Walked = Slot(k: nat) | Null | LargePath

  /** One step of namex's loop after the directory checks: dirlookup of
      name in the directory held in slot k, then iunlockput of the
      directory; a missing entry gives 0. */
  function Next(st: Storage, sb: Superblock, c: seq<Inode>, k: nat, name: seq<byte>)
    : (r: (Outcome, Walked, Storage, seq<Inode>))
    requires k < |c|
    ensures |r.3| == |c| && (r.1.Slot? ==> r.1.k < |c|)
  {
    DirlookupShape(st, sb, c, k, name);
    var (o, l, k2, st1, c1) := Dirlookup(st, sb, c, k, name);
    if o.Panic? then (o, Null, st1, c1)
    else if l.LargeDir? then (Done, LargePath, st1, c1)
    else
      var (o2, st2, c2) := Iput(st1, sb, c1, k);
      if o2.Panic? || l.Absent? then (o2, Null, st2, c2) else (Done, Slot(k2), st2, c2)
  }

  /** namex's loop from the inode held in slot k: each element ilocks the
      current inode, gives 0 (after iunlockput) when it is not a directory,
      stops one element early in parent mode, and otherwise moves to the
      entry dirlookup finds. At the end, parent mode drops the inode and
      gives 0. The name is the last one skipelem copied out. */
  function Walk(st: Storage, sb: Superblock, c: seq<Inode>, k: nat, path: seq<byte>, parent: bool, name: seq<byte>)
    : (r: (Outcome, Walked, seq<byte>, Storage, seq<Inode>))
    requires k < |c|
    ensures |r.4| == |c| && (r.1.Slot? ==> r.1.k < |c|)
    decreases |path|
  {
    match SkipElem(path)
    case None =>
      if parent then
        var (o, st1, c1) := Iput(st, sb, c, k);
        (o, Null, name, st1, c1)
      else (Done, Slot(k), name, st, c)
    case Some((rest, elem)) =>
      var (o, ip) := Ilock(st, c[k]);
      var c1 := c[k := ip];
      if o.Panic? then (o, Null, elem, st, c1)
      else if !IsDir(ip) then
        var (o2, st2, c2) := Iput(st, sb, c1, k);
        (o2, Null, elem, st2, c2)
      else if parent && At(rest, 0) == 0 then (Done, Slot(k), elem, st, c1)
      else
        var (o2, w, st2, c2) := Next(st, sb, c1, k, elem);
        if o2.Panic? || !w.Slot? then (o2, w, elem, st2, c2)
        else Walk(st2, sb, c2, w.k, rest, parent, elem)
  }

  /** Where namex starts: iget of the root for a leading '/', iget of
      inode 1 of device 2 for a leading '%', else idup of the cwd. */
  function Start(c: seq<Inode>, cwd: nat, path: seq<byte>): (r: (Outcome, nat, seq<Inode>))
    requires cwd < |c|
    ensures |r.2| == |c| && (r.0 == Done ==> r.1 < |c|)
  {
    if At(path, 0) == SLASH then
      IgetMeaning(c, ROOTDEV, ROOTINO);
      Iget(c, ROOTDEV, ROOTINO)
    else if At(path, 0) == PERCENT then
      IgetMeaning(c, 2, 1);
      Iget(c, 2, 1)
    else (Done, cwd, Idup(c, cwd))
  }

  /** namex(path, nameiparent, name); namei is parent = false and
      nameiparent parent = true. The cwd is the calling process's. */
  function Namex(st: Storage, sb: Superblock, c: seq<Inode>, cwd: nat, path: seq<byte>, parent: bool, name: seq<byte>)
    : (r: (Outcome, Walked, seq<byte>, Storage, seq<Inode>))
    requires cwd < |c|
    ensures |r.4| == |c| && (r.1.Slot? ==> r.1.k < |c|)
  {
    var (o, k, c1) := Start(c, cwd, path);
    if o.Panic? then (o, Null, name, st, c1)
    else Walk(st, sb, c1, k, path, parent, name)
  }

  // ----- what namex promises -----

  /** A path with no element: namei returns the starting inode (the root
      for '/', inode 1 of device 2 for '%', the cwd otherwise) with one more
      reference, and nameiparent returns 0 holding no new reference. */
  lemma NamexNoElems(st: Storage, sb: Superblock, c: seq<Inode>, cwd: nat, path: seq<byte>, parent: bool, name: seq<byte>,
                     w: Walked, nm: seq<byte>, st1: Storage, c1: seq<Inode>)
    requires cwd < |c| && SkipElem(path).None?
    requires Namex(st, sb, c, cwd, path, parent, name) == (Done, w, nm, st1, c1)
    ensures parent ==> w == Null && Refs(c1) == Refs(c)
    ensures !parent ==> w.Slot? && st1 == st && nm == name && Refs(c1) == Refs(c) + 1
    ensures !parent && At(path, 0) == SLASH ==> c1[w.k].dev == ROOTDEV && c1[w.k].inum == ROOTINO
    ensures !parent && At(path, 0) == PERCENT ==> c1[w.k].dev == 2 && c1[w.k].inum == 1
    ensures !parent && At(path, 0) != SLASH && At(path, 0) != PERCENT ==> w == Slot(cwd)
  {
    hide Iget, Iput, Refs;
    var (o, k, c0) := Start(c, cwd, path);
    if At(path, 0) == SLASH {
      IgetMeaning(c, ROOTDEV, ROOTINO);
      IgetRefs(c, ROOTDEV, ROOTINO, k, c0);
    } else if At(path, 0) == PERCENT {
      IgetMeaning(c, 2, 1);
      IgetRefs(c, 2, 1, k, c0);
    } else {
      IdupRefs(c, cwd);
    }
    if parent {
      IputRefs(st, sb, c0, k, st1, c1);
    }
  }

  /** The references namex's loop leaves: starting from a held inode, it
      ends holding exactly the one on the inode it returns, or none when it
      returns 0; every intermediate directory is released. */
  lemma {:induction false} WalkRefs(st: Storage, sb: Superblock, c: seq<Inode>, k: nat, path: seq<byte>, parent: bool,
                                    name: seq<byte>, w: Walked, nm: seq<byte>, st1: Storage, c1: seq<Inode>)
    requires k < |c| && c[k].ref >= 1
    requires Walk(st, sb, c, k, path, parent, name) == (Done, w, nm, st1, c1)
    ensures w.Slot? ==> c1[w.k].ref >= 1 && Refs(c1) == Refs(c)
    ensures w.Null? ==> Refs(c1) == Refs(c) - 1
    decreases |path|
  {
    hide Walk, Next, Iput, Ilock, Refs;
    match SkipElem(path)
    case None =>
      WalkNone(st, sb, c, k, path, parent, name);
      if parent {
        IputRefs(st, sb, c, k, st1, c1);
      }
    case Some((rest, elem)) =>
      WalkSome(st, sb, c, k, path, parent, name);
      var (o, ip) := Ilock(st, c[k]);
      IlockSlot(st, c[k]);
      var c0 := c[k := ip];
      RefsUpdate(c, k, ip);
      if !IsDir(ip) {
        IputRefs(st, sb, c0, k, st1, c1);
      } else if !(parent && At(rest, 0) == 0) {
        var (o2, w2, st2, c2) := Next(st, sb, c0, k, elem);
        NextRefs(st, sb, c0, k, elem, o2, w2, st2, c2);
        if w2.Slot? {
          WalkRefs(st2, sb, c2, w2.k, rest, parent, elem, w, nm, st1, c1);
        }
      }
  }

  /** Walk on a path with no element left. */
  lemma WalkNone(st: Storage, sb: Superblock, c: seq<Inode>, k: nat, path: seq<byte>, parent: bool, name: seq<byte>)
    requires k < |c| && SkipElem(path).None?
    ensures Walk(st, sb, c, k, path, parent, name) ==
      if parent then (var (o, st1, c1) := Iput(st, sb, c, k); (o, Null, name, st1, c1))
      else (Done, Slot(k), name, st, c)
  {
    hide Iput, Ilock, Next;
  }

  /** Walk on a path with an element left: one step of the loop. */
  lemma WalkSome(st: Storage, sb: Superblock, c: seq<Inode>, k: nat, path: seq<byte>, parent: bool, name: seq<byte>)
    requires k < |c| && SkipElem(path).Some?
    ensures var (rest, elem) := SkipElem(path).value;
      var (o, ip) := Ilock(st, c[k]);
      var c1 := c[k := ip];
      Walk(st, sb, c, k, path, parent, name) ==
        if o.Panic? then (o, Null, elem, st, c1)
        else if !IsDir(ip) then (var (o2, st2, c2) := Iput(st, sb, c1, k); (o2, Null, elem, st2, c2))
        else if parent && At(rest, 0) == 0 then (Done, Slot(k), elem, st, c1)
        else
          var (o2, w, st2, c2) := Next(st, sb, c1, k, elem);
          if o2.Panic? || !w.Slot? then (o2, w, elem, st2, c2)
          else Walk(st2, sb, c2, w.k, rest, parent, elem)
  {
    hide Iput, Ilock, Next;
  }

  /** ilock keeps the slot's reference, device and inode number. */
  lemma IlockSlot(st: Storage, ip: Inode)
    ensures var ip1 := Ilock(st, ip).1;
      ip1.ref == ip.ref && ip1.dev == ip.dev && ip1.inum == ip.inum
  {
    hide UInode;
  }

  /** One step of the loop on a held directory: moving to the entry found
      keeps the count of references (one taken, the directory's dropped),
      and giving 0 drops the directory's. */
  lemma NextRefs(st: Storage, sb: Superblock, c: seq<Inode>, k: nat, name: seq<byte>,
                 o: Outcome, w: Walked, st1: Storage, c1: seq<Inode>)
    requires k < |c| && c[k].ref >= 1 && Next(st, sb, c, k, name) == (o, w, st1, c1) && o == Done
    ensures w.Slot? ==> c1[w.k].ref >= 1 && Refs(c1) == Refs(c)
    ensures w.Null? ==> Refs(c1) == Refs(c) - 1
  {
    hide Dirlookup, Iput, Refs;
    DirlookupShape(st, sb, c, k, name);
    var (o1, l, k2, st2, c2) := Dirlookup(st, sb, c, k, name);
    if !l.LargeDir? {
      DirlookupRefs(st, sb, c, k, name, l, k2, st2, c2);
      IputRefs(st2, sb, c2, k, st1, c1);
      IputSlots(st2, sb, c2, k);
    }
  }

  /** The inode in slot k is held whatever the walk does before it: namex
      returns holding one reference, on the inode it reached, and 0 holding
      none. */
  lemma NamexRefs(st: Storage, sb: Superblock, c: seq<Inode>, cwd: nat, path: seq<byte>, parent: bool, name: seq<byte>,
                  w: Walked, nm: seq<byte>, st1: Storage, c1: seq<Inode>)
    requires cwd < |c| && c[cwd].ref >= 1
    requires Namex(st, sb, c, cwd, path, parent, name) == (Done, w, nm, st1, c1)
    ensures w.Slot? ==> c1[w.k].ref >= 1 && Refs(c1) == Refs(c) + 1
    ensures w.Null? ==> Refs(c1) == Refs(c)
  {
    hide Iget, Walk, Refs;
    var (o, k, c0) := Start(c, cwd, path);
    if At(path, 0) == SLASH {
      IgetMeaning(c, ROOTDEV, ROOTINO);
      IgetRefs(c, ROOTDEV, ROOTINO, k, c0);
    } else if At(path, 0) == PERCENT {
      IgetMeaning(c, 2, 1);
      IgetRefs(c, 2, 1, k, c0);
    } else {
      IdupRefs(c, cwd);
    }
    WalkRefs(st, sb, c0, k, path, parent, name, w, nm, st1, c1);
  }

  /** nameiparent stops one element early: it returns a directory and the
      last element's name, and namei on the same path is exactly one more
      step from there, the lookup of that name. */
  lemma {:induction false} WalkThroughParent(st: Storage, sb: Superblock, c: seq<Inode>, k: nat, path: seq<byte>,
                                             name: seq<byte>, kp: nat, nm: seq<byte>, st1: Storage, c1: seq<Inode>)
    requires k < |c| && Walk(st, sb, c, k, path, true, name) == (Done, Slot(kp), nm, st1, c1)
    ensures kp < |c1| && IsDir(c1[kp]) && c1[kp].valid
    ensures Elems(path) != [] && nm == Elems(path)[|Elems(path)| - 1]
    ensures Walk(st, sb, c, k, path, false, name) ==
      var (o, w, st2, c2) := Next(st1, sb, c1, kp, nm);
      (o, w, nm, st2, c2)
    decreases |path|
  {
    hide Walk, Next, Iput, Ilock;
    if SkipElem(path).None? {
      WalkNone(st, sb, c, k, path, true, name);
      assert false;
    }
    WalkSome(st, sb, c, k, path, true, name);
    WalkSome(st, sb, c, k, path, false, name);
    var (rest, elem) := SkipElem(path).value;
    assert Elems(path) == [elem] + Elems(rest);
    var (o, ip) := Ilock(st, c[k]);
    IlockValid(st, c[k]);
    var c0 := c[k := ip];
    if At(rest, 0) == 0 {
      SkipElemNone(rest);
      assert Elems(rest) == [];
      var (o2, w, st2, c2) := Next(st, sb, c0, k, elem);
      if o2 == Done && w.Slot? {
        WalkNone(st2, sb, c2, w.k, rest, false, elem);
      }
    } else {
      var (o2, w, st2, c2) := Next(st, sb, c0, k, elem);
      WalkThroughParent(st2, sb, c2, w.k, rest, elem, kp, nm, st1, c1);
    }
  }

  /** ilock, unless it panics, leaves the inode valid. */
  lemma IlockValid(st: Storage, ip: Inode)
    ensures Ilock(st, ip).0 == Done ==> Ilock(st, ip).1.valid
  {
    hide UInode;
  }

  /** namex in both modes on the same path and state: namei(path) is the
      lookup of the last element in the directory nameiparent(path)
      returns, when nameiparent returns one. */
  lemma NamexThroughParent(st: Storage, sb: Superblock, c: seq<Inode>, cwd: nat, path: seq<byte>,
                           name: seq<byte>, kp: nat, nm: seq<byte>, st1: Storage, c1: seq<Inode>)
    requires cwd < |c| && Namex(st, sb, c, cwd, path, true, name) == (Done, Slot(kp), nm, st1, c1)
    ensures kp < |c1| && IsDir(c1[kp]) && nm == Elems(path)[|Elems(path)| - 1]
    ensures Namex(st, sb, c, cwd, path, false, name) ==
      var (o, w, st2, c2) := Next(st1, sb, c1, kp, nm);
      (o, w, nm, st2, c2)
  {
    hide Walk, Next, Iget, Idup;
    var (o, k, c0) := Start(c, cwd, path);
    WalkThroughParent(st, sb, c0, k, path, name, kp, nm, st1, c1);
  }
}

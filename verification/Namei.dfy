/** Path walking with reference passing: fs/namei.c and fs/inode.c. */
module Namei {
  import opened Machine

  /** An inode is named by its super block and its number. */
  datatype Ino = Ino(sb: int, num: int)

  type Name = seq<char>

  /** What a file system stores under an inode: a directory has a lookup operation, anything else has none. */
  datatype Node = Dir(entries: map<Name, int>) | Leaf

  datatype Super = Super(mounted: Ino, covered: Option<Ino>, memfs: bool)

  datatype Error = ENOENT | ENOTDIR

  datatype Result<T> = Ok(value: T) | Err(error: Error)

  /** The file systems, what is mounted where, and the directories of the current process. */
  datatype World = World(tree: map<Ino, Node>, supers: map<int, Super>, mounts: map<Ino, Ino>, root: Ino, pwd: Ino) {
    predicate IsDir(i: Ino) { i in tree && tree[i].Dir? }

    /** The inode that stands for i, a mounted root hiding the directory it is mounted on. */
    function Cross(i: Ino): Ino { if i in mounts then mounts[i] else i }

    /** Where ".." leads out of a mounted file system; None at the root of one that covers nothing. */
    function Uncover(dir: Ino): Option<Ino> {
      if dir.sb in supers && supers[dir.sb].mounted == dir then supers[dir.sb].covered else Some(dir)
    }

    /** One component, looked up in a directory. */
    function Entry(dir: Ino, name: Name): Result<Ino> {
      if !IsDir(dir) then Err(ENOTDIR)
      else if name == "" then Ok(dir)
      else if name in tree[dir].entries then Ok(Cross(Ino(dir.sb, tree[dir].entries[name])))
      else Err(ENOENT)
    }

    /** One step of a walk. */
    function Step(dir: Ino, name: Name): Result<Ino> {
      if name == ".." && dir == root then Ok(dir)
      else if name == ".." then
        match Uncover(dir)
        case None => Err(ENOENT)
        case Some(d) => Entry(d, name)
      else Entry(dir, name)
    }

    /** A walk over several components. */
    function Walk(dir: Ino, names: seq<Name>): Result<Ino>
      decreases |names|
    {
      if names == [] then Ok(dir)
      else
        match Step(dir, names[0])
        case Ok(d) => Walk(d, names[1..])
        case Err(e) => Err(e)
    }

    /** Where a path starts. */
    function Start(path: Name, base: Ino): Ino { if path != "" && path[0] == '/' then root else base }

    /** The directory a path's last component is looked up in. */
    function Parent(path: Name, base: Ino): Result<Ino> {
      match Walk(Start(path, base), ButLast(Split(Relative(path))))
      case Ok(d) => if IsDir(d) then Ok(d) else Err(ENOTDIR)
      case Err(e) => Err(e)
    }

    /** The inode a path names. */
    function Resolve(path: Name, base: Ino): Result<Ino> {
      match Parent(path, base)
      case Ok(d) => Step(d, LastOf(Split(Relative(path))))
      case Err(e) => Err(e)
    }
  }

  // ---------------------------------------------------------------- paths

  function Relative(path: Name): Name { if path != "" && path[0] == '/' then path[1..] else path }

  /** The length of the first component. */
  function FirstLen(p: Name): (n: nat)
    ensures n <= |p|
  {
    if p == "" || p[0] == '/' then 0 else 1 + FirstLen(p[1..])
  }

  /** The components between slashes, empty ones included. */
  function Split(p: Name): (names: seq<Name>)
    ensures 1 <= |names|
    decreases |p|
  {
    var n := FirstLen(p);
    if n == |p| then [p] else [p[..n]] + Split(p[n + 1..])
  }

  function ButLast(names: seq<Name>): seq<Name>
    requires 1 <= |names|
  {
    names[..|names| - 1]
  }

  function LastOf(names: seq<Name>): Name
    requires 1 <= |names|
  {
    names[|names| - 1]
  }

  // ---------------------------------------------------------------- reference counts

  type Counts = map<Ino, int>

  function CountOf(counts: Counts, i: Ino): int { if i in counts then counts[i] else 0 }

  /** now is was with the references in held taken besides. */
  ghost predicate Holding(was: Counts, now: Counts, held: multiset<Ino>) {
    forall i :: CountOf(now, i) == CountOf(was, i) + held[i]
  }

  /** The references the mount table and the process hold. */
  ghost predicate Pinned(w: World, counts: Counts) {
    && CountOf(counts, w.root) >= 1 && CountOf(counts, w.pwd) >= 1
    && (forall i :: i in w.mounts ==> CountOf(counts, i) >= 1 && CountOf(counts, w.mounts[i]) >= 1)
    && (forall s :: s in w.supers && w.supers[s].covered.Some? ==> CountOf(counts, w.supers[s].covered.value) >= 1)
  }

  class Vfs {
    const w: World
    /** i_count of every inode in the inode table. */
    var counts: Counts

    constructor (w: World, counts: Counts)
      ensures this.w == w && this.counts == counts
    {
      this.w := w;
      this.counts := counts;
    }

    predicate Memfs(i: Ino) { i.sb in w.supers && w.supers[i.sb].memfs }

    /** An inode stays in the table as long as it is referenced, or for good if its file system lives in memory only. */
    ghost predicate Good()
      reads this
    {
      forall i :: i in counts ==> 0 <= counts[i] && (counts[i] == 0 ==> Memfs(i))
    }

    /** Between was and now this walk has taken the references in held. */
    ghost predicate Walking(was: Counts, held: multiset<Ino>)
      reads this
    {
      Good() && Pinned(w, was) && (forall i :: 0 <= CountOf(was, i)) && Holding(was, counts, held)
    }

    /** Taking one more reference to an inode in the table. */
    method Hold(i: Ino, ghost was: Counts, ghost held: multiset<Ino>)
      requires Walking(was, held) && i in counts
      modifies this`counts
      ensures Walking(was, held + multiset{i}) && i in counts
    {
      counts := counts[i := counts[i] + 1];
    }

    /** iput. */
    method Iput(i: Ino, ghost was: Counts, ghost held: multiset<Ino>)
      requires Walking(was, held) && i in held
      modifies this`counts
      ensures Walking(was, held - multiset{i})
      ensures i in old(counts) && (i in counts <==> old(counts)[i] > 1 || Memfs(i))
      ensures forall j :: j != i ==> (j in counts <==> j in old(counts)) && (j in counts ==> counts[j] == old(counts)[j])
    {
      assert held[i] >= 1 && CountOf(counts, i) >= 1;
      counts := counts[i := counts[i] - 1];
      if counts[i] == 0 && !Memfs(i) { counts := counts - {i}; }
    }

    /** iget: a new inode always finds memory, since the kernel panics when there is none. */
    method Iget(i: Ino, ghost was: Counts, ghost held: multiset<Ino>) returns (r: Ino)
      requires Walking(was, held)
      modifies this`counts
      ensures r == w.Cross(i) && Walking(was, held + multiset{r})
    {
      if i in counts {
        Hold(i, was, held);
        if i in w.mounts {
          var m := w.mounts[i];
          assert CountOf(counts, m) >= 1;
          Hold(m, was, held + multiset{i});
          Iput(i, was, held + multiset{i} + multiset{m});
          assert held + multiset{i} + multiset{m} - multiset{i} == held + multiset{m};
          return m;
        }
        return i;
      }
      assert i in w.mounts ==> CountOf(counts, i) >= 1;
      counts := counts[i := 1];
      r := i;
    }

    /** The lookup operation of a file system: it uses up the reference to dir. */
    method FsLookup(dir: Ino, name: Name, ghost was: Counts, ghost held: multiset<Ino>) returns (r: Result<Ino>)
      requires Walking(was, held) && dir in held && w.IsDir(dir) && name != ""
      modifies this`counts
      ensures r == w.Entry(dir, name)
      ensures Walking(was, if r.Ok? then held - multiset{dir} + multiset{r.value} else held - multiset{dir})
    {
      var entries := w.tree[dir].entries;
      if name in entries {
        var i := Iget(Ino(dir.sb, entries[name]), was, held);
        Iput(dir, was, held + multiset{i});
        assert held + multiset{i} - multiset{dir} == held - multiset{dir} + multiset{i};
        return Ok(i);
      }
      Iput(dir, was, held);
      r := Err(ENOENT);
    }

    /** ".." at the root of a mounted file system: give back that root and go to the directory it covers. */
    method Ascend(dir: Ino, ghost was: Counts, ghost held: multiset<Ino>) returns (r: Option<Ino>)
      requires Walking(was, held) && dir in held
      modifies this`counts
      ensures r == w.Uncover(dir)
      ensures r.Some? ==> Walking(was, held - multiset{dir} + multiset{r.value})
      ensures r.None? ==> Walking(was, held - multiset{dir})
    {
      if dir.sb in w.supers && dir == w.supers[dir.sb].mounted {
        Iput(dir, was, held);
        r := w.supers[dir.sb].covered;
        if r.Some? {
          assert CountOf(counts, r.value) >= 1;
          Hold(r.value, was, held - multiset{dir});
        }
        return;
      }
      assert held - multiset{dir} + multiset{dir} == held;
      r := Some(dir);
    }

    /** What lookup does once the special cases of ".." are dealt with. */
    method LookupIn(dir: Ino, name: Name, ghost was: Counts, ghost held: multiset<Ino>) returns (r: Result<Ino>)
      requires Walking(was, held) && dir in held
      modifies this`counts
      ensures r == w.Entry(dir, name)
      ensures Walking(was, if r.Ok? then held - multiset{dir} + multiset{r.value} else held - multiset{dir})
    {
      hide Vfs.Walking;
      if !w.IsDir(dir) {
        Iput(dir, was, held);
        return Err(ENOTDIR);
      }
      if name == "" {
        assert held - multiset{dir} + multiset{dir} == held;
        return Ok(dir);
      }
      r := FsLookup(dir, name, was, held);
    }

    /** lookup: it uses up the reference to dir. */
    method Lookup(dir: Ino, name: Name, ghost was: Counts, ghost held: multiset<Ino>) returns (r: Result<Ino>)
      requires Walking(was, held) && dir in held
      modifies this`counts
      ensures r == w.Step(dir, name)
      ensures Walking(was, if r.Ok? then held - multiset{dir} + multiset{r.value} else held - multiset{dir})
    {
      hide Vfs.Walking;
      assert held - multiset{dir} + multiset{dir} == held;
      if name == ".." {
        if dir == w.root { return Ok(dir); }
        var up := Ascend(dir, was, held);
        if up.None? { return Err(ENOENT); }
        ghost var mine := held - multiset{dir} + multiset{up.value};
        assert mine - multiset{up.value} == held - multiset{dir};
        r := LookupIn(up.value, name, was, mine);
        return;
      }
      r := LookupIn(dir, name, was, held);
    }

    /** follow_link, no file system having an operation of its own for it. */
    method FollowLink(dir: Ino, inode: Option<Ino>, ghost was: Counts, ghost held: multiset<Ino>) returns (r: Result<Ino>)
      requires Walking(was, held) && dir in held && (inode.Some? ==> inode.value in held - multiset{dir})
      modifies this`counts
      ensures inode.Some? ==> r == Ok(inode.value)
      ensures inode.None? ==> r == Err(ENOENT)
      ensures Walking(was, held - multiset{dir})
    {
      Iput(dir, was, held);
      r := if inode.None? then Err(ENOENT) else Ok(inode.value);
    }

    /** The first reference of a walk: to the directory the path starts from. */
    method Begin(path: Name, base: Option<Ino>, ghost was: Counts) returns (b: Ino)
      requires Walking(was, if base.Some? then multiset{base.value} else multiset{})
      modifies this`counts
      ensures b == w.Start(path, if base.Some? then base.value else w.pwd) && Walking(was, multiset{b})
    {
      if base.Some? {
        b := base.value;
      } else {
        b := w.pwd;
        Hold(b, was, multiset{});
      }
      assert multiset{b} - multiset{b} == multiset{};
      if path != "" && path[0] == '/' {
        Iput(b, was, multiset{b});
        b := w.root;
        Hold(b, was, multiset{});
      }
    }

    /** The scan for the end of a component. */
    method ScanName(path: Name, pos: int) returns (len: int)
      requires 0 <= pos <= |path|
      ensures len == FirstLen(path[pos..])
    {
      len := 0;
      while pos + len < |path| && path[pos + len] != '/'
        invariant 0 <= len <= |path| - pos && len + FirstLen(path[pos + len..]) == FirstLen(path[pos..])
      {
        assert path[pos + len..][1..] == path[pos + len + 1..];
        len := len + 1;
      }
    }

    /** One component of the walk: the reference to base is exchanged for one to where the component leads. */
    method Advance(base: Ino, name: Name, ghost was: Counts) returns (r: Result<Ino>)
      requires Walking(was, multiset{base})
      modifies this`counts
      ensures r == w.Step(base, name)
      ensures Walking(was, if r.Ok? then multiset{r.value} else multiset{})
    {
      assert CountOf(counts, base) >= 1 by { assert multiset{base}[base] == 1; }
      Hold(base, was, multiset{base});
      hide Vfs.Walking;
      ghost var two := multiset{base} + multiset{base};
      assert two - multiset{base} == multiset{base} && multiset{base} - multiset{base} == multiset{};
      var found := Lookup(base, name, was, two);
      match found
      case Err(e) =>
        Iput(base, was, multiset{base});
        r := Err(e);
      case Ok(i) =>
        ghost var held := multiset{base} + multiset{i};
        assert held - multiset{base} == multiset{i};
        r := FollowLink(base, Some(i), was, held);
    }

    /** The last component, not followed. */
    method LastStep(base: Ino, name: Name, ghost was: Counts) returns (r: Result<Ino>)
      requires Walking(was, multiset{base})
      modifies this`counts
      ensures r == w.Step(base, name)
      ensures Walking(was, if r.Ok? then multiset{r.value} else multiset{})
    {
      assert CountOf(counts, base) >= 1 by { assert multiset{base}[base] == 1; }
      Hold(base, was, multiset{base});
      hide Vfs.Walking, World.Step;
      ghost var two := multiset{base} + multiset{base};
      assert two - multiset{base} == multiset{base} && multiset{base} - multiset{base} == multiset{};
      r := Lookup(base, name, was, two);
      ghost var held := if r.Ok? then multiset{base} + multiset{r.value} else multiset{base};
      Iput(base, was, held);
      assert r.Ok? ==> held - multiset{base} == multiset{r.value};
    }

    /** dir_namei: the directory of the last component, and that component. */
    method DirNamei(path: Name, base: Option<Ino>, ghost was: Counts) returns (r: Result<(Ino, Name)>)
      requires Walking(was, if base.Some? then multiset{base.value} else multiset{})
      modifies this`counts
      ensures var b := if base.Some? then base.value else w.pwd;
              r == match w.Parent(path, b) case Ok(d) => Ok((d, LastOf(Split(Relative(path))))) case Err(e) => Err(e)
      ensures Walking(was, if r.Ok? then multiset{r.value.0} else multiset{})
    {
      hide Vfs.Walking, Split, World.Walk, World.Step;
      var b := Begin(path, base, was);
      ghost var start, rel := b, Relative(path);
      var pos := if path != "" && path[0] == '/' then 1 else 0;
      assert path[pos..] == rel;
      var len := ScanName(path, pos);
      while pos + len < |path|
        invariant 0 <= pos <= |path| && len == FirstLen(path[pos..]) && Walking(was, multiset{b})
        invariant w.Walk(start, ButLast(Split(rel))) == w.Walk(b, ButLast(Split(path[pos..])))
        invariant LastOf(Split(rel)) == LastOf(Split(path[pos..]))
        decreases |path| - pos
      {
        WalkSplit(w, b, path, pos, len);
        var next := Advance(b, path[pos..pos + len], was);
        if next.Err? { return Err(next.error); }
        b := next.value;
        pos := pos + len + 1;
        len := ScanName(path, pos);
      }
      SplitLast(path[pos..]);
      WalkNowhere(w, b);
      assert path[pos..] == path[pos..pos + len];
      if !w.IsDir(b) {
        Iput(b, was, multiset{b});
        assert multiset{b} - multiset{b} == multiset{};
        return Err(ENOTDIR);
      }
      r := Ok((b, path[pos..pos + len]));
    }

    /** namei: the inode the path names, and no count changes but that of this inode. */
    method Namei(path: Name) returns (r: Result<Ino>)
      requires Good() && Pinned(w, counts)
      modifies this`counts
      ensures r == w.Resolve(path, w.pwd)
      ensures Good() && Holding(old(counts), counts, if r.Ok? then multiset{r.value} else multiset{})
    {
      ghost var was := counts;
      var parent := DirNamei(path, None, was);
      if parent.Err? { return Err(parent.error); }
      r := Advance(parent.value.0, parent.value.1, was);
    }

    /** lnamei: the same, no file system having symbolic links. */
    method Lnamei(path: Name) returns (r: Result<Ino>)
      requires Good() && Pinned(w, counts)
      modifies this`counts
      ensures r == w.Resolve(path, w.pwd)
      ensures Good() && Holding(old(counts), counts, if r.Ok? then multiset{r.value} else multiset{})
    {
      ghost var was := counts;
      var parent := DirNamei(path, None, was);
      if parent.Err? { return Err(parent.error); }
      r := LastStep(parent.value.0, parent.value.1, was);
    }
  }

  lemma WalkSplit(w: World, b: Ino, path: Name, pos: int, len: int)
    requires 0 <= pos <= |path| && len == FirstLen(path[pos..]) && pos + len < |path|
    ensures LastOf(Split(path[pos..])) == LastOf(Split(path[pos + len + 1..]))
    ensures w.Walk(b, ButLast(Split(path[pos..]))) ==
            match w.Step(b, path[pos..pos + len])
            case Ok(d) => w.Walk(d, ButLast(Split(path[pos + len + 1..])))
            case Err(e) => Err(e)
  {
    hide Split, World.Step;
    var p := path[pos..];
    SplitUnfold(p);
    assert p[..len] == path[pos..pos + len] && p[len + 1..] == path[pos + len + 1..];
    var rest := Split(p[len + 1..]);
    assert ButLast([p[..len]] + rest) == [p[..len]] + ButLast(rest);
    assert ([p[..len]] + ButLast(rest))[1..] == ButLast(rest);
  }

  lemma SplitLast(p: Name)
    requires FirstLen(p) == |p|
    ensures Split(p) == [p] && ButLast(Split(p)) == []
  {
  }

  lemma WalkNowhere(w: World, b: Ino)
    ensures w.Walk(b, []) == Ok(b)
  {
  }

  // ---------------------------------------------------------------- what a path means

  function Then(r: Result<Ino>, f: Ino -> Result<Ino>): Result<Ino> {
    match r
    case Ok(i) => f(i)
    case Err(e) => Err(e)
  }

  /** Walking one list of components after another. */
  lemma {:induction false} WalkAppend(w: World, d: Ino, a: seq<Name>, b: seq<Name>)
    ensures w.Walk(d, a + b) == Then(w.Walk(d, a), i => w.Walk(i, b))
    decreases |a|
  {
    hide World.Step;
    if a == [] {
      assert a + b == b;
    } else {
      assert (a + b)[1..] == a[1..] + b;
      match w.Step(d, a[0]) {
        case Ok(i) => WalkAppend(w, i, a[1..], b);
        case Err(_) =>
      }
    }
  }

  /** A slash between two paths puts their components side by side. */
  lemma {:induction false} SplitAppend(p: Name, q: Name)
    ensures Split(p + "/" + q) == Split(p) + Split(q)
    decreases |p|
  {
    hide Split, FirstLen;
    var n, s := FirstLen(p), p + "/" + q;
    FirstLenAppend(p, "/" + q);
    assert s == p + ("/" + q);
    SplitUnfold(s);
    SplitUnfold(p);
    if n == |p| {
      assert s[..n] == p && s[n + 1..] == q;
    } else {
      SplitAppend(p[n + 1..], q);
      assert s[..n] == p[..n] && s[n + 1..] == p[n + 1..] + "/" + q;
    }
  }

  lemma {:induction false} SplitUnfold(p: Name)
    ensures FirstLen(p) <= |p|
    ensures Split(p) == if FirstLen(p) == |p| then [p] else [p[..FirstLen(p)]] + Split(p[FirstLen(p) + 1..])
  {
  }

  lemma {:induction false} FirstLenAppend(p: Name, q: Name)
    requires q != "" && q[0] == '/'
    ensures FirstLen(p + q) == FirstLen(p)
  {
    if p != "" && p[0] != '/' {
      FirstLenAppend(p[1..], q);
      assert (p + q)[1..] == p[1..] + q;
    } else if p == "" {
      assert p + q == q;
    }
  }

  /** The process's root and the roots of mounted file systems are directories. */
  predicate RootsAreDirs(w: World) {
    w.IsDir(w.root) && forall s :: s in w.supers ==> w.IsDir(w.supers[s].mounted)
  }

  function DirOrError(w: World, r: Result<Ino>): Result<Ino> { if r.Ok? && !w.IsDir(r.value) then Err(ENOTDIR) else r }

  /** An empty component leads nowhere, and where it is refused the next component is refused for the same reason. */
  lemma EmptyComponent(w: World, d: Ino, a: seq<Name>, b: seq<Name>)
    requires RootsAreDirs(w)
    ensures DirOrError(w, w.Walk(d, a + [""] + b)) == DirOrError(w, w.Walk(d, a + b))
  {
    WalkAppend(w, d, a, b);
    WalkAppend(w, d, a, [""] + b);
    assert a + [""] + b == a + ([""] + b);
    var r := w.Walk(d, a);
    if r.Ok? {
      assert ([""] + b)[1..] == b;
      assert w.Walk(r.value, [""] + b) == Then(w.Entry(r.value, ""), i => w.Walk(i, b));
      if b == [] { WalkNowhere(w, r.value); } else if !w.IsDir(r.value) { assert w.Step(r.value, b[0]) == Err(ENOTDIR); }
    }
  }

  /** Doubling a slash changes nothing, wherever it stands in a path. */
  lemma DoubledSlash(w: World, base: Ino, p: Name, q: Name)
    requires RootsAreDirs(w)
    ensures w.Resolve(p + "//" + q, base) == w.Resolve(p + "/" + q, base)
  {
    hide Split, World.Walk;
    var one, two := p + "/" + q, p + "//" + q;
    var a, b := SplitDoubled(p, q);
    ResolveIsWalk(w, base, one);
    ResolveIsWalk(w, base, two);
    var s := w.Start(one, base);
    assert a + [""] + b == a + [""] + ButLast(b) + [LastOf(b)] && a + b == a + ButLast(b) + [LastOf(b)];
    EmptyComponent(w, s, a, ButLast(b));
    LastOfWalk(w, s, a + [""] + ButLast(b), a + ButLast(b), LastOf(b));
  }

  /** Doubling a slash puts an empty component in front of another one. */
  lemma SplitDoubled(p: Name, q: Name) returns (a: seq<Name>, b: seq<Name>)
    ensures b != [] && Split(Relative(p + "/" + q)) == a + b && Split(Relative(p + "//" + q)) == a + [""] + b
  {
    hide Split;
    var one, two, rel := p + "/" + q, p + "//" + q, Relative(p);
    assert "" + "/" + q == "/" + q;
    SplitAppend("", q);
    SplitLast("");
    a, b := if p == "" then [] else Split(rel), Split(q);
    if p == "" {
      assert Relative(one) == q && Relative(two) == "/" + q && [] + [""] + b == [""] + b && [] + b == b;
    } else {
      assert Relative(one) == rel + "/" + q && Relative(two) == rel + "/" + ("/" + q);
      SplitAppend(rel, q);
      SplitAppend(rel, "/" + q);
      assert a + ([""] + b) == a + [""] + b;
    }
  }

  /** Walks that differ at most in which file they end at differ no more with one more component. */
  lemma LastOfWalk(w: World, d: Ino, a: seq<Name>, b: seq<Name>, last: Name)
    requires RootsAreDirs(w) && DirOrError(w, w.Walk(d, a)) == DirOrError(w, w.Walk(d, b))
    ensures w.Walk(d, a + [last]) == w.Walk(d, b + [last])
  {
    hide World.Walk;
    WalkAppend(w, d, a, [last]);
    WalkAppend(w, d, b, [last]);
    var r, s := w.Walk(d, a), w.Walk(d, b);
    if r.Ok? { WalkOne(w, r.value, last); }
    if s.Ok? { WalkOne(w, s.value, last); }
  }

  /** Looking the last component up in its directory is the last step of the walk. */
  lemma ResolveIsWalk(w: World, base: Ino, path: Name)
    requires RootsAreDirs(w)
    ensures w.Resolve(path, base) == w.Walk(w.Start(path, base), Split(Relative(path)))
  {
    hide Split, World.Walk;
    var names, b := Split(Relative(path)), w.Start(path, base);
    WalkAppend(w, b, ButLast(names), [LastOf(names)]);
    assert names == ButLast(names) + [LastOf(names)];
    var r := w.Walk(b, ButLast(names));
    if r.Ok? { WalkOne(w, r.value, LastOf(names)); }
  }

  /** A path behind another is resolved from where the other leads. */
  lemma ResolveAppend(w: World, base: Ino, p: Name, q: Name)
    requires RootsAreDirs(w) && p != "" && (q == "" || q[0] != '/')
    ensures w.Resolve(p + "/" + q, base) == Then(w.Resolve(p, base), d => w.Resolve(q, d))
  {
    hide Split, World.Walk;
    var rel, s := Relative(p), w.Start(p, base);
    assert Relative(p + "/" + q) == rel + "/" + q && Relative(q) == q;
    SplitAppend(rel, q);
    ResolveIsWalk(w, base, p);
    ResolveIsWalk(w, base, p + "/" + q);
    WalkAppend(w, s, Split(rel), Split(q));
    var r := w.Resolve(p, base);
    if r.Ok? { ResolveIsWalk(w, r.value, q); }
  }

  /** A path that begins with a slash is resolved from the root of the process, whatever directory it is resolved in. */
  lemma AbsolutePath(w: World, base: Ino, q: Name)
    requires q == "" || q[0] != '/'
    ensures w.Resolve("/" + q, base) == w.Resolve(q, w.root)
  {
    var path := "/" + q;
    assert path[1..] == q && Relative(path) == q && Relative(q) == q;
    assert w.Parent(path, base) == w.Parent(q, w.root);
  }

  /** A path that does not is resolved from that directory: its first component is looked up there. */
  lemma RelativePath(w: World, base: Ino, name: Name)
    requires w.IsDir(base) && forall i :: 0 <= i < |name| ==> name[i] != '/'
    ensures w.Resolve(name, base) == w.Step(base, name)
  {
    NoSlash(name);
    SplitLast(name);
    WalkNowhere(w, base);
  }

  lemma {:induction false} NoSlash(name: Name)
    requires forall i :: 0 <= i < |name| ==> name[i] != '/'
    ensures FirstLen(name) == |name|
  {
    if name != "" { NoSlash(name[1..]); }
  }

  /** ".." does not lead out of the root of the process. */
  lemma RootUp(w: World, base: Ino)
    requires w.IsDir(w.root)
    ensures w.Step(w.root, "..") == Ok(w.root) && w.Resolve("/..", base) == Ok(w.root) && w.Resolve("/", base) == Ok(w.root)
  {
    assert "/" + ".." == "/..";
    AbsolutePath(w, base, "..");
    RelativePath(w, w.root, "..");
    assert "/" + "" == "/";
    AbsolutePath(w, base, "");
    RelativePath(w, w.root, "");
  }

  /**
   * Where a component leads. A name leads to its entry, or to the root of what is mounted there; a missing one and a file in
   * place of a directory are errors. ".." in the root of a mounted file system is looked up in the directory it covers, and
   * fails if it covers none.
   */
  lemma StepMeans(w: World, d: Ino, name: Name)
    requires name != ".." || d != w.root
    ensures var up := name == ".." && d.sb in w.supers && w.supers[d.sb].mounted == d;
            && (up && w.supers[d.sb].covered.None? ==> w.Step(d, name) == Err(ENOENT))
            && (up && w.supers[d.sb].covered.Some? ==> LedFrom(w, w.supers[d.sb].covered.value, name, w.Step(d, name)))
            && (!up ==> LedFrom(w, d, name, w.Step(d, name)))
  {
  }

  /** r is where looking name up in directory d leads. */
  predicate LedFrom(w: World, d: Ino, name: Name, r: Result<Ino>) {
    && (!(d in w.tree && w.tree[d].Dir?) <==> r == Err(ENOTDIR))
    && (d in w.tree && w.tree[d].Dir? ==>
          && (name == "" ==> r == Ok(d))
          && (name != "" && name !in w.tree[d].entries <==> r == Err(ENOENT))
          && (name != "" && name in w.tree[d].entries ==>
                var i := Ino(d.sb, w.tree[d].entries[name]); r == Ok(if i in w.mounts then w.mounts[i] else i)))
  }

  /** The empty path names the directory it starts from. */
  lemma EmptyPath(w: World, base: Ino)
    ensures w.Resolve("", base) == if w.IsDir(base) then Ok(base) else Err(ENOTDIR)
  {
    SplitLast("");
    WalkNowhere(w, base);
  }

  predicate Normal(name: Name) { name != "" && name != "." && name != ".." }

  predicate IsFsRoot(w: World, i: Ino) { i.sb in w.supers && w.supers[i.sb].mounted == i }

  /** The ".." of every directory but the root of its file system names the directory it is listed in. */
  ghost predicate TreesOk(w: World) {
    forall d, name :: d in w.tree && w.tree[d].Dir? && name in w.tree[d].entries && Normal(name) ==> ChildOk(w, d, Ino(d.sb, w.tree[d].entries[name]))
  }

  predicate ChildOk(w: World, d: Ino, c: Ino) {
    w.IsDir(c) ==> !IsFsRoot(w, c) && ".." in w.tree[c].entries && w.tree[c].entries[".."] == d.num
  }

  /** What is mounted is the root of a file system, which knows the directory it covers; that directory is no such root. */
  ghost predicate MountsOk(w: World) {
    forall c :: c in w.mounts ==> IsFsRoot(w, w.mounts[c]) && w.supers[w.mounts[c].sb].covered == Some(c) && w.IsDir(c) && !IsFsRoot(w, c)
  }

  /**
   * One step down and one step up lead back, whatever is mounted where: out of a directory of the same file system, or out
   * of a mounted file system through the directory it covers. And what is reached is never hidden by a mount.
   */
  lemma UpUndoesDown(w: World, dir: Ino, name: Name, d: Ino)
    requires TreesOk(w) && MountsOk(w) && dir !in w.mounts && Normal(name) && w.Step(dir, name) == Ok(d)
    ensures d !in w.mounts && (w.IsDir(d) && d != w.root ==> w.Step(d, "..") == Ok(dir))
  {
    var c := Ino(dir.sb, w.tree[dir].entries[name]);
    assert ChildOk(w, dir, c);
    if c in w.mounts {
      assert IsFsRoot(w, w.mounts[c]);
      assert d !in w.mounts;
      assert w.Uncover(d) == Some(c);
    }
  }

  function Ups(n: nat): seq<Name> { seq(n, _ => "..") }

  /** However deep a walk goes, as many ".." lead back to where it started, as long as it does not pass the process's root. */
  lemma {:induction false} WalkBack(w: World, dir: Ino, names: seq<Name>, d: Ino)
    requires TreesOk(w) && MountsOk(w) && dir !in w.mounts && (forall i :: 0 <= i < |names| ==> Normal(names[i]))
    requires w.Walk(dir, names) == Ok(d) && w.IsDir(d) && forall k :: 0 < k <= |names| ==> w.Walk(dir, names[..k]) != Ok(w.root)
    ensures d !in w.mounts && w.Walk(d, Ups(|names|)) == Ok(dir)
    decreases |names|
  {
    if names == [] {
      assert Ups(0) == [];
      return;
    }
    hide World.Step;
    var n := |names| - 1;
    var front, last := names[..n], names[n];
    WalkAppend(w, dir, front, [last]);
    assert names == front + [last];
    var m := w.Walk(dir, front).value;
    WalkOne(w, m, last);
    forall k | 0 < k <= n ensures w.Walk(dir, front[..k]) != Ok(w.root) { assert front[..k] == names[..k]; }
    StepFromDir(w, m, last);
    WalkBack(w, dir, front, m);
    UpUndoesDown(w, m, last, d);
    assert names[..|names|] == names;
    WalkAppend(w, d, [".."], Ups(n));
    WalkOne(w, d, "..");
    assert Ups(|names|) == [".."] + Ups(n);
  }

  lemma WalkOne(w: World, d: Ino, name: Name)
    ensures w.Walk(d, [name]) == w.Step(d, name)
  {
    assert [name][1..] == [];
  }

  lemma StepFromDir(w: World, d: Ino, name: Name)
    requires Normal(name) && w.Step(d, name).Ok?
    ensures w.IsDir(d)
  {
  }
}

/** `collect_files` (e2b_nvim_test.py:31-54): walk the local configuration
    directory top-down, prune excluded directories before descending, skip
    excluded file names, and map every remaining file to its remote path
    under the sandbox's configuration root. A file that cannot be read is
    reported and left out; the walk itself never stops early. */
module Collector {
  import opened Text
  import Config

  /** What reading a file yields: its bytes, or the error `open`/`read` raised. */
  datatype Content = Readable(data: seq<bv8>) | Unreadable(error: string)

  /** A directory tree as `os.walk` sees it, children in enumeration order.
      `Locked` is a directory whose listing fails: `os.walk` silently yields
      nothing for it. */
  datatype Node =
    | File(name: string, content: Content)
    | Dir(name: string, children: seq<Node>)
    | Locked(name: string)

  /** A file the walk reached and did not skip by name: its path relative to
      the root, one component per directory level, and what reading it gave. */
  datatype Visit = Visit(rel: seq<string>, content: Content)

  /** One element of the returned list: `{"path": remote_path, "data": data}`. */
  datatype Entry = Entry(path: string, data: seq<bv8>)

  /** One warning line: the relative path of a file that could not be read. */
  datatype Skip = Skip(relPath: string, error: string)

  predicate Excluded(name: string) {
    name in Config.SkipPatterns
  }

  /** `os.path.relpath(...)` on POSIX: the components joined by `/`. */
  function RelPath(rel: seq<string>): string {
    Join(rel, '/')
  }

  /** `f"{NVIM_CONFIG_REMOTE}/{rel_path}"`. */
  function RemotePath(rel: seq<string>): string {
    Config.NvimConfigRemote + "/" + RelPath(rel)
  }

  // ---------------------------------------------------------------------
  // The walk, as a specification

  function FileVisit(path: seq<string>, c: Node): seq<Visit> {
    if c.File? && !Excluded(c.name) then [Visit(path + [c.name], c.content)] else []
  }

  /** The non-excluded files directly among `cs`, in order. */
  function FileVisits(path: seq<string>, cs: seq<Node>): seq<Visit> {
    if cs == [] then [] else FileVisits(path, cs[..|cs| - 1]) + FileVisit(path, cs[|cs| - 1])
  }

  /** Everything the top-down walk of `d` (reached at `path`) visits: first the
      files of `d` itself, then, in order, each subdirectory whose name is not
      excluded. */
  function Walk(path: seq<string>, d: Node): seq<Visit>
    decreases d, 1, 0
  {
    if d.Dir? then FileVisits(path, d.children) + Subwalks(path, d, 0) else []
  }

  function Subwalks(path: seq<string>, d: Node, i: nat): seq<Visit>
    requires d.Dir? && i <= |d.children|
    decreases d, 0, |d.children| - i
  {
    if i == |d.children| then []
    else
      var c := d.children[i];
      (if !c.File? && !Excluded(c.name) then Walk(path + [c.name], c) else [])
      + Subwalks(path, d, i + 1)
  }

  /** The files `collect_files(root)` reads, in order. */
  function Collected(root: Node): seq<Visit> {
    Walk([], root)
  }

  function EntryOf(v: Visit): seq<Entry> {
    match v.content
    case Readable(data) => [Entry(RemotePath(v.rel), data)]
    case Unreadable(_) => []
  }

  function SkipOf(v: Visit): seq<Skip> {
    match v.content
    case Readable(_) => []
    case Unreadable(e) => [Skip(RelPath(v.rel), e)]
  }

  /** The returned list for a sequence of visits: readable files only. */
  function Entries(vs: seq<Visit>): seq<Entry> {
    if vs == [] then [] else Entries(vs[..|vs| - 1]) + EntryOf(vs[|vs| - 1])
  }

  /** The warnings printed for a sequence of visits: unreadable files only. */
  function Skips(vs: seq<Visit>): seq<Skip> {
    if vs == [] then [] else Skips(vs[..|vs| - 1]) + SkipOf(vs[|vs| - 1])
  }

  // ---------------------------------------------------------------------
  // The loop of collect_files

  /** A directory `os.walk` has still to list, with its relative path. */
  datatype Frame = Frame(path: seq<string>, dir: Node)

  /** The visits still due from a stack of frames, top first. */
  function Pending(stack: seq<Frame>): seq<Visit> {
    if stack == [] then [] else Walk(stack[0].path, stack[0].dir) + Pending(stack[1..])
  }

  /** `dirs[:] = [d for d in dirs if d not in SKIP_PATTERNS]`: the
      subdirectories of `d`, from index `i`, that the walk will enter. */
  function KeptDirs(path: seq<string>, d: Node, i: nat): seq<Frame>
    requires d.Dir? && i <= |d.children|
    decreases |d.children| - i
  {
    if i == |d.children| then []
    else
      var c := d.children[i];
      (if !c.File? && !Excluded(c.name) then [Frame(path + [c.name], c)] else [])
      + KeptDirs(path, d, i + 1)
  }

  function Size(n: Node): nat {
    match n
    case Dir(_, cs) => 1 + Sizes(cs)
    case _ => 1
  }

  function Sizes(ns: seq<Node>): nat {
    if ns == [] then 0 else Size(ns[0]) + Sizes(ns[1..])
  }

  function StackSize(stack: seq<Frame>): nat {
    if stack == [] then 0 else Size(stack[0].dir) + StackSize(stack[1..])
  }

  lemma {:induction false} PendingAppend(a: seq<Frame>, b: seq<Frame>)
    ensures Pending(a + b) == Pending(a) + Pending(b)
    ensures StackSize(a + b) == StackSize(a) + StackSize(b)
  {
    if a != [] {
      assert (a + b)[0] == a[0] && (a + b)[1..] == a[1..] + b;
      PendingAppend(a[1..], b);
    } else {
      assert a + b == b;
    }
  }

  lemma {:induction false} KeptDirsWalk(path: seq<string>, d: Node, i: nat)
    requires d.Dir? && i <= |d.children|
    ensures Pending(KeptDirs(path, d, i)) == Subwalks(path, d, i)
    ensures StackSize(KeptDirs(path, d, i)) <= Sizes(d.children[i..])
    decreases |d.children| - i
  {
    if i < |d.children| {
      var c := d.children[i];
      var head: seq<Frame> := if !c.File? && !Excluded(c.name) then [Frame(path + [c.name], c)] else [];
      KeptDirsWalk(path, d, i + 1);
      PendingAppend(head, KeptDirs(path, d, i + 1));
      assert d.children[i..][1..] == d.children[i + 1..];
    }
  }

  lemma FileVisitsStep(path: seq<string>, cs: seq<Node>, j: nat)
    requires j < |cs|
    ensures FileVisits(path, cs[..j + 1]) == FileVisits(path, cs[..j]) + FileVisit(path, cs[j])
  {
    assert cs[..j + 1][..j] == cs[..j];
  }

  lemma VisitStep(done: seq<Visit>, v: Visit)
    ensures Entries(done + [v]) == Entries(done) + EntryOf(v)
    ensures Skips(done + [v]) == Skips(done) + SkipOf(v)
  {
    assert (done + [v])[..|done|] == done;
  }

  lemma {:induction false} VisitsAppend(a: seq<Visit>, b: seq<Visit>)
    ensures Entries(a + b) == Entries(a) + Entries(b)
    ensures Skips(a + b) == Skips(a) + Skips(b)
  {
    if b == [] {
      assert a + b == a;
    } else {
      var b' := b[..|b| - 1];
      assert a + b == (a + b') + [b[|b| - 1]];
      assert b == b' + [b[|b| - 1]];
      VisitsAppend(a, b');
      VisitStep(a + b', b[|b| - 1]);
      VisitStep(b', b[|b| - 1]);
    }
  }

  /** Listing the directory on top of the stack: its own files come first,
      then its kept subdirectories take its place on the stack. */
  lemma PopDir(frame: Frame, rest: seq<Frame>)
    requires frame.dir.Dir?
    ensures Pending([frame] + rest)
            == FileVisits(frame.path, frame.dir.children) + Pending(KeptDirs(frame.path, frame.dir, 0) + rest)
    ensures StackSize(KeptDirs(frame.path, frame.dir, 0) + rest) < StackSize([frame] + rest)
  {
    PopFrame(frame, rest);
    KeptDirsWalk(frame.path, frame.dir, 0);
    assert frame.dir.children[0..] == frame.dir.children;
    PendingAppend(KeptDirs(frame.path, frame.dir, 0), rest);
    PopDirPending(frame, rest);
  }

  lemma PopDirPending(frame: Frame, rest: seq<Frame>)
    requires frame.dir.Dir?
    requires Pending([frame] + rest) == Walk(frame.path, frame.dir) + Pending(rest)
    requires Pending(KeptDirs(frame.path, frame.dir, 0) + rest)
             == Subwalks(frame.path, frame.dir, 0) + Pending(rest)
    ensures Pending([frame] + rest)
            == FileVisits(frame.path, frame.dir.children) + Pending(KeptDirs(frame.path, frame.dir, 0) + rest)
  {
    var files := FileVisits(frame.path, frame.dir.children);
    var below := Subwalks(frame.path, frame.dir, 0);
    assert Walk(frame.path, frame.dir) == files + below;
    assert (files + below) + Pending(rest) == files + (below + Pending(rest));
  }

  lemma PopFrame(frame: Frame, rest: seq<Frame>)
    ensures Pending([frame] + rest) == Walk(frame.path, frame.dir) + Pending(rest)
    ensures StackSize([frame] + rest) == Size(frame.dir) + StackSize(rest)
  {
    assert ([frame] + rest)[0] == frame && ([frame] + rest)[1..] == rest;
  }

  lemma DirStep(done: seq<Visit>, frame: Frame, rest: seq<Frame>)
    requires frame.dir.Dir?
    ensures var here := FileVisits(frame.path, frame.dir.children);
            var stack' := KeptDirs(frame.path, frame.dir, 0) + rest;
            && done + Pending([frame] + rest) == (done + here) + Pending(stack')
            && Entries(done + here) == Entries(done) + Entries(here)
            && Skips(done + here) == Skips(done) + Skips(here)
            && StackSize(stack') < StackSize([frame] + rest)
  {
    var here := FileVisits(frame.path, frame.dir.children);
    var later := Pending(KeptDirs(frame.path, frame.dir, 0) + rest);
    PopDir(frame, rest);
    assert done + (here + later) == (done + here) + later;
    VisitsAppend(done, here);
  }

  lemma PopOther(frame: Frame, rest: seq<Frame>)
    requires !frame.dir.Dir?
    ensures Pending([frame] + rest) == Pending(rest)
    ensures StackSize(rest) < StackSize([frame] + rest)
  {
    PopFrame(frame, rest);
  }

  /** The `for filename in filenames` loop over one directory listing: every
      file whose name is not excluded is read; its bytes are kept under its
      remote path, or a warning names it when reading fails. */
  method ReadFiles(path: seq<string>, children: seq<Node>) returns (files: seq<Entry>, skipped: seq<Skip>)
    ensures files == Entries(FileVisits(path, children))
    ensures skipped == Skips(FileVisits(path, children))
  {
    files, skipped := [], [];
    ghost var done: seq<Visit> := [];
    var j := 0;
    while j < |children|
      invariant j <= |children|
      invariant done == FileVisits(path, children[..j])
      invariant files == Entries(done) && skipped == Skips(done)
    {
      var c := children[j];
      FileVisitsStep(path, children, j);
      if c.File? && !Excluded(c.name) {
        var rel := path + [c.name];
        match c.content {
          case Readable(data) =>
            files := files + [Entry(RemotePath(rel), data)];
          case Unreadable(e) =>
            skipped := skipped + [Skip(RelPath(rel), e)];
        }
        VisitStep(done, Visit(rel, c.content));
        done := done + [Visit(rel, c.content)];
      } else {
        assert done + FileVisit(path, c) == done;
      }
      j := j + 1;
    }
    assert children[..j] == children;
  }

  /** `collect_files`: the uploaded entries and the warnings are exactly those
      of the files the top-down walk reaches, in walk order. */
  method CollectFiles(root: Node) returns (files: seq<Entry>, skipped: seq<Skip>)
    ensures files == Entries(Collected(root))
    ensures skipped == Skips(Collected(root))
  {
    files, skipped := [], [];
    ghost var done: seq<Visit> := [];
    var stack := [Frame([], root)];
    assert Pending(stack) == Collected(root) by {
      assert stack == [Frame([], root)] + [];
      if root.Dir? { PopDir(Frame([], root), []); } else { PopOther(Frame([], root), []); }
    }
    while stack != []
      invariant done + Pending(stack) == Collected(root)
      invariant files == Entries(done) && skipped == Skips(done)
      decreases StackSize(stack)
    {
      var frame := stack[0];
      var rest := stack[1..];
      assert stack == [frame] + rest;
      if frame.dir.Dir? {
        // `dirs[:] = ...`: prune before anything below is entered
        var dirs := KeptDirs(frame.path, frame.dir, 0);
        var newFiles, newSkipped := ReadFiles(frame.path, frame.dir.children);
        DirStep(done, frame, rest);
        files, skipped := files + newFiles, skipped + newSkipped;
        done := done + FileVisits(frame.path, frame.dir.children);
        stack := dirs + rest;
      } else {
        PopOther(frame, rest);
        stack := rest;
      }
    }
    assert done + Pending(stack) == done;
  }

  // ---------------------------------------------------------------------
  // What the walk collects, stated against the tree itself

  /** The tree `d` holds, at relative path `r`, a file with content `c`
      (exclusions play no part here). */
  ghost predicate InTree(d: Node, r: seq<string>, c: Content)
    decreases d, 1
  {
    d.Dir? && r != [] && exists i :: 0 <= i < |d.children| && AtChild(d, i, r, c)
  }

  ghost predicate AtChild(d: Node, i: nat, r: seq<string>, c: Content)
    requires d.Dir? && i < |d.children| && r != []
    decreases d, 0
  {
    var n := d.children[i];
    n.name == r[0]
    && if |r| == 1 then n == File(r[0], c) else n.Dir? && InTree(n, r[1..], c)
  }

  /** No component of the relative path is an excluded name. */
  predicate Admitted(r: seq<string>) {
    forall k :: 0 <= k < |r| ==> !Excluded(r[k])
  }

  lemma {:induction false} FileVisitsSound(p: seq<string>, cs: seq<Node>, v: Visit)
    requires v in FileVisits(p, cs)
    ensures exists i :: 0 <= i < |cs| && cs[i].File? && !Excluded(cs[i].name)
                        && v == Visit(p + [cs[i].name], cs[i].content)
  {
    var last := |cs| - 1;
    assert FileVisits(p, cs) == FileVisits(p, cs[..last]) + FileVisit(p, cs[last]);
    if v in FileVisits(p, cs[..last]) {
      FileVisitsSound(p, cs[..last], v);
      var i :| 0 <= i < last && cs[..last][i].File? && !Excluded(cs[..last][i].name)
               && v == Visit(p + [cs[..last][i].name], cs[..last][i].content);
      assert cs[..last][i] == cs[i];
    } else {
      assert v == Visit(p + [cs[last].name], cs[last].content);
    }
  }

  lemma {:induction false} FileVisitsComplete(p: seq<string>, cs: seq<Node>, i: nat)
    requires i < |cs| && cs[i].File? && !Excluded(cs[i].name)
    ensures Visit(p + [cs[i].name], cs[i].content) in FileVisits(p, cs)
  {
    var last := |cs| - 1;
    assert FileVisits(p, cs) == FileVisits(p, cs[..last]) + FileVisit(p, cs[last]);
    if i < last {
      assert cs[..last][i] == cs[i];
      FileVisitsComplete(p, cs[..last], i);
    }
  }

  lemma FileVisitsMember(p: seq<string>, cs: seq<Node>, v: Visit)
    ensures v in FileVisits(p, cs) <==>
            exists i :: 0 <= i < |cs| && cs[i].File? && !Excluded(cs[i].name)
                        && v == Visit(p + [cs[i].name], cs[i].content)
  {
    if v in FileVisits(p, cs) {
      FileVisitsSound(p, cs, v);
    }
    if exists i :: 0 <= i < |cs| && cs[i].File? && !Excluded(cs[i].name)
                   && v == Visit(p + [cs[i].name], cs[i].content) {
      var i :| 0 <= i < |cs| && cs[i].File? && !Excluded(cs[i].name)
               && v == Visit(p + [cs[i].name], cs[i].content);
      FileVisitsComplete(p, cs, i);
    }
  }

  lemma {:induction false} SubwalksSound(p: seq<string>, d: Node, i: nat, v: Visit)
    requires d.Dir? && i <= |d.children|
    requires v in Subwalks(p, d, i)
    ensures exists j :: i <= j < |d.children| && d.children[j].Dir? && !Excluded(d.children[j].name)
                        && v in Walk(p + [d.children[j].name], d.children[j])
    decreases |d.children| - i
  {
    var c := d.children[i];
    var here := if !c.File? && !Excluded(c.name) then Walk(p + [c.name], c) else [];
    assert Subwalks(p, d, i) == here + Subwalks(p, d, i + 1);
    if v in here {
      assert c.Dir? && !Excluded(c.name) && v in Walk(p + [c.name], c);
    } else {
      SubwalksSound(p, d, i + 1, v);
    }
  }

  lemma {:induction false} SubwalksComplete(p: seq<string>, d: Node, i: nat, j: nat, v: Visit)
    requires d.Dir? && i <= j < |d.children|
    requires d.children[j].Dir? && !Excluded(d.children[j].name)
    requires v in Walk(p + [d.children[j].name], d.children[j])
    ensures v in Subwalks(p, d, i)
    decreases j - i
  {
    var c := d.children[i];
    var here := if !c.File? && !Excluded(c.name) then Walk(p + [c.name], c) else [];
    assert Subwalks(p, d, i) == here + Subwalks(p, d, i + 1);
    if i < j {
      SubwalksComplete(p, d, i + 1, j, v);
    }
  }

  lemma SubwalksMember(p: seq<string>, d: Node, i: nat, v: Visit)
    requires d.Dir? && i <= |d.children|
    ensures v in Subwalks(p, d, i) <==>
            exists j :: i <= j < |d.children| && d.children[j].Dir? && !Excluded(d.children[j].name)
                        && v in Walk(p + [d.children[j].name], d.children[j])
  {
    if v in Subwalks(p, d, i) {
      SubwalksSound(p, d, i, v);
    }
    if exists j :: i <= j < |d.children| && d.children[j].Dir? && !Excluded(d.children[j].name)
                   && v in Walk(p + [d.children[j].name], d.children[j]) {
      var j :| i <= j < |d.children| && d.children[j].Dir? && !Excluded(d.children[j].name)
               && v in Walk(p + [d.children[j].name], d.children[j]);
      SubwalksComplete(p, d, i, j, v);
    }
  }

  lemma AdmittedCons(r: seq<string>)
    requires r != []
    ensures Admitted(r) <==> !Excluded(r[0]) && Admitted(r[1..])
  {
    if !Excluded(r[0]) && Admitted(r[1..]) {
      forall k | 1 <= k < |r| ensures !Excluded(r[k]) {
        assert r[k] == r[1..][k - 1];
      }
    }
  }

  lemma RelBelow(p: seq<string>, n: string, rel: seq<string>)
    requires |p| + 1 < |rel| && rel[..|p| + 1] == p + [n]
    ensures rel[..|p|] == p && rel[|p|..] != []
    ensures rel[|p|..][0] == n && rel[|p|..][1..] == rel[|p| + 1..]
  {
    assert rel[..|p|] == rel[..|p| + 1][..|p|];
    assert rel[|p|] == rel[..|p| + 1][|p|];
  }

  lemma SubwalkSound(p: seq<string>, d: Node, j: nat, v: Visit)
    requires d.Dir? && j < |d.children| && d.children[j].Dir? && !Excluded(d.children[j].name)
    requires |p| + 1 < |v.rel| && v.rel[..|p| + 1] == p + [d.children[j].name]
    requires InTree(d.children[j], v.rel[|p| + 1..], v.content) && Admitted(v.rel[|p| + 1..])
    ensures |p| < |v.rel| && v.rel[..|p|] == p
    ensures InTree(d, v.rel[|p|..], v.content) && Admitted(v.rel[|p|..])
  {
    var r := v.rel[|p|..];
    RelBelow(p, d.children[j].name, v.rel);
    assert AtChild(d, j, r, v.content);
    AdmittedCons(r);
  }

  /** What the walk below `d`, entered at `p`, visits lies below `p`, is a
      file of `d` and has no excluded component below `p`. */
  lemma {:induction false} WalkSound(p: seq<string>, d: Node, v: Visit)
    requires v in Walk(p, d)
    ensures |p| < |v.rel| && v.rel[..|p|] == p
    ensures InTree(d, v.rel[|p|..], v.content) && Admitted(v.rel[|p|..])
    decreases d
  {
    var cs := d.children;
    assert Walk(p, d) == FileVisits(p, cs) + Subwalks(p, d, 0);
    if v in FileVisits(p, cs) {
      FileVisitsSound(p, cs, v);
      var i :| 0 <= i < |cs| && cs[i].File? && !Excluded(cs[i].name)
               && v == Visit(p + [cs[i].name], cs[i].content);
      FileSound(p, d, i, v);
    } else {
      SubwalksSound(p, d, 0, v);
      var j :| 0 <= j < |cs| && cs[j].Dir? && !Excluded(cs[j].name)
               && v in Walk(p + [cs[j].name], cs[j]);
      WalkSound(p + [cs[j].name], cs[j], v);
      SubwalkSound(p, d, j, v);
    }
  }

  lemma FileSound(p: seq<string>, d: Node, i: nat, v: Visit)
    requires d.Dir? && i < |d.children| && d.children[i].File? && !Excluded(d.children[i].name)
    requires v == Visit(p + [d.children[i].name], d.children[i].content)
    ensures |p| < |v.rel| && v.rel[..|p|] == p
    ensures InTree(d, v.rel[|p|..], v.content) && Admitted(v.rel[|p|..])
  {
    assert v.rel[..|p|] == p && v.rel[|p|..] == [d.children[i].name];
    assert AtChild(d, i, v.rel[|p|..], v.content);
  }

  /** Every file of `d` whose path below `d` has no excluded component is
      visited by the walk below `d`. */
  lemma {:induction false} WalkComplete(p: seq<string>, d: Node, v: Visit)
    requires |p| < |v.rel| && v.rel[..|p|] == p
    requires InTree(d, v.rel[|p|..], v.content) && Admitted(v.rel[|p|..])
    ensures v in Walk(p, d)
    decreases d
  {
    var cs := d.children;
    var r := v.rel[|p|..];
    var i :| 0 <= i < |cs| && AtChild(d, i, r, v.content);
    var c := cs[i];
    assert v.rel == p + r;
    assert !Excluded(r[0]);
    if |r| == 1 {
      assert v.rel == p + [c.name];
      FileVisitsMember(p, cs, v);
    } else {
      assert v.rel[..|p| + 1] == p + [c.name];
      assert v.rel[|p| + 1..] == r[1..];
      assert Admitted(r[1..]) by {
        forall k | 0 <= k < |r| - 1 ensures !Excluded(r[1..][k]) {
          assert r[1..][k] == r[k + 1];
        }
      }
      WalkComplete(p + [c.name], c, v);
      SubwalksMember(p, d, 0, v);
    }
  }

  /** `collect_files` reads exactly the files of the tree whose relative path
      has no excluded component: excluded directories are pruned with their
      whole subtree, excluded file names are skipped, nothing else is. */
  lemma CollectedExactly(root: Node, v: Visit)
    ensures v in Collected(root) <==> InTree(root, v.rel, v.content) && Admitted(v.rel)
  {
    assert v.rel[0..] == v.rel && v.rel[..0] == [];
    if v in Collected(root) {
      WalkSound([], root, v);
    }
    if InTree(root, v.rel, v.content) && Admitted(v.rel) {
      WalkComplete([], root, v);
    }
  }

  lemma {:induction false} EntriesMember(vs: seq<Visit>, e: Entry)
    ensures e in Entries(vs) <==>
            exists v :: v in vs && v.content == Readable(e.data) && e.path == RemotePath(v.rel)
  {
    if vs != [] {
      var init := vs[..|vs| - 1];
      EntriesMember(init, e);
      assert vs == init + [vs[|vs| - 1]];
    }
  }

  lemma {:induction false} SkipsMember(vs: seq<Visit>, w: Skip)
    ensures w in Skips(vs) <==>
            exists v :: v in vs && v.content == Unreadable(w.error) && w.relPath == RelPath(v.rel)
  {
    if vs != [] {
      var init := vs[..|vs| - 1];
      SkipsMember(init, w);
      assert vs == init + [vs[|vs| - 1]];
    }
  }

  /** Every file visited ends up either in the returned list or in a warning,
      never both and never neither: one unreadable file does not stop the walk. */
  lemma {:induction false} NothingLost(vs: seq<Visit>)
    ensures |Entries(vs)| + |Skips(vs)| == |vs|
  {
    if vs != [] {
      NothingLost(vs[..|vs| - 1]);
    }
  }

  /** The returned entries are exactly the readable admitted files of the
      tree, each with its full contents under `NVIM_CONFIG_REMOTE/relpath`. */
  lemma CollectedEntry(root: Node, e: Entry)
    ensures e in Entries(Collected(root)) <==>
            exists rel :: InTree(root, rel, Readable(e.data)) && Admitted(rel) && e.path == RemotePath(rel)
  {
    EntriesMember(Collected(root), e);
    if e in Entries(Collected(root)) {
      var v :| v in Collected(root) && v.content == Readable(e.data) && e.path == RemotePath(v.rel);
      CollectedExactly(root, v);
    }
    if exists rel :: InTree(root, rel, Readable(e.data)) && Admitted(rel) && e.path == RemotePath(rel) {
      var rel :| InTree(root, rel, Readable(e.data)) && Admitted(rel) && e.path == RemotePath(rel);
      CollectedExactly(root, Visit(rel, Readable(e.data)));
    }
  }

  /** A warning is printed exactly for each unreadable admitted file. */
  lemma CollectedSkip(root: Node, w: Skip)
    ensures w in Skips(Collected(root)) <==>
            exists rel :: InTree(root, rel, Unreadable(w.error)) && Admitted(rel) && w.relPath == RelPath(rel)
  {
    SkipsMember(Collected(root), w);
    if w in Skips(Collected(root)) {
      var v :| v in Collected(root) && v.content == Unreadable(w.error) && w.relPath == RelPath(v.rel);
      CollectedExactly(root, v);
    }
    if exists rel :: InTree(root, rel, Unreadable(w.error)) && Admitted(rel) && w.relPath == RelPath(rel) {
      var rel :| InTree(root, rel, Unreadable(w.error)) && Admitted(rel) && w.relPath == RelPath(rel);
      CollectedExactly(root, Visit(rel, Unreadable(w.error)));
    }
  }

  /** Every name in the tree below `d` is a single path component, as a
      POSIX file system guarantees. */
  ghost predicate WellNamed(d: Node)
    decreases d
  {
    d.Dir? ==> forall i :: 0 <= i < |d.children| ==> '/' !in d.children[i].name && WellNamed(d.children[i])
  }

  lemma {:induction false} InTreeComponents(d: Node, r: seq<string>, c: Content)
    requires WellNamed(d) && InTree(d, r, c)
    ensures forall k :: 0 <= k < |r| ==> '/' !in r[k]
    decreases d
  {
    var i :| 0 <= i < |d.children| && AtChild(d, i, r, c);
    if |r| > 1 {
      InTreeComponents(d.children[i], r[1..], c);
      forall k | 1 <= k < |r| ensures '/' !in r[k] {
        assert r[k] == r[1..][k - 1];
      }
    }
  }

  /** Read back from the remote path string itself: every returned path is
      `NVIM_CONFIG_REMOTE + "/"` followed by components, none of them an
      excluded name. */
  lemma EntryPathComponents(root: Node, e: Entry)
    requires WellNamed(root)
    requires e in Entries(Collected(root))
    ensures StartsWith(e.path, Config.NvimConfigRemote + "/")
    ensures var pieces := Split(e.path[|Config.NvimConfigRemote + "/"|..], '/');
            forall k :: 0 <= k < |pieces| ==> !Excluded(pieces[k])
  {
    CollectedEntry(root, e);
    var rel :| InTree(root, rel, Readable(e.data)) && Admitted(rel) && e.path == RemotePath(rel);
    InTreeComponents(root, rel, Readable(e.data));
    var prefix := Config.NvimConfigRemote + "/";
    assert e.path == prefix + RelPath(rel);
    assert e.path[..|prefix|] == prefix;
    assert e.path[|prefix|..] == RelPath(rel);
    SplitJoin(rel, '/');
  }
}

/**
 * The write-if-changed sync of a staged locale compile into its output directory, over a model
 * of a directory tree as its files and its directories, both by path relative to the root.
 */
module DirectorySync {
  import opened ByteStrings

  type Path = seq<string>

  /** A directory on disk; `[]` is its root, which may be missing. */
  datatype Tree = Tree(files: map<Path, Bytes>, dirs: set<Path>) {

    /** Files are no directories, and everything but the root lies in a directory. */
    ghost predicate Valid() {
      && (forall p :: p in files ==> p != [] && p !in dirs && Parent(p) in dirs)
      && (forall d :: d in dirs && d != [] ==> Parent(d) in dirs)
    }
  }

  function Parent(p: Path): Path
    requires p != []
  {
    p[..|p| - 1]
  }

  lemma {:induction false} AncestorsAreDirs(t: Tree, p: Path, q: Path)
    requires t.Valid() && (p in t.files || p in t.dirs) && q < p
    ensures q in t.dirs
    decreases |p|
  {
    if q != Parent(p) {
      assert q < Parent(p);
      AncestorsAreDirs(t, Parent(p), q);
    }
  }

  // ----- the diff

  datatype Diff = Diff(changed: seq<Path>, removed: seq<Path>)

  predicate Differs(stage: Tree, target: Tree, p: Path) {
    p in stage.files && (p !in target.files || stage.files[p] != target.files[p])
  }

  ghost predicate IsDiff(stage: Tree, target: Tree, d: Diff) {
    && (forall p :: p in d.changed <==> Differs(stage, target, p))
    && (forall p :: p in d.removed <==> p in target.files && p !in stage.files)
  }

  method ListFiles(t: Tree) returns (paths: seq<Path>)
    ensures forall p :: p in paths <==> p in t.files
  {
    paths := [];
    var left := t.files.Keys;
    while left != {}
      invariant left <= t.files.Keys
      invariant forall p :: p in paths <==> p in t.files && p !in left
      decreases left
    {
      var p :| p in left;
      paths, left := paths + [p], left - {p};
    }
  }

  method DiffDirectories(stage: Tree, target: Tree) returns (d: Diff)
    ensures IsDiff(stage, target, d)
  {
    var stageFiles := ListFiles(stage);
    var targetFiles := ListFiles(target);
    var changed: seq<Path>, removed: seq<Path> := [], [];
    for i := 0 to |stageFiles|
      invariant forall p :: p in changed <==> p in stageFiles[..i] && Differs(stage, target, p)
    {
      var p := stageFiles[i];
      assert p in stageFiles;
      if p !in target.files {
        changed := changed + [p];
      } else if stage.files[p] != target.files[p] {
        changed := changed + [p];
      }
    }
    for i := 0 to |targetFiles|
      invariant forall p :: p in removed <==> p in targetFiles[..i] && p !in stage.files
    {
      if targetFiles[i] !in stage.files {
        removed := removed + [targetFiles[i]];
      }
    }
    d := Diff(changed, removed);
    assert stageFiles[..|stageFiles|] == stageFiles && targetFiles[..|targetFiles|] == targetFiles;
  }

  // ----- writing one file

  predicate Within(q: Path, p: Path) { q <= p }

  /** The path and all its ancestors, the root included. */
  function Prefixes(p: Path): (r: set<Path>)
    ensures forall q :: q in r <==> Within(q, p)
  {
    if p == [] then {p}
    else
      assert forall q :: Within(q, p) <==> q == p || Within(q, Parent(p));
      Prefixes(Parent(p)) + {p}
  }

  lemma PrefixesOfParent(p: Path, q: Path)
    requires p != []
    ensures q in Prefixes(Parent(p)) <==> q < p
  {
    assert q <= Parent(p) <==> q < p;
  }

  /** Creating `dir` and its ancestors fails when one of them is a file. */
  predicate CanMkdir(t: Tree, dir: Path) {
    forall q :: q in Prefixes(dir) ==> q !in t.files
  }

  function Written(t: Tree, p: Path, data: Bytes): Tree
    requires p != []
  {
    Tree(t.files[p := data], t.dirs + Prefixes(Parent(p)))
  }

  /** No staged file meets a directory of the target or lies below one of its files. */
  ghost predicate NoClash(stage: Tree, target: Tree) {
    forall p :: p in stage.files ==> Clear(target, p)
  }

  ghost predicate Clear(target: Tree, p: Path) {
    p !in target.dirs && forall q :: q < p ==> q !in target.files
  }

  /** The target after the first `n` changed files have been copied. */
  function Copied(stage: Tree, target: Tree, changed: seq<Path>, n: nat): Tree
    requires n <= |changed| && forall p :: p in changed ==> p in stage.files && p != []
  {
    if n == 0 then target
    else Written(Copied(stage, target, changed, n - 1), changed[n - 1], stage.files[changed[n - 1]])
  }

  ghost predicate Changeable(stage: Tree, changed: seq<Path>) {
    forall p :: p in changed ==> p in stage.files && p != []
  }

  lemma {:induction false} CopiedFiles(stage: Tree, target: Tree, changed: seq<Path>, n: nat, p: Path)
    requires Changeable(stage, changed) && n <= |changed|
    ensures var t := Copied(stage, target, changed, n);
            && (p in t.files <==> p in target.files || p in changed[..n])
            && (p in t.files ==> t.files[p] == if p in changed[..n] then stage.files[p] else target.files[p])
  {
    hide Prefixes;
    if n > 0 {
      CopiedFiles(stage, target, changed, n - 1, p);
      assert changed[n - 1] in changed;
      assert changed[..n] == changed[..n - 1] + [changed[n - 1]];
    }
  }

  lemma {:induction false} CopiedDirs(stage: Tree, target: Tree, changed: seq<Path>, n: nat, d: Path)
    requires Changeable(stage, changed) && n <= |changed|
    ensures d in Copied(stage, target, changed, n).dirs <==> d in target.dirs || exists i :: 0 <= i < n && d < changed[i]
  {
    hide Prefixes;
    if n > 0 {
      CopiedDirs(stage, target, changed, n - 1, d);
      assert changed[n - 1] in changed;
      PrefixesOfParent(changed[n - 1], d);
    }
  }

  /** While nothing has clashed yet, copying clashes exactly where the original target did. */
  lemma CopyClashes(stage: Tree, target: Tree, changed: seq<Path>, n: nat)
    requires stage.Valid() && Changeable(stage, changed) && n < |changed| && changed[n] != []
    ensures var t := Copied(stage, target, changed, n);
            Clear(target, changed[n]) <==> CanMkdir(t, Parent(changed[n])) && changed[n] !in t.dirs
  {
    hide Prefixes, Copied;
    var t, p := Copied(stage, target, changed, n), changed[n];
    assert p in changed;
    forall q ensures q in Prefixes(Parent(p)) <==> q < p {
      PrefixesOfParent(p, q);
    }
    forall q | q < p ensures q in t.files <==> q in target.files {
      CopiedFiles(stage, target, changed, n, q);
      AncestorsAreDirs(stage, p, q);
      StagedDirIsNotChanged(stage, changed, n, q);
    }
    CopiedDirs(stage, target, changed, n, p);
    if i :| 0 <= i < n && p < changed[i] {
      assert changed[i] in changed;
      AncestorsAreDirs(stage, changed[i], p);
    }
  }

  lemma StagedDirIsNotChanged(stage: Tree, changed: seq<Path>, n: nat, q: Path)
    requires stage.Valid() && Changeable(stage, changed) && n <= |changed| && q in stage.dirs
    ensures q !in changed[..n]
  {
    assert forall p :: p in changed[..n] ==> p in changed;
  }

  // ----- pruning

  ghost predicate HasFileBelow(files: map<Path, Bytes>, d: Path) {
    exists f :: f in files && d < f
  }

  /** The directories below `dir` that hold no file at any depth. */
  ghost function EmptyBelow(t: Tree, dir: Path): set<Path> {
    set d | d in t.dirs && dir < d && !HasFileBelow(t.files, d)
  }

  /** `readdir` of `d` finds an entry. */
  predicate HasEntry(t: Tree, d: Path) {
    || (exists f :: f in t.files && f != [] && Parent(f) == d)
    || (exists e :: e in t.dirs && e != [] && Parent(e) == d)
  }

  function ChildDirs(t: Tree, dir: Path): set<Path> {
    set d | d in t.dirs && d != [] && Parent(d) == dir
  }

  /** Once everything empty below `d` is gone, `d` has an entry exactly when it has a file below. */
  lemma EntryMeansFile(t: Tree, d: Path)
    requires t.Valid() && EmptyBelow(t, d) == {}
    ensures HasEntry(t, d) <==> HasFileBelow(t.files, d)
  {
    if HasFileBelow(t.files, d) {
      var f :| f in t.files && d < f;
      var child := f[..|d| + 1];
      assert Parent(child) == d;
      if child != f {
        AncestorsAreDirs(t, f, child);
      }
    }
    if e :| e in t.dirs && e != [] && Parent(e) == d {
      assert e !in EmptyBelow(t, d);
      var f :| f in t.files && e < f;
      assert d < f;
    }
  }

  lemma PrunedIsValid(t: Tree, gone: set<Path>)
    requires t.Valid() && gone <= t.dirs
    requires forall d :: d in gone ==> !HasFileBelow(t.files, d)
    requires forall d :: d in t.dirs && d !in gone && d != [] ==> Parent(d) !in gone
    ensures t.(dirs := t.dirs - gone).Valid()
  {
    forall p | p in t.files ensures Parent(p) !in gone {
      assert Parent(p) < p;
    }
  }

  /** The directories of `t` without those that pruning the children `done` of `dir` removes. */
  ghost function GoneVia(t: Tree, done: set<Path>): set<Path> {
    set d, c | c in done && d in t.dirs && c <= d && !HasFileBelow(t.files, d) :: d
  }

  lemma FileBelowParent(files: map<Path, Bytes>, d: Path)
    requires d != []
    ensures HasFileBelow(files, d) ==> HasFileBelow(files, Parent(d))
  {
    if f :| f in files && d < f {
      assert Parent(d) < f;
    }
  }

  lemma GoneKeepsValid(t: Tree, done: set<Path>)
    requires t.Valid() && forall c :: c in done ==> c != []
    ensures t.(dirs := t.dirs - GoneVia(t, done)).Valid()
  {
    var gone := GoneVia(t, done);
    forall d | d in t.dirs && d !in gone && d != [] ensures Parent(d) !in gone {
      if Parent(d) in gone {
        var c :| c in done && c <= Parent(d) && !HasFileBelow(t.files, Parent(d));
        assert c <= d;
        FileBelowParent(t.files, d);
      }
    }
    PrunedIsValid(t, gone);
  }

  lemma AllChildrenGone(t: Tree, dir: Path)
    requires t.Valid()
    ensures GoneVia(t, ChildDirs(t, dir)) == EmptyBelow(t, dir)
  {
    var gone, empty := GoneVia(t, ChildDirs(t, dir)), EmptyBelow(t, dir);
    forall d ensures d in gone <==> d in empty {
      if d in gone {
        var c :| c in ChildDirs(t, dir) && c <= d;
        assert dir < c;
      }
      if d in empty {
        var c := d[..|dir| + 1];
        assert Parent(c) == dir;
        if c != d {
          AncestorsAreDirs(t, d, c);
        }
        assert c in ChildDirs(t, dir) && c <= d;
      }
    }
  }

  ghost function DirsBelow(t: Tree, dir: Path): set<Path> {
    set d | d in t.dirs && dir < d
  }

  lemma GoneViaOneMore(t: Tree, done: set<Path>, c: Path, d: Path)
    ensures d in GoneVia(t, done + {c}) <==>
              d in GoneVia(t, done) || (d in t.dirs && c <= d && !HasFileBelow(t.files, d))
  {
    if d in GoneVia(t, done) {
      var b :| b in done && b <= d && d in t.dirs && !HasFileBelow(t.files, d);
      assert b in done + {c};
    }
    if d in t.dirs && c <= d && !HasFileBelow(t.files, d) {
      assert c in done + {c};
    }
  }

  lemma SiblingsAreApart(b: Path, c: Path, d: Path)
    requires |b| == |c| && b <= d && c <= d
    ensures b == c
  {
    assert b == d[..|b|] && c == d[..|c|];
  }

  lemma PruneChild(t: Tree, done: set<Path>, c: Path, dir: Path)
    requires t.Valid() && c in ChildDirs(t, dir) && c !in done && done <= ChildDirs(t, dir)
    ensures var now := t.(dirs := t.dirs - GoneVia(t, done));
            var then' := now.(dirs := now.dirs - EmptyBelow(now, c));
            && c in then'.dirs
            && (if HasFileBelow(t.files, c) then then'.dirs else then'.dirs - {c}) == t.dirs - GoneVia(t, done + {c})
  {
    hide HasFileBelow;
    var now := t.(dirs := t.dirs - GoneVia(t, done));
    var then' := now.(dirs := now.dirs - EmptyBelow(now, c));
    if c in GoneVia(t, done) {
      var b :| b in done && b <= c;
      SiblingsAreApart(b, c, c);
    }
    var result := if HasFileBelow(t.files, c) then then'.dirs else then'.dirs - {c};
    forall d ensures d in result <==> d in t.dirs - GoneVia(t, done + {c}) {
      GoneViaOneMore(t, done, c, d);
      assert d in EmptyBelow(now, c) <==> d in now.dirs && c < d && !HasFileBelow(t.files, d);
      assert c <= d <==> c == d || c < d;
    }
  }

  /** The directory being synced. `touched` collects every path whose file was written or removed. */
  class OutputDirectory {
    var tree: Tree
    var touched: set<Path>

    constructor (tree: Tree)
      ensures this.tree == tree && touched == {}
    {
      this.tree, touched := tree, {};
    }

    method PruneEmptyDirectories(dir: Path)
      requires tree.Valid()
      modifies this`tree
      ensures tree == old(tree).(dirs := old(tree).dirs - EmptyBelow(old(tree), dir))
      ensures tree.Valid()
      decreases DirsBelow(tree, dir)
    {
      ghost var before := tree;
      var children := ChildDirs(tree, dir);
      ghost var done: set<Path> := {};
      var left := children;
      assert GoneVia(before, {}) == {};
      while left != {}
        invariant done + left == ChildDirs(before, dir) && done !! left
        invariant tree == before.(dirs := before.dirs - GoneVia(before, done))
        invariant tree.Valid()
        decreases left
      {
        var child :| child in left;
        assert child in ChildDirs(before, dir) && dir < child;
        PruneChild(before, done, child, dir);
        ghost var now := tree;
        PruneMeasure(before, now, dir, child);
        PruneEmptyDirectories(child);
        NothingEmptyLeft(now, child);
        EntryMeansFile(tree, child);
        if !HasEntry(tree, child) {
          tree := tree.(dirs := tree.dirs - {child});
        }
        done, left := done + {child}, left - {child};
        GoneKeepsValid(before, done);
      }
      assert done == ChildDirs(before, dir);
      AllChildrenGone(before, dir);
    }

    /** `mkdir` of the parent with its ancestors, then `copyFile`; false when either throws. */
    method CopyInto(p: Path, data: Bytes) returns (ok: bool)
      requires p != []
      modifies this
      ensures ok <==> CanMkdir(old(tree), Parent(p)) && p !in old(tree).dirs
      ensures ok ==> tree == Written(old(tree), p, data) && touched == old(touched) + {p}
      ensures !ok ==> tree.files == old(tree).files && touched == old(touched)
    {
      if !CanMkdir(tree, Parent(p)) {
        return false;
      }
      assert p !in Prefixes(Parent(p));
      tree := tree.(dirs := tree.dirs + Prefixes(Parent(p)));
      if p in tree.dirs {
        return false;
      }
      tree := tree.(files := tree.files[p := data]);
      touched := touched + {p};
      return true;
    }

    method CopyChanged(stage: Tree, changed: seq<Path>) returns (ok: bool)
      requires stage.Valid() && Changeable(stage, changed)
      modifies this
      ensures ok <==> forall p :: p in changed ==> Clear(old(tree), p)
      ensures ok ==> tree == Copied(stage, old(tree), changed, |changed|)
      ensures touched <= old(touched) + (set p | p in changed)
    {
      hide Clear, CanMkdir, Written;
      for i := 0 to |changed|
        invariant forall j :: 0 <= j < i ==> Clear(old(tree), changed[j])
        invariant tree == Copied(stage, old(tree), changed, i)
        invariant touched <= old(touched) + (set p | p in changed)
      {
        assert changed[i] in changed;
        CopyClashes(stage, old(tree), changed, i);
        var copied := CopyInto(changed[i], stage.files[changed[i]]);
        if !copied {
          return false;
        }
      }
      return true;
    }

    method RemoveFiles(removed: seq<Path>)
      modifies this
      ensures tree == old(tree).(files := old(tree).files - (set p | p in removed))
      ensures touched <= old(touched) + (set p | p in removed)
    {
      for i := 0 to |removed|
        invariant tree == old(tree).(files := old(tree).files - (set p | p in removed[..i]))
        invariant touched <= old(touched) + (set p | p in removed)
      {
        assert removed[..i + 1] == removed[..i] + [removed[i]];
        tree := tree.(files := tree.files - {removed[i]});
        touched := touched + {removed[i]};
      }
      assert removed[..|removed|] == removed;
    }

    /**
     * Applies a diff taken between `stage` and this directory. It succeeds exactly when no staged
     * file clashes; then the files equal the staged ones, only files of the diff were touched,
     * no empty directory is left, and another diff finds nothing.
     */
    method ApplyDirectoryDiff(stage: Tree, diff: Diff) returns (ok: bool)
      requires stage.Valid() && tree.Valid() && IsDiff(stage, tree, diff)
      modifies this
      ensures ok <==> NoClash(stage, old(tree))
      ensures ok ==> tree.Valid() && tree.files == stage.files
      ensures ok ==> forall d :: d in tree.dirs && d != [] ==> HasFileBelow(tree.files, d)
      ensures ok ==> forall next :: IsDiff(stage, tree, next) ==> next == Diff([], [])
      ensures touched <= old(touched) + (set p | p in diff.changed) + (set p | p in diff.removed)
    {
      hide IsDiff, NoClash, HasFileBelow, Changeable;
      ghost var target := tree;
      DiffIsChangeable(stage, target, diff);
      ok := CopyChanged(stage, diff.changed);
      OnlyChangedFilesCanClash(stage, target, diff);
      if !ok {
        return;
      }
      RemoveFiles(diff.removed);
      SyncedTree(stage, target, diff);
      assert tree.Valid() && tree.files == stage.files;
      ghost var synced := tree;
      PruneEmptyDirectories([]);
      NothingEmptyRemains(synced);
      SecondDiffIsEmpty(stage, tree);
    }
  }

  lemma DiffIsChangeable(stage: Tree, target: Tree, diff: Diff)
    requires stage.Valid() && IsDiff(stage, target, diff)
    ensures Changeable(stage, diff.changed)
  {
  }

  /** A staged file that the target already holds unchanged clashes with nothing. */
  lemma OnlyChangedFilesCanClash(stage: Tree, target: Tree, diff: Diff)
    requires target.Valid() && IsDiff(stage, target, diff)
    ensures (forall p :: p in diff.changed ==> Clear(target, p)) <==> NoClash(stage, target)
  {
    forall p | p in stage.files && p !in diff.changed ensures Clear(target, p) {
      assert !Differs(stage, target, p);
      forall q | q < p ensures q !in target.files {
        AncestorsAreDirs(target, p, q);
      }
    }
  }

  lemma SyncedFiles(stage: Tree, target: Tree, diff: Diff)
    requires Changeable(stage, diff.changed) && IsDiff(stage, target, diff)
    ensures Copied(stage, target, diff.changed, |diff.changed|).files - (set p | p in diff.removed) == stage.files
  {
    hide Copied;
    var changed, n := diff.changed, |diff.changed|;
    var files := Copied(stage, target, changed, n).files - (set p | p in diff.removed);
    assert changed[..n] == changed;
    forall p ensures p in files <==> p in stage.files {
      CopiedFiles(stage, target, changed, n, p);
      assert p in changed <==> Differs(stage, target, p);
      assert p in diff.removed <==> p in target.files && p !in stage.files;
    }
    forall p | p in files ensures files[p] == stage.files[p] {
      CopiedFiles(stage, target, changed, n, p);
      assert p in changed <==> Differs(stage, target, p);
    }
  }

  lemma SyncedTree(stage: Tree, target: Tree, diff: Diff)
    requires stage.Valid() && target.Valid() && Changeable(stage, diff.changed) && IsDiff(stage, target, diff)
    requires forall p :: p in diff.changed ==> Clear(target, p)
    ensures var copied := Copied(stage, target, diff.changed, |diff.changed|);
            var synced := copied.(files := copied.files - (set p | p in diff.removed));
            synced.files == stage.files && synced.Valid()
  {
    var changed, n := diff.changed, |diff.changed|;
    var copied := Copied(stage, target, changed, n);
    SyncedFiles(stage, target, diff);
    forall p | p in stage.files ensures p != [] && p !in copied.dirs && Parent(p) in copied.dirs {
      CopiedDirs(stage, target, changed, n, p);
      CopiedDirs(stage, target, changed, n, Parent(p));
      StagedFileIsNoDir(stage, target, diff, p);
    }
    forall d | d in copied.dirs && d != [] ensures Parent(d) in copied.dirs {
      CopiedDirs(stage, target, changed, n, d);
      CopiedDirs(stage, target, changed, n, Parent(d));
      if d !in target.dirs {
        var i :| 0 <= i < n && d < changed[i];
        assert Parent(d) < changed[i];
      }
    }
  }

  lemma StagedFileIsNoDir(stage: Tree, target: Tree, diff: Diff, p: Path)
    requires stage.Valid() && target.Valid() && Changeable(stage, diff.changed) && IsDiff(stage, target, diff)
    requires forall q :: q in diff.changed ==> Clear(target, q)
    requires p in stage.files
    ensures p !in target.dirs && forall i :: 0 <= i < |diff.changed| ==> !(p < diff.changed[i])
    ensures Parent(p) in target.dirs || exists i :: 0 <= i < |diff.changed| && Parent(p) < diff.changed[i]
  {
    var changed := diff.changed;
    assert p in changed <==> Differs(stage, target, p);
    forall i | 0 <= i < |changed| ensures !(p < changed[i]) {
      assert changed[i] in changed;
      if p < changed[i] {
        AncestorsAreDirs(stage, changed[i], p);
      }
    }
    if p in changed {
      var i :| 0 <= i < |changed| && changed[i] == p;
      assert Parent(p) < changed[i];
    }
  }

  lemma NothingEmptyRemains(t: Tree)
    ensures forall d :: d in t.dirs - EmptyBelow(t, []) && d != [] ==> HasFileBelow(t.files, d)
  {
  }

  lemma HeadIsMember(s: seq<Path>)
    requires s != []
    ensures s[0] in s
  {
  }

  lemma NoMembers(s: seq<Path>)
    requires forall p :: p !in s
    ensures s == []
  {
    if s != [] {
      HeadIsMember(s);
    }
  }

  lemma SecondDiffIsEmpty(stage: Tree, target: Tree)
    requires target.files == stage.files
    ensures forall next :: IsDiff(stage, target, next) ==> next == Diff([], [])
  {
    forall next | IsDiff(stage, target, next) ensures next == Diff([], []) {
      assert forall p :: !Differs(stage, target, p);
      NoMembers(next.changed);
      NoMembers(next.removed);
    }
  }

  lemma PruneMeasure(before: Tree, now: Tree, dir: Path, child: Path)
    requires now.dirs <= before.dirs && child in before.dirs && dir < child
    ensures DirsBelow(now, child) < DirsBelow(before, dir)
  {
    var a, b := DirsBelow(now, child), DirsBelow(before, dir);
    forall d | d in a ensures d in b {
      assert d[..|dir|] == child[..|dir|] == dir;
    }
    assert child in b && child !in a;
    assert a <= b && a != b;
  }

  lemma NothingEmptyLeft(now: Tree, child: Path)
    ensures EmptyBelow(now.(dirs := now.dirs - EmptyBelow(now, child)), child) == {}
  {
  }
}

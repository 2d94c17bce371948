/** The writing half of the repository handle as an object over a file system it changes. */
module RepoWriter {
  import opened FileSystem
  import opened PathText
  import opened PathFence
  import opened WriterFence
  import opened FenceAnswers

  class Disk {
    var tree: FS
    const cwd: Path

    constructor (tree: FS, cwd: Path)
      ensures this.tree == tree && this.cwd == cwd
    {
      this.tree, this.cwd := tree, cwd;
    }

    /** deepestExisting: walk up until a path resolves; "/" and "." are their own parents. */
    method DeepestExisting(t: Typed) returns (found: Evaluated)
      ensures found == EvalSymlinks(tree, cwd, Deepest(tree, cwd, t))
    {
      var cur := t;
      while true
        invariant Deepest(tree, cwd, t) == Deepest(tree, cwd, cur)
        decreases |cur.segs|
      {
        found := EvalSymlinks(tree, cwd, cur);
        if found.Found? || cur.segs == [] {
          return;
        }
        cur := cur.DirOf();
      }
    }
  }

  class Writer {
    const disk: Disk
    const root: Typed

    constructor (disk: Disk, root: Typed)
      ensures this.disk == disk && this.root == root
    {
      this.disk, this.root := disk, root;
    }

    /** The changes between two trees are all at or below the real root. */
    ghost predicate StaysInside(before: FS, after: FS) {
      EvalSymlinks(before, disk.cwd, root).Found? && ChangesOnlyUnder(before, after, RootPlace(before, disk.cwd, root))
    }

    method ResolvePath(rel: Typed, follows: bool) returns (r: Resolved)
      ensures r == ResolveForWrite(disk.tree, disk.cwd, root, rel, follows)
    {
      if !Permits(rel) {
        return Outside;
      }
      var abs := Join(root, rel.segs);
      var rootReal := EvalSymlinks(disk.tree, disk.cwd, root);
      if rootReal.Missing? {
        return Unresolved;
      }
      var anchor := disk.DeepestExisting(abs.DirOf());
      if anchor.Missing? {
        return Unresolved;
      }
      if !Within(rootReal.dest, anchor.dest) {
        return Outside;
      }
      if follows && LstatIsLink(disk.tree, disk.cwd, abs) {
        var target := EvalSymlinks(disk.tree, disk.cwd, abs);
        if target.Missing? || !Within(rootReal.dest, target.dest) {
          return Outside;
        }
      }
      r := Accepted(abs);
    }

    /** Whatever the answer, nothing outside the real root has changed, and a refusal has changed
        nothing at all. */
    method WriteAt(rel: Typed, data: string) returns (ok: bool)
      modifies disk
      ensures disk.tree == old(disk.tree) || StaysInside(old(disk.tree), disk.tree)
      ensures var r := ResolveForWrite(old(disk.tree), disk.cwd, root, rel, true);
              if r.Accepted? then (ok, disk.tree) == WriteFile(old(disk.tree), disk.cwd, r.path, data)
              else !ok && disk.tree == old(disk.tree)
      ensures Reachable(old(disk.tree), disk.cwd, root, rel) ==>
              var entry := Entry(old(disk.tree), disk.cwd, root, rel);
              (entry in old(disk.tree) ==> old(disk.tree)[entry].File?) ==> ok && disk.tree == old(disk.tree)[entry := File(data)]
    {
      if Reachable(disk.tree, disk.cwd, root, rel) {
        ghost var entry := Entry(disk.tree, disk.cwd, root, rel);
        if entry in disk.tree ==> disk.tree[entry].File? {
          WriteWorks(disk.tree, disk.cwd, root, rel, data);
        }
      }
      var r := ResolvePath(rel, true);
      if !r.Accepted? {
        return false;
      }
      WriteFileStaysInside(disk.tree, disk.cwd, root, rel, data);
      var (wrote, tree) := WriteFile(disk.tree, disk.cwd, r.path, data);
      disk.tree := tree;
      ok := wrote;
    }

    method MakeAll(rel: Typed) returns (ok: bool)
      modifies disk
      ensures disk.tree == old(disk.tree) || StaysInside(old(disk.tree), disk.tree)
      ensures var r := ResolveForWrite(old(disk.tree), disk.cwd, root, rel, true);
              if r.Accepted? then (ok, disk.tree) == MkdirAll(old(disk.tree), disk.cwd, r.path)
              else !ok && disk.tree == old(disk.tree)
      ensures forall front: Path | CanMake(old(disk.tree), disk.cwd, root, rel, front) ::
                var abs := Join(root, rel.segs);
                var base := KernelWalk(old(disk.tree), disk.cwd, Typed(root.absolute, front)).at;
                ok && MadeBelow(old(disk.tree), disk.tree, base, abs.segs[|front|..])
    {
      forall front: Path | CanMake(disk.tree, disk.cwd, root, rel, front)
        ensures ResolveForWrite(disk.tree, disk.cwd, root, rel, true).Accepted?
        ensures var abs := Join(root, rel.segs);
                var base := KernelWalk(disk.tree, disk.cwd, Typed(root.absolute, front)).at;
                MkdirAll(disk.tree, disk.cwd, abs).0 && MadeBelow(disk.tree, MkdirAll(disk.tree, disk.cwd, abs).1, base, abs.segs[|front|..])
      {
        MkdirAllWorks(disk.tree, disk.cwd, root, rel, front);
      }
      var r := ResolvePath(rel, true);
      if !r.Accepted? {
        return false;
      }
      MkdirAllStaysInside(disk.tree, disk.cwd, root, rel);
      var (made, tree) := MkdirAll(disk.tree, disk.cwd, r.path);
      disk.tree := tree;
      ok := made;
    }

    /** As above, exactly unless a bare climb is accepted and the real root has a neighbour, and so
        for every root whose text was not cleaned to a bare climb; "/", "." and ".." are not removed
        themselves. */
    method RemoveTree(rel: Typed) returns (ok: bool)
      modifies disk
      ensures NoBareClimb(root, rel) ==> disk.tree == old(disk.tree) || StaysInside(old(disk.tree), disk.tree)
      ensures var r := ResolveForWrite(old(disk.tree), disk.cwd, root, rel, false);
              if r.Accepted? then
                && ok == r.path.EndsPlain() && disk.tree == RemoveAll(old(disk.tree), disk.cwd, r.path)
                && EvalSymlinks(old(disk.tree), disk.cwd, root).Found?
                && (!StaysInside(old(disk.tree), disk.tree) <==>
                    && BareClimb(r.path) && KernelWalk(old(disk.tree), disk.cwd, r.path).At?
                    && HasNeighbour(old(disk.tree), RootPlace(old(disk.tree), disk.cwd, root)))
              else !ok && disk.tree == old(disk.tree)
      ensures Reachable(old(disk.tree), disk.cwd, root, rel) ==>
              var entry := Entry(old(disk.tree), disk.cwd, root, rel);
              ok && forall at :: at in disk.tree <==> at in old(disk.tree) && !(entry <= at)
    {
      if Reachable(disk.tree, disk.cwd, root, rel) {
        RemoveAllWorks(disk.tree, disk.cwd, root, rel);
      }
      var r := ResolvePath(rel, false);
      if !r.Accepted? {
        return false;
      }
      RemoveAllLeavesExactly(disk.tree, disk.cwd, root, rel);
      if NoBareClimb(root, rel) {
        RemoveAllStaysInside(disk.tree, disk.cwd, root, rel);
      }
      disk.tree := RemoveAll(disk.tree, disk.cwd, r.path);
      ok := r.path.EndsPlain();
    }
  }
}

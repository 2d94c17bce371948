/** What the writer's operations touch once its fence has accepted a path: for every root text,
    working directory and tree, links included. */
module WriterFence {
  import opened FileSystem
  import opened PathText
  import opened PathFence

  /** Where an accepted path's last name lives, when the kernel gets that far. */
  lemma SlotInside(fs: FS, cwd: Path, root: Typed, rel: Typed, follows: bool)
    requires ResolveForWrite(fs, cwd, root, rel, follows).Accepted?
    ensures var p := ResolveForWrite(fs, cwd, root, rel, follows).path;
            && EvalSymlinks(fs, cwd, root).Found?
            && (p.EndsPlain() && Slot(fs, cwd, p).At? ==> RootPlace(fs, cwd, root) <= Slot(fs, cwd, p).at)
  {
    var p := ResolveForWrite(fs, cwd, root, rel, follows).path;
    AcceptedShape(fs, cwd, root, rel, follows);
    hide ResolveForWrite;
    if p.EndsPlain() && Slot(fs, cwd, p).At? {
      KernelAgrees(fs, cwd, p.DirOf());
      DeepestResolves(fs, cwd, p.DirOf());
    }
  }

  /** An open of a path that ends in a name goes to its slot, or through the link there. */
  lemma OpensSlot(fs: FS, cwd: Path, p: Typed)
    requires p.EndsPlain() && OpenForWrite(fs, From(cwd, p), p.segs, KERNEL_LINKS).At?
    ensures Slot(fs, cwd, p).At?
    ensures !LstatIsLink(fs, cwd, p) ==> OpenForWrite(fs, From(cwd, p), p.segs, KERNEL_LINKS).at == Slot(fs, cwd, p).at
    ensures EvalSymlinks(fs, cwd, p).Found? ==>
              OpenForWrite(fs, From(cwd, p), p.segs, KERNEL_LINKS).at == Place(cwd, EvalSymlinks(fs, cwd, p).dest)
  {
    var leaf := p.segs[|p.segs| - 1];
    assert p.segs == Parent(p.segs) + [leaf];
    OpenSplits(fs, From(cwd, p), Parent(p.segs), [leaf], KERNEL_LINKS);
    assert [leaf][1..] == [];
    StartsThere(cwd, p);
    if EvalSymlinks(fs, cwd, p).Found? {
      OpenAgrees(fs, cwd, Start(p), p.segs, GO_LINKS, KERNEL_LINKS);
    }
  }

  /** A link the writer follows leads to a place under the real root. */
  lemma FollowedLinkInside(fs: FS, cwd: Path, root: Typed, rel: Typed)
    requires ResolveForWrite(fs, cwd, root, rel, true).Accepted?
    ensures var p := ResolveForWrite(fs, cwd, root, rel, true).path;
            LstatIsLink(fs, cwd, p) ==>
              && EvalSymlinks(fs, cwd, root).Found? && EvalSymlinks(fs, cwd, p).Found?
              && RootPlace(fs, cwd, root) <= Place(cwd, EvalSymlinks(fs, cwd, p).dest)
  {
    var p := ResolveForWrite(fs, cwd, root, rel, true).path;
    hide Within;
    if LstatIsLink(fs, cwd, p) {
      SymlinksAreSound(fs, cwd, root);
      SymlinksAreSound(fs, cwd, p);
      WithinExactly(cwd, EvalSymlinks(fs, cwd, root).dest, EvalSymlinks(fs, cwd, p).dest);
    }
  }

  /** WriteFile changes nothing outside the real root, whatever text names the root. */
  lemma WriteFileStaysInside(fs: FS, cwd: Path, root: Typed, rel: Typed, data: string)
    requires ResolveForWrite(fs, cwd, root, rel, true).Accepted?
    ensures var p := ResolveForWrite(fs, cwd, root, rel, true).path;
            && EvalSymlinks(fs, cwd, root).Found?
            && ChangesOnlyUnder(fs, WriteFile(fs, cwd, p, data).1, RootPlace(fs, cwd, root))
  {
    var p := ResolveForWrite(fs, cwd, root, rel, true).path;
    AcceptedShape(fs, cwd, root, rel, true);
    SlotInside(fs, cwd, root, rel, true);
    FollowedLinkInside(fs, cwd, root, rel);
    hide ResolveForWrite;
    hide RootPlace;
    hide LstatIsLink;
    hide Slot;
    hide EvalSymlinks;
    hide OpenForWrite;
    if p.EndsPlain() && OpenForWrite(fs, From(cwd, p), p.segs, KERNEL_LINKS).At? {
      OpensSlot(fs, cwd, p);
      assert RootPlace(fs, cwd, root) <= OpenForWrite(fs, From(cwd, p), p.segs, KERNEL_LINKS).at;
    }
  }

  /** Asked for a root that climbs, the fence refuses the root itself: its directory, as text, has
      one climb less and lies below it. */
  lemma RootIsNotBelowItself(fs: FS, cwd: Path, root: Typed, p: Typed)
    requires EvalSymlinks(fs, cwd, root).Found? && Settled(root)
    requires p == CleanText(root) && !p.EndsPlain() && p.segs != [] && IsClean(p.segs, p.absolute)
    ensures var anchor := EvalSymlinks(fs, cwd, Deepest(fs, cwd, p.DirOf()));
            anchor.Found? && !Within(EvalSymlinks(fs, cwd, root).dest, anchor.dest)
  {
    SettledResolves(fs, cwd, root);
    ClimbsOnly(fs, cwd, p);
    var n := |p.segs| - 1;
    assert forall i | 0 <= i < |p.segs| :: p.segs[i] == ".." by {
      assert !Plain(p.segs[n]);
    }
    assert !p.DirOf().EndsPlain();
    ClimbsOnly(fs, cwd, p.DirOf());
    DeepestResolves(fs, cwd, p.DirOf());
    WithinMeans(Below(n + 1, []), Below(n, []));
  }

  /** Something besides `place` lies in its parent directory. */
  ghost predicate HasNeighbour(fs: FS, place: Path) {
    exists at | at in fs :: Parent(place) < at && !(place <= at)
  }

  /** Exactly when an accepted RemoveAll reaches out of the real root: the accepted path is a bare
      climb, the kernel can go there, and the real root is not alone in its directory. */
  lemma RemoveAllLeavesExactly(fs: FS, cwd: Path, root: Typed, rel: Typed)
    requires ResolveForWrite(fs, cwd, root, rel, false).Accepted?
    ensures var p := ResolveForWrite(fs, cwd, root, rel, false).path;
            && EvalSymlinks(fs, cwd, root).Found?
            && (!ChangesOnlyUnder(fs, RemoveAll(fs, cwd, p), RootPlace(fs, cwd, root)) <==>
                BareClimb(p) && KernelWalk(fs, cwd, p).At? && HasNeighbour(fs, RootPlace(fs, cwd, root)))
  {
    var p := ResolveForWrite(fs, cwd, root, rel, false).path;
    AcceptedShape(fs, cwd, root, rel, false);
    SlotInside(fs, cwd, root, rel, false);
    hide ResolveForWrite;
    if !p.EndsPlain() {
      ClimbsOnly(fs, cwd, p);
      DeepestResolves(fs, cwd, p.DirOf());
      if BareClimb(p) {
        AcceptedClimb(fs, cwd, root, p);
      }
    }
  }

  /** The fence takes a bare climb only for a real root one climb below it. */
  lemma AcceptedClimb(fs: FS, cwd: Path, root: Typed, p: Typed)
    requires BareClimb(p) && IsClean(p.segs, false) && EvalSymlinks(fs, cwd, root).Found?
    requires var anchor := EvalSymlinks(fs, cwd, Deepest(fs, cwd, p.DirOf()));
             anchor.Found? && Within(EvalSymlinks(fs, cwd, root).dest, anchor.dest)
    ensures EvalSymlinks(fs, cwd, root).dest == Below(|p.segs| - 1, [])
    ensures KernelWalk(fs, cwd, p).At? ==> KernelWalk(fs, cwd, p).at == Parent(RootPlace(fs, cwd, root))
  {
    ClimbsOnly(fs, cwd, p);
    CleanParent(p);
    ClimbsOnly(fs, cwd, p.DirOf());
    DeepestResolves(fs, cwd, p.DirOf());
    SymlinksAreSound(fs, cwd, root);
    WithinMeans(EvalSymlinks(fs, cwd, root).dest, Below(|p.segs| - 1, []));
    if KernelWalk(fs, cwd, p).At? {
      KernelAgrees(fs, cwd, p);
    }
    hide Within;
  }

  /** The path asked for is not a bare climb that a root with a ".." after a name was cleaned to. */
  predicate NoBareClimb(root: Typed, rel: Typed) {
    Clean(rel.segs) != [] || Settled(root) || CleanText(root).EndsPlain() || CleanText(root).segs == []
  }

  /** RemoveAll removes nothing outside the real root, whatever text names the root, as long as
      that text, asked for itself, was not cleaned to a bare climb: so for every settled root. */
  lemma RemoveAllStaysInside(fs: FS, cwd: Path, root: Typed, rel: Typed)
    requires ResolveForWrite(fs, cwd, root, rel, false).Accepted? && NoBareClimb(root, rel)
    ensures var p := ResolveForWrite(fs, cwd, root, rel, false).path;
            && EvalSymlinks(fs, cwd, root).Found?
            && ChangesOnlyUnder(fs, RemoveAll(fs, cwd, p), RootPlace(fs, cwd, root))
  {
    var p := ResolveForWrite(fs, cwd, root, rel, false).path;
    AcceptedShape(fs, cwd, root, rel, false);
    RemoveAllLeavesExactly(fs, cwd, root, rel);
    PermitsExactly(root, rel);
    hide RemoveAll;
    hide Within;
    hide ChangesOnlyUnder;
    if BareClimb(p) && Settled(root) {
      RootIsNotBelowItself(fs, cwd, root, p);
      assert false;
    }
  }

  // ── making directories ──

  ghost predicate Extends(fs: FS, more: FS) {
    forall at | at in fs :: at in more && more[at] == fs[at]
  }

  /** A tree grown only under `dir`. */
  ghost predicate GrownUnder(fs: FS, more: FS, dir: Path) {
    Extends(fs, more) && forall at | at in more && at !in fs :: dir <= at
  }

  /** On a path that resolves nothing is made: either the kernel finds it too, or its last name
      turns out to be taken. */
  lemma {:induction false} NothingToMake(fs: FS, cwd: Path, t: Typed)
    requires IsClean(t.segs, t.absolute) && EvalSymlinks(fs, cwd, t).Found?
    ensures var (ok, made) := MkdirAll(fs, cwd, t); made == fs && (ok ==> KernelWalk(fs, cwd, t).At?)
    decreases |t.segs|
  {
    if KernelWalk(fs, cwd, t).Failed? && t.segs != [] {
      CleanParent(t);
      if t.EndsPlain() {
        LastStep(fs, cwd, t);
        NothingToMake(fs, cwd, t.DirOf());
        if KernelWalk(fs, cwd, t.DirOf()).At? {
          KernelAgrees(fs, cwd, t.DirOf());
          FoundBySlot(fs, cwd, t);
        }
      } else {
        ClimbsOnly(fs, cwd, t);
        ClimbsOnly(fs, cwd, t.DirOf());
        NothingToMake(fs, cwd, t.DirOf());
      }
    }
  }

  /** A directory in the slot is a path the kernel resolves. */
  lemma FoundBySlot(fs: FS, cwd: Path, t: Typed)
    requires t.EndsPlain() && Slot(fs, cwd, t).At?
    ensures IsDir(fs, Slot(fs, cwd, t).at) ==> KernelWalk(fs, cwd, t).At? && KernelWalk(fs, cwd, t).at == Slot(fs, cwd, t).at
  {
    var leaf := t.segs[|t.segs| - 1];
    assert t.segs == Parent(t.segs) + [leaf];
    WalkSplits(fs, From(cwd, t), Parent(t.segs), [leaf], KERNEL_LINKS);
    assert [leaf][1..] == [];
  }

  lemma MkdirGrows(fs: FS, cwd: Path, t: Typed, dir: Path)
    requires t.EndsPlain()
    requires Slot(fs, cwd, t).At? ==> dir <= Slot(fs, cwd, t).at
    ensures var (ok, made) := Mkdir(fs, cwd, t);
            && GrownUnder(fs, made, dir)
            && (ok ==> KernelWalk(made, cwd, t).At? && dir <= KernelWalk(made, cwd, t).at)
  {
    var (ok, made) := Mkdir(fs, cwd, t);
    if ok {
      WalkGrows(fs, made, From(cwd, t), Parent(t.segs), KERNEL_LINKS, 0);
      FoundBySlot(made, cwd, t);
    }
  }

  /** From the deepest ancestor that resolves on down, directories appear under its real place. */
  lemma {:induction false} MakesInside(fs: FS, cwd: Path, t: Typed, anchor: Path, dir: Path)
    requires IsClean(t.segs, t.absolute) && anchor <= t.segs
    requires var r := EvalSymlinks(fs, cwd, Typed(t.absolute, anchor)); r.Found? && dir <= Place(cwd, r.dest)
    requires forall q: Path | anchor <= q <= t.segs && q != anchor && q != t.segs :: EvalSymlinks(fs, cwd, Typed(t.absolute, q)).Missing?
    requires t.segs == anchor || EvalSymlinks(fs, cwd, t).Missing?
    ensures var (ok, made) := MkdirAll(fs, cwd, t);
            && GrownUnder(fs, made, dir)
            && (ok ==> KernelWalk(made, cwd, t).At? && dir <= KernelWalk(made, cwd, t).at)
    decreases |t.segs|
  {
    if KernelWalk(fs, cwd, t).At? {
      KernelAgrees(fs, cwd, t);
    }
    if t.segs == anchor {
      assert t == Typed(t.absolute, anchor);
      NothingToMake(fs, cwd, t);
    } else {
      var up := t.DirOf();
      assert anchor <= up.segs;
      CleanParent(t);
      if !t.EndsPlain() {
        ClimbsOnly(fs, cwd, t);
        assert false;
      }
      assert up == Typed(t.absolute, up.segs) && up.segs <= t.segs;
      MakesInside(fs, cwd, up, anchor, dir);
      var (ok, made) := MkdirAll(fs, cwd, up);
      if ok {
        MkdirGrows(made, cwd, t, dir);
      }
    }
  }

  /** MkdirAll creates nothing outside the real root, whatever text names the root. */
  lemma MkdirAllStaysInside(fs: FS, cwd: Path, root: Typed, rel: Typed)
    requires ResolveForWrite(fs, cwd, root, rel, true).Accepted?
    ensures var p := ResolveForWrite(fs, cwd, root, rel, true).path;
            && EvalSymlinks(fs, cwd, root).Found?
            && ChangesOnlyUnder(fs, MkdirAll(fs, cwd, p).1, RootPlace(fs, cwd, root))
  {
    var p := ResolveForWrite(fs, cwd, root, rel, true).path;
    AcceptedShape(fs, cwd, root, rel, true);
    hide ResolveForWrite;
    if EvalSymlinks(fs, cwd, p).Found? {
      NothingToMake(fs, cwd, p);
    } else {
      var up := p.DirOf();
      var anchor := Deepest(fs, cwd, up).segs;
      DeepestResolves(fs, cwd, up);
      assert Deepest(fs, cwd, up) == Typed(p.absolute, anchor) && up.segs <= p.segs;
      forall q: Path | anchor <= q <= p.segs && q != anchor && q != p.segs
        ensures EvalSymlinks(fs, cwd, Typed(p.absolute, q)).Missing?
      {
        assert q <= up.segs;
        DeepestIsDeepest(fs, cwd, up, q);
      }
      MakesInside(fs, cwd, p, anchor, RootPlace(fs, cwd, root));
    }
  }

  // ── paths that cannot be touched ──

  /** At the root "." the writer takes the root itself, and can do nothing to it. */
  lemma DotRootIsKept(fs: FS, cwd: Path, root: Typed, rel: Typed, follows: bool, data: string)
    requires !root.absolute && (forall s | s in root.segs :: Stays(s)) && Permits(rel) && Clean(rel.segs) == []
    ensures var dot := Typed(false, []);
            && ResolveForWrite(fs, cwd, root, rel, follows) == Accepted(dot)
            && WriteFile(fs, cwd, dot, data) == (false, fs) && MkdirAll(fs, cwd, dot).1 == fs && RemoveAll(fs, cwd, dot) == fs
  {
    PermitsExactly(root, rel);
    DotsVanish(fs, cwd, root.segs);
    assert CleanText(root).segs + [] == [];
    WithinMeans(Below(0, []), Below(0, []));
    hide Within;
  }

  /** A last name the kernel cannot reach can be neither written through nor made nor removed. */
  lemma UnreachableIsNotTouched(fs: FS, cwd: Path, t: Typed, data: string)
    requires t.EndsPlain() && Slot(fs, cwd, t).Failed?
    ensures WriteFile(fs, cwd, t, data) == (false, fs) && RemoveAll(fs, cwd, t) == fs
    ensures IsClean(t.segs, t.absolute) && EvalSymlinks(fs, cwd, t).Found? ==> MkdirAll(fs, cwd, t) == (false, fs)
  {
    var leaf := t.segs[|t.segs| - 1];
    assert t.segs == Parent(t.segs) + [leaf];
    OpenSplits(fs, From(cwd, t), Parent(t.segs), [leaf], KERNEL_LINKS);
    WalkSplits(fs, From(cwd, t), Parent(t.segs), [leaf], KERNEL_LINKS);
    if IsClean(t.segs, t.absolute) && EvalSymlinks(fs, cwd, t).Found? {
      NothingToMake(fs, cwd, t);
    }
  }
}

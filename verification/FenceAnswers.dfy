/** What the reader's and the writer's fence answer, exactly, for every path, existing or not; and
    that an operation the fence lets through does its work. */
module FenceAnswers {
  import opened FileSystem
  import opened PathText
  import opened PathFence
  import opened WriterFence

  /** Names of the root in front, from the same start, and no first name below it that begins with
      "..". */
  predicate LiesIn(cwd: Path, root: Real, p: Real) {
    SameFrame(root, p) && Place(cwd, root) <= Place(cwd, p) && !Dotted(root, p)
  }

  /** A relative path that never climbs above where it starts. */
  predicate Permitted(rel: Typed) {
    !rel.absolute && NeverClimbs(rel.segs, 0)
  }

  /** `front` is the longest part of a path, from its start, that exists. */
  ghost predicate ExistsUpTo(fs: FS, cwd: Path, t: Typed, front: Path) {
    && front <= t.segs && EvalSymlinks(fs, cwd, Typed(t.absolute, front)).Found?
    && forall q: Path | front <= q <= t.segs && q != front :: EvalSymlinks(fs, cwd, Typed(t.absolute, q)).Missing?
  }

  /** The deepest directory above the path that exists lies in the real root. */
  ghost predicate AnchoredInside(fs: FS, cwd: Path, root: Typed, abs: Typed)
    requires EvalSymlinks(fs, cwd, root).Found?
  {
    exists front: Path | ExistsUpTo(fs, cwd, abs.DirOf(), front) ::
      LiesIn(cwd, EvalSymlinks(fs, cwd, root).dest, EvalSymlinks(fs, cwd, Typed(abs.absolute, front)).dest)
  }

  ghost predicate ExistsInside(fs: FS, cwd: Path, root: Typed, abs: Typed)
    requires EvalSymlinks(fs, cwd, root).Found?
  {
    EvalSymlinks(fs, cwd, abs).Found? && LiesIn(cwd, EvalSymlinks(fs, cwd, root).dest, EvalSymlinks(fs, cwd, abs).dest)
  }

  lemma DeepestExists(fs: FS, cwd: Path, t: Typed)
    ensures ExistsUpTo(fs, cwd, t, Deepest(fs, cwd, t).segs)
    ensures Deepest(fs, cwd, t) == Typed(t.absolute, Deepest(fs, cwd, t).segs)
  {
    DeepestResolves(fs, cwd, t);
    DeepestFound(fs, cwd, t);
    var front := Deepest(fs, cwd, t).segs;
    forall q: Path | front <= q <= t.segs && q != front ensures EvalSymlinks(fs, cwd, Typed(t.absolute, q)).Missing? {
      DeepestIsDeepest(fs, cwd, t, q);
    }
  }

  lemma {:induction false} DeepestFound(fs: FS, cwd: Path, t: Typed)
    ensures EvalSymlinks(fs, cwd, Deepest(fs, cwd, t)).Found?
    decreases |t.segs|
  {
    if EvalSymlinks(fs, cwd, t).Missing? && t.segs != [] {
      DeepestFound(fs, cwd, t.DirOf());
    }
  }

  lemma OneDeepest(fs: FS, cwd: Path, t: Typed, a: Path, b: Path)
    requires ExistsUpTo(fs, cwd, t, a) && ExistsUpTo(fs, cwd, t, b)
    ensures a == b
  {
    assert a == t.segs[..|a|] && b == t.segs[..|b|];
    assert |a| <= |b| ==> a <= b;
    assert |b| <= |a| ==> b <= a;
  }

  /** The writer's answer for any path, existing or not: the lexical path, exactly when it is
      permitted, the root resolves, the deepest existing directory above it lies in the real root,
      and a link that is to be followed leads to something that exists there. So a name that does not
      exist yet is accepted like one that does. */
  lemma WriterAnswers(fs: FS, cwd: Path, root: Typed, rel: Typed, follows: bool)
    ensures var abs, there := Join(root, rel.segs), EvalSymlinks(fs, cwd, root).Found?;
            ResolveForWrite(fs, cwd, root, rel, follows) ==
            if !Permitted(rel) then Outside
            else if !there then Unresolved
            else if AnchoredInside(fs, cwd, root, abs) && (follows && LstatIsLink(fs, cwd, abs) ==> ExistsInside(fs, cwd, root, abs)) then
              Accepted(abs)
            else Outside
  {
    var abs := Join(root, rel.segs);
    PermitsExactly(root, rel);
    DeepestExists(fs, cwd, abs.DirOf());
    var front := Deepest(fs, cwd, abs.DirOf()).segs;
    SymlinksAreSound(fs, cwd, root);
    SymlinksAreSound(fs, cwd, abs);
    SymlinksAreSound(fs, cwd, Typed(abs.absolute, front));
    if EvalSymlinks(fs, cwd, root).Found? {
      var rootReal := EvalSymlinks(fs, cwd, root).dest;
      WithinExactly(cwd, rootReal, EvalSymlinks(fs, cwd, Typed(abs.absolute, front)).dest);
      if EvalSymlinks(fs, cwd, abs).Found? {
        WithinExactly(cwd, rootReal, EvalSymlinks(fs, cwd, abs).dest);
      }
      forall other: Path | ExistsUpTo(fs, cwd, abs.DirOf(), other) ensures other == front {
        OneDeepest(fs, cwd, abs.DirOf(), other, front);
      }
    }
    hide ExistsUpTo;
    hide LiesIn;
    hide Within;
    hide Deepest;
    hide EvalSymlinks;
    hide Permits;
    hide NeverClimbs;
  }

  /** The reader's answer for any path: a permitted path that does not exist is handed back as it
      is, whatever the root; one that exists is its real place, exactly when that lies in the real
      root. */
  lemma ReaderAnswers(fs: FS, cwd: Path, root: Typed, rel: Typed)
    ensures var abs, there := Join(root, rel.segs), EvalSymlinks(fs, cwd, root).Found?;
            Resolve(fs, cwd, root, rel) ==
            if !Permitted(rel) then Outside
            else if EvalSymlinks(fs, cwd, abs).Missing? then Accepted(abs)
            else if !there then Unresolved
            else if ExistsInside(fs, cwd, root, abs) then Accepted(AsTyped(EvalSymlinks(fs, cwd, abs).dest))
            else Outside
  {
    var abs := Join(root, rel.segs);
    PermitsExactly(root, rel);
    SymlinksAreSound(fs, cwd, root);
    SymlinksAreSound(fs, cwd, abs);
    if EvalSymlinks(fs, cwd, root).Found? && EvalSymlinks(fs, cwd, abs).Found? {
      WithinExactly(cwd, EvalSymlinks(fs, cwd, root).dest, EvalSymlinks(fs, cwd, abs).dest);
    }
    hide Within;
    hide EvalSymlinks;
    hide Permits;
    hide NeverClimbs;
  }

  // ── accepted operations do their work ──

  /** The kernel reaches the directory a path names its last entry in, and the directory lies in
      the real root as the fence sees it. */
  ghost predicate Reachable(fs: FS, cwd: Path, root: Typed, rel: Typed) {
    var abs := Join(root, rel.segs);
    && Permitted(rel) && EvalSymlinks(fs, cwd, root).Found? && abs.EndsPlain() && Slot(fs, cwd, abs).At?
    && ExistsInside(fs, cwd, root, abs.DirOf())
  }

  /** The place a path's last name stands for. */
  function Entry(fs: FS, cwd: Path, root: Typed, rel: Typed): Path
    requires Reachable(fs, cwd, root, rel)
  {
    Slot(fs, cwd, Join(root, rel.segs)).at
  }

  lemma ReachableIsAccepted(fs: FS, cwd: Path, root: Typed, rel: Typed, follows: bool)
    requires Reachable(fs, cwd, root, rel)
    ensures !(follows && LstatIsLink(fs, cwd, Join(root, rel.segs))) ==>
              ResolveForWrite(fs, cwd, root, rel, follows) == Accepted(Join(root, rel.segs))
  {
    var up := Join(root, rel.segs).DirOf();
    WriterAnswers(fs, cwd, root, rel, follows);
    assert up == Typed(up.absolute, up.segs);
    assert ExistsUpTo(fs, cwd, up, up.segs);
    hide LiesIn;
    hide EvalSymlinks;
    hide ResolveForWrite;
  }

  /** A file is written under any name in a directory inside, new or not, that is no directory and
      no link: nothing else changes, and the name then reads back as what was written. */
  lemma WriteWorks(fs: FS, cwd: Path, root: Typed, rel: Typed, data: string)
    requires Reachable(fs, cwd, root, rel)
    requires var at := Entry(fs, cwd, root, rel); at in fs ==> fs[at].File?
    ensures var abs, at := Join(root, rel.segs), Entry(fs, cwd, root, rel);
            && ResolveForWrite(fs, cwd, root, rel, true) == Accepted(abs)
            && WriteFile(fs, cwd, abs, data) == (true, fs[at := File(data)])
            && KernelWalk(fs[at := File(data)], cwd, abs).At? && KernelWalk(fs[at := File(data)], cwd, abs).at == at
  {
    var abs := Join(root, rel.segs);
    ReachableIsAccepted(fs, cwd, root, rel, true);
    OpensThere(fs, cwd, abs);
    ReadsBack(fs, cwd, abs, data);
    hide ResolveForWrite;
    hide Reachable;
  }

  lemma OpensThere(fs: FS, cwd: Path, t: Typed)
    requires t.EndsPlain() && Slot(fs, cwd, t).At? && !LstatIsLink(fs, cwd, t)
    ensures OpenForWrite(fs, From(cwd, t), t.segs, KERNEL_LINKS).At?
    ensures OpenForWrite(fs, From(cwd, t), t.segs, KERNEL_LINKS).at == Slot(fs, cwd, t).at
  {
    var leaf := t.segs[|t.segs| - 1];
    assert t.segs == Parent(t.segs) + [leaf];
    OpenSplits(fs, From(cwd, t), Parent(t.segs), [leaf], KERNEL_LINKS);
    assert [leaf][1..] == [];
  }

  /** Files that change their contents, or appear, do not change where a path goes. */
  lemma {:induction false} WalkPastFiles(fs: FS, more: FS, at: Path, rest: Path, links: nat)
    requires Walk(fs, at, rest, links).At?
    requires forall p | p in fs :: p in more && (more[p] == fs[p] || (more[p].File? && fs[p].File?))
    ensures Walk(more, at, rest, links) == Walk(fs, at, rest, links)
    decreases links, |rest|
  {
    if rest != [] {
      var s, next := rest[0], rest[1..];
      if Stays(s) {
        WalkPastFiles(fs, more, at, next, links);
      } else if s == ".." {
        WalkPastFiles(fs, more, Parent(at), next, links);
      } else {
        match fs[at + [s]] {
          case Dir => WalkPastFiles(fs, more, at + [s], next, links);
          case File(_) => WalkPastFiles(fs, more, at + [s], next, links);
          case Link(absolute, target) =>
            WalkPastFiles(fs, more, if absolute then [] else at, target + next, links - 1);
        }
      }
    }
  }

  lemma ReadsBack(fs: FS, cwd: Path, t: Typed, data: string)
    requires t.EndsPlain() && Slot(fs, cwd, t).At?
    requires Slot(fs, cwd, t).at in fs ==> fs[Slot(fs, cwd, t).at].File?
    ensures var after := fs[Slot(fs, cwd, t).at := File(data)];
            KernelWalk(after, cwd, t).At? && KernelWalk(after, cwd, t).at == Slot(fs, cwd, t).at
  {
    var leaf, at := t.segs[|t.segs| - 1], Slot(fs, cwd, t).at;
    var after := fs[at := File(data)];
    WalkPastFiles(fs, after, From(cwd, t), Parent(t.segs), KERNEL_LINKS);
    assert t.segs == Parent(t.segs) + [leaf];
    WalkSplits(after, From(cwd, t), Parent(t.segs), [leaf], KERNEL_LINKS);
    assert [leaf][1..] == [];
  }

  /** Through a link that the fence follows, the file the link leads to is written. */
  lemma WriteWorksThroughLink(fs: FS, cwd: Path, root: Typed, rel: Typed, data: string)
    requires Reachable(fs, cwd, root, rel) && LstatIsLink(fs, cwd, Join(root, rel.segs))
    requires ExistsInside(fs, cwd, root, Join(root, rel.segs)) && KernelWalk(fs, cwd, Join(root, rel.segs)).At?
    requires !IsDir(fs, Place(cwd, EvalSymlinks(fs, cwd, Join(root, rel.segs)).dest))
    ensures var abs := Join(root, rel.segs);
            && ResolveForWrite(fs, cwd, root, rel, true) == Accepted(abs)
            && WriteFile(fs, cwd, abs, data) == (true, fs[Place(cwd, EvalSymlinks(fs, cwd, abs).dest) := File(data)])
  {
    var abs := Join(root, rel.segs);
    var up := abs.DirOf();
    assert up == Typed(up.absolute, up.segs) && ExistsUpTo(fs, cwd, up, up.segs);
    WriterAnswers(fs, cwd, root, rel, true);
    KernelAgrees(fs, cwd, abs);
    OpensWalked(fs, From(cwd, abs), abs.segs, KERNEL_LINKS);
    hide ResolveForWrite;
    hide EvalSymlinks;
    hide LiesIn;
  }

  /** What the kernel resolves it also opens. */
  lemma {:induction false} OpensWalked(fs: FS, at: Path, rest: Path, links: nat)
    requires Walk(fs, at, rest, links).At?
    ensures OpenForWrite(fs, at, rest, links) == Walk(fs, at, rest, links)
    decreases links, |rest|
  {
    if rest != [] {
      var s, next := rest[0], rest[1..];
      if Stays(s) {
        OpensWalked(fs, at, next, links);
      } else if s == ".." {
        OpensWalked(fs, Parent(at), next, links);
      } else {
        match fs[at + [s]] {
          case Dir => OpensWalked(fs, at + [s], next, links);
          case File(_) => OpensWalked(fs, at + [s], next, links);
          case Link(absolute, target) =>
            OpensWalked(fs, if absolute then [] else at, target + next, links - 1);
        }
      }
    }
  }

  // ── directories several levels ahead ──

  /** The names of a path behind its front, none of them on disk yet. */
  ghost predicate Ahead(fs: FS, cwd: Path, t: Typed, front: Path) {
    && front <= t.segs && AllPlain(t.segs[|front|..])
    && KernelWalk(fs, cwd, Typed(t.absolute, front)).At? && IsDir(fs, KernelWalk(fs, cwd, Typed(t.absolute, front)).at)
    && forall k | 0 < k <= |t.segs| - |front| :: KernelWalk(fs, cwd, Typed(t.absolute, front)).at + t.segs[|front|..][..k] !in fs
  }

  /** The tree with a chain of directories below `base`. */
  ghost predicate MadeBelow(fs: FS, made: FS, base: Path, names: Path) {
    && (forall at :: at in made <==> at in fs || exists k | 0 < k <= |names| :: at == base + names[..k])
    && (forall at | at in fs :: made[at] == fs[at])
    && (forall k | 0 < k <= |names| :: base + names[..k] in made && made[base + names[..k]] == Dir)
  }

  lemma NotThereYet(fs: FS, cwd: Path, t: Typed, front: Path)
    requires Ahead(fs, cwd, t, front) && front != t.segs
    ensures KernelWalk(fs, cwd, t).Failed? && t.EndsPlain() && Ahead(fs, cwd, t.DirOf(), front)
  {
    var names, up := t.segs[|front|..], t.DirOf();
    assert t.segs == front + names && names[0] in names && names[|names| - 1] in names;
    WalkSplits(fs, From(cwd, t), front, names, KERNEL_LINKS);
    assert names[..1] == [names[0]];
    var short := up.segs[|front|..];
    assert short == names[..|names| - 1];
    assert forall k | 0 < k <= |short| :: short[..k] == names[..k];
  }

  /** One more directory at the end of the chain. */
  lemma OneMoreMade(fs: FS, made: FS, base: Path, names: Path)
    requires names != [] && MadeBelow(fs, made, base, names[..|names| - 1])
    requires base + names !in fs
    ensures base + names !in made && MadeBelow(fs, made[base + names := Dir], base, names)
  {
    var short, more := names[..|names| - 1], made[base + names := Dir];
    assert names[..|names|] == names;
    assert forall k | 0 < k <= |short| :: short[..k] == names[..k];
    forall at ensures at in more <==> at in fs || exists k | 0 < k <= |names| :: at == base + names[..k] {
      if k :| 0 < k <= |names| && at == base + names[..k] {
        assert k <= |short| ==> at == base + short[..k];
      }
    }
    assert forall k | 0 < k <= |short| :: |base + short[..k]| < |base + names|;
  }

  lemma LastMade(fs: FS, cwd: Path, t: Typed, at: Path)
    requires t.EndsPlain() && KernelWalk(fs, cwd, t.DirOf()).At? && KernelWalk(fs, cwd, t.DirOf()).at == at && IsDir(fs, at)
    requires at + [t.segs[|t.segs| - 1]] !in fs
    ensures var here := at + [t.segs[|t.segs| - 1]];
            && Mkdir(fs, cwd, t) == (true, fs[here := Dir])
            && KernelWalk(fs[here := Dir], cwd, t).At? && KernelWalk(fs[here := Dir], cwd, t).at == here
  {
    var here := at + [t.segs[|t.segs| - 1]];
    WalkGrows(fs, fs[here := Dir], From(cwd, t), Parent(t.segs), KERNEL_LINKS, 0);
    FoundBySlot(fs[here := Dir], cwd, t);
  }

  lemma {:induction false} MakesAll(fs: FS, cwd: Path, t: Typed, front: Path)
    requires Ahead(fs, cwd, t, front)
    ensures var base, (ok, made) := KernelWalk(fs, cwd, Typed(t.absolute, front)).at, MkdirAll(fs, cwd, t);
            && ok && MadeBelow(fs, made, base, t.segs[|front|..])
            && KernelWalk(made, cwd, t).At? && KernelWalk(made, cwd, t).at == base + t.segs[|front|..]
    decreases |t.segs|
  {
    if front == t.segs {
      var base := KernelWalk(fs, cwd, t).at;
      assert t == Typed(t.absolute, front) && t.segs[|front|..] == [] && base + [] == base;
      assert MadeBelow(fs, fs, base, []);
    } else {
      var base, names := KernelWalk(fs, cwd, Typed(t.absolute, front)).at, t.segs[|front|..];
      NotThereYet(fs, cwd, t, front);
      MakesAll(fs, cwd, t.DirOf(), front);
      assert t.DirOf().segs[|front|..] == Parent(names) && names[..|names|] == names;
      hide KernelWalk;
      hide MkdirAll;
      hide MadeBelow;
      MakesLast(fs, MkdirAll(fs, cwd, t.DirOf()).1, cwd, t, base, names);
    }
  }

  lemma MakesLast(fs: FS, made: FS, cwd: Path, t: Typed, base: Path, names: Path)
    requires names != [] && KernelWalk(fs, cwd, t).Failed? && t.EndsPlain() && names[|names| - 1] == t.segs[|t.segs| - 1]
    requires IsDir(fs, base) && base + names !in fs
    requires MkdirAll(fs, cwd, t.DirOf()) == (true, made) && MadeBelow(fs, made, base, Parent(names))
    requires KernelWalk(made, cwd, t.DirOf()).At? && KernelWalk(made, cwd, t.DirOf()).at == base + Parent(names)
    ensures var more := made[base + names := Dir];
            && MkdirAll(fs, cwd, t) == (true, more) && MadeBelow(fs, more, base, names)
            && KernelWalk(more, cwd, t).At? && KernelWalk(more, cwd, t).at == base + names
  {
    var short := Parent(names);
    assert base + short + [names[|names| - 1]] == base + names;
    OneMoreMade(fs, made, base, names);
    assert IsDir(made, base + short) by {
      if short == [] {
        assert base + short == base;
      } else {
        assert short[..|short|] == short;
      }
    }
    hide MadeBelow;
    LastMade(made, cwd, t, base + short);
    hide Mkdir;
    hide KernelWalk;
  }

  lemma AheadIsMissing(fs: FS, cwd: Path, t: Typed, front: Path, q: Path)
    requires Ahead(fs, cwd, t, front) && front <= q <= t.segs && q != front
    requires EvalSymlinks(fs, cwd, Typed(t.absolute, front)).Found?
    ensures EvalSymlinks(fs, cwd, Typed(t.absolute, q)).Missing?
  {
    var names, back := t.segs[|front|..], q[|front|..];
    assert q == front + back && back[0] == names[0] && names[0] in names && names[..1] == [names[0]];
    if EvalSymlinks(fs, cwd, Typed(t.absolute, q)).Found? {
      EvalComposes(fs, cwd, Start(t), front, back, GO_LINKS);
      KernelAgrees(fs, cwd, Typed(t.absolute, front));
      PlaceMoves(cwd, EvalSymlinks(fs, cwd, Typed(t.absolute, front)).dest, names[0]);
    }
  }

  lemma AheadIsAccepted(fs: FS, cwd: Path, root: Typed, rel: Typed, front: Path)
    requires Permitted(rel) && EvalSymlinks(fs, cwd, root).Found?
    requires Ahead(fs, cwd, Join(root, rel.segs), front) && front != Join(root, rel.segs).segs
    requires ExistsInside(fs, cwd, root, Typed(root.absolute, front))
    ensures ResolveForWrite(fs, cwd, root, rel, true) == Accepted(Join(root, rel.segs))
  {
    var abs := Join(root, rel.segs);
    WriterAnswers(fs, cwd, root, rel, true);
    NotThereYet(fs, cwd, abs, front);
    assert ExistsUpTo(fs, cwd, abs.DirOf(), front) by {
      forall q: Path | front <= q <= abs.DirOf().segs && q != front ensures EvalSymlinks(fs, cwd, Typed(abs.absolute, q)).Missing? {
        AheadIsMissing(fs, cwd, abs.DirOf(), front, q);
      }
    }
    NoLinkAhead(fs, cwd, abs, front);
    hide ResolveForWrite;
    hide EvalSymlinks;
    hide LiesIn;
    hide LstatIsLink;
  }

  lemma NoLinkAhead(fs: FS, cwd: Path, t: Typed, front: Path)
    requires Ahead(fs, cwd, t, front) && front != t.segs
    ensures !LstatIsLink(fs, cwd, t)
  {
    NotThereYet(fs, cwd, t, front);
    if front == t.DirOf().segs {
      assert t.DirOf() == Typed(t.absolute, front);
      var names := t.segs[|front|..];
      assert names == [t.segs[|t.segs| - 1]] && names[..1] == names;
    } else {
      NotThereYet(fs, cwd, t.DirOf(), front);
    }
  }

  /** Below an existing directory inside, reached by the kernel, the rest of the path is not there. */
  ghost predicate CanMake(fs: FS, cwd: Path, root: Typed, rel: Typed, front: Path) {
    && Permitted(rel) && EvalSymlinks(fs, cwd, root).Found?
    && Ahead(fs, cwd, Join(root, rel.segs), front) && front != Join(root, rel.segs).segs
    && ExistsInside(fs, cwd, root, Typed(root.absolute, front))
  }

  /** Directories are made several levels ahead of anything on disk: below a directory inside that
      the kernel reaches, the whole chain and nothing else, and the path then resolves to its end. */
  lemma MkdirAllWorks(fs: FS, cwd: Path, root: Typed, rel: Typed, front: Path)
    requires CanMake(fs, cwd, root, rel, front)
    ensures var abs, base := Join(root, rel.segs), KernelWalk(fs, cwd, Typed(root.absolute, front)).at;
            var (ok, made) := MkdirAll(fs, cwd, abs);
            && ResolveForWrite(fs, cwd, root, rel, true) == Accepted(abs)
            && ok && MadeBelow(fs, made, base, abs.segs[|front|..])
            && KernelWalk(made, cwd, abs).At? && KernelWalk(made, cwd, abs).at == base + abs.segs[|front|..]
  {
    var abs := Join(root, rel.segs);
    MakesAll(fs, cwd, abs, front);
    AheadIsAccepted(fs, cwd, root, rel, front);
    hide KernelWalk;
    hide MkdirAll;
    hide EvalSymlinks;
    hide ResolveForWrite;
    hide MadeBelow;
  }

  /** RemoveAll takes away the entry itself, a link and not what it leads to, with all that is
      below it, and leaves every other entry as it was. */
  lemma RemoveAllWorks(fs: FS, cwd: Path, root: Typed, rel: Typed)
    requires Reachable(fs, cwd, root, rel)
    ensures var abs, entry := Join(root, rel.segs), Entry(fs, cwd, root, rel);
            var after := RemoveAll(fs, cwd, abs);
            && ResolveForWrite(fs, cwd, root, rel, false) == Accepted(abs)
            && (forall at :: at in after <==> at in fs && !(entry <= at))
            && (forall at | at in after :: after[at] == fs[at])
  {
    ReachableIsAccepted(fs, cwd, root, rel, false);
    hide ResolveForWrite;
    hide ExistsInside;
    hide Permitted;
  }
}

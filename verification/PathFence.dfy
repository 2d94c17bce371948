/** The repository fence: which tree-relative paths a reader or a writer may use. The root is a text
    like any other path: absolute, ".", a run of "..", or names below one of these, seen from a
    working directory. */
module PathFence {
  import opened FileSystem
  import opened PathText

  // ── the two resolvers ──

  datatype Resolved = Accepted(path: Typed) | Outside | Unresolved

  function AsTyped(r: Real): Typed {
    Typed(r.Abs?, Text(r))
  }

  /** Repo.Resolve: a path that does not resolve is let through as it is. */
  function Resolve(fs: FS, cwd: Path, root: Typed, rel: Typed): Resolved {
    if !Permits(rel) then Outside
    else
      var abs := Join(root, rel.segs);
      var found, rootReal := EvalSymlinks(fs, cwd, abs), EvalSymlinks(fs, cwd, root);
      if found.Missing? then Accepted(abs)
      else if rootReal.Missing? then Unresolved
      else if Within(rootReal.dest, found.dest) then Accepted(AsTyped(found.dest)) else Outside
  }

  /** The deepest ancestor that resolves, as text. */
  function Deepest(fs: FS, cwd: Path, t: Typed): Typed
    decreases |t.segs|
  {
    if EvalSymlinks(fs, cwd, t).Found? || t.segs == [] then t else Deepest(fs, cwd, t.DirOf())
  }

  /** resolveForWrite. */
  function ResolveForWrite(fs: FS, cwd: Path, root: Typed, rel: Typed, follows: bool): Resolved {
    if !Permits(rel) then Outside
    else
      var abs := Join(root, rel.segs);
      var rootReal := EvalSymlinks(fs, cwd, root);
      var anchor := EvalSymlinks(fs, cwd, Deepest(fs, cwd, abs.DirOf()));
      if rootReal.Missing? || anchor.Missing? then Unresolved
      else if !Within(rootReal.dest, anchor.dest) then Outside
      else if follows && LstatIsLink(fs, cwd, abs) then
        var found := EvalSymlinks(fs, cwd, abs);
        if found.Found? && Within(rootReal.dest, found.dest) then Accepted(abs) else Outside
      else Accepted(abs)
  }

  /** The real root, as a location. */
  function RootPlace(fs: FS, cwd: Path, root: Typed): Path
    requires EvalSymlinks(fs, cwd, root).Found?
  {
    Place(cwd, EvalSymlinks(fs, cwd, root).dest)
  }

  // ── facts about both ──

  lemma SymlinksAreSound(fs: FS, cwd: Path, t: Typed)
    ensures EvalSymlinks(fs, cwd, t).Found? ==> Sound(EvalSymlinks(fs, cwd, t).dest)
  {
    EvalIsSound(fs, cwd, Start(t), t.segs, GO_LINKS);
  }

  /** Facts every accepted path shares: it is the cleaned root with names below it, and its deepest
      resolving ancestor lies under the real root. */
  lemma AcceptedShape(fs: FS, cwd: Path, root: Typed, rel: Typed, follows: bool)
    requires ResolveForWrite(fs, cwd, root, rel, follows).Accepted?
    ensures var p := ResolveForWrite(fs, cwd, root, rel, follows).path;
            && p == Typed(root.absolute, CleanText(root).segs + Clean(rel.segs)) && IsClean(p.segs, p.absolute)
            && EvalSymlinks(fs, cwd, root).Found?
            && var anchor := EvalSymlinks(fs, cwd, Deepest(fs, cwd, p.DirOf()));
               && anchor.Found? && Within(EvalSymlinks(fs, cwd, root).dest, anchor.dest)
               && RootPlace(fs, cwd, root) <= Place(cwd, anchor.dest)
  {
    hide Within;
    PermitsExactly(root, rel);
    var at := Deepest(fs, cwd, Join(root, rel.segs).DirOf());
    SymlinksAreSound(fs, cwd, root);
    SymlinksAreSound(fs, cwd, at);
    WithinExactly(cwd, EvalSymlinks(fs, cwd, root).dest, EvalSymlinks(fs, cwd, at).dest);
  }

  lemma DeepestResolves(fs: FS, cwd: Path, t: Typed)
    ensures EvalSymlinks(fs, cwd, t).Found? ==> Deepest(fs, cwd, t) == t
    ensures Deepest(fs, cwd, t).absolute == t.absolute && Deepest(fs, cwd, t).segs <= t.segs
    decreases |t.segs|
  {
    if EvalSymlinks(fs, cwd, t).Missing? && t.segs != [] {
      DeepestResolves(fs, cwd, t.DirOf());
    }
  }

  lemma {:induction false} DeepestIsDeepest(fs: FS, cwd: Path, t: Typed, q: Path)
    requires Deepest(fs, cwd, t).segs <= q <= t.segs && q != Deepest(fs, cwd, t).segs
    ensures EvalSymlinks(fs, cwd, Typed(t.absolute, q)).Missing?
    decreases |t.segs|
  {
    if EvalSymlinks(fs, cwd, t).Missing? && q != t.segs {
      assert q <= Parent(t.segs);
      DeepestIsDeepest(fs, cwd, t.DirOf(), q);
    }
  }

  /** A clean path that does not end in a name is climbs only, and resolves without a look. */
  lemma ClimbsOnly(fs: FS, cwd: Path, t: Typed)
    requires IsClean(t.segs, t.absolute) && !t.EndsPlain()
    ensures EvalSymlinks(fs, cwd, t).Found? && (t.absolute ==> t.segs == [])
    ensures !t.absolute ==> EvalSymlinks(fs, cwd, t) == Found(Below(|t.segs|, []), GO_LINKS)
  {
    if t.segs != [] {
      var n := |t.segs| - 1;
      assert !Plain(t.segs[n]) && !t.absolute;
      assert forall s | s in t.segs :: s == "..";
    }
    if !t.absolute {
      ClimbsResolve(fs, cwd, 0, t.segs, GO_LINKS);
    }
  }

  /** No name of the root is followed by a "..": its text and its cleaned text climb alike. */
  predicate Settled(root: Typed) {
    forall i, j | 0 <= i < j < |root.segs| && root.segs[j] == ".." :: !Plain(root.segs[i])
  }

  predicate NoClimb(segs: Path) {
    forall s | s in segs :: s != ".."
  }

  /** Resolving what cleaning has collected so far, and then the rest, is resolving the cleaned
      whole. */
  lemma {:induction false} CleanResolves(fs: FS, cwd: Path, root: Typed, stack: Path, segs: Path)
    requires IsClean(stack, root.absolute) && Settled(Typed(root.absolute, segs))
    requires (exists s | s in stack :: Plain(s)) ==> NoClimb(segs)
    requires var mid := EvalSymlinks(fs, cwd, Typed(root.absolute, stack));
             mid.Found? && Eval(fs, cwd, mid.dest, segs, mid.links).Found?
    ensures var mid := EvalSymlinks(fs, cwd, Typed(root.absolute, stack));
            EvalSymlinks(fs, cwd, Typed(root.absolute, CleanFrom(stack, segs, root.absolute))) == Eval(fs, cwd, mid.dest, segs, mid.links)
    decreases |segs|
  {
    if segs != [] {
      var s, rest := segs[0], segs[1..];
      var mid := EvalSymlinks(fs, cwd, Typed(root.absolute, stack));
      var next := CleanOne(stack, s, root.absolute);
      assert [s] + rest == segs;
      EvalComposes(fs, cwd, mid.dest, [s], rest, mid.links);
      assert segs[0] in segs;
      CleanOneResolves(fs, cwd, root, stack, s);
      assert forall x | x in rest :: x in segs;
      assert forall i | 0 <= i < |rest| :: rest[i] == segs[i + 1];
      assert Settled(Typed(root.absolute, rest));
      if exists x | x in next :: Plain(x) {
        NamesEndClimbs(root, stack, segs);
      }
      CleanResolves(fs, cwd, root, next, rest);
    }
  }

  lemma NamesEndClimbs(root: Typed, stack: Path, segs: Path)
    requires segs != [] && Settled(Typed(root.absolute, segs))
    requires (exists s | s in stack :: Plain(s)) ==> NoClimb(segs)
    requires exists x | x in CleanOne(stack, segs[0], root.absolute) :: Plain(x)
    ensures NoClimb(segs[1..])
  {
    forall x | x in segs[1..] ensures x != ".." {
      var j :| 0 <= j < |segs| - 1 && segs[1..][j] == x;
      assert segs[j + 1] == x && x in segs;
      assert NoClimb(segs) || Plain(segs[0]);
    }
  }

  lemma CleanOneResolves(fs: FS, cwd: Path, root: Typed, stack: Path, s: string)
    requires IsClean(stack, root.absolute) && (s == ".." ==> forall x | x in stack :: !Plain(x))
    requires var mid := EvalSymlinks(fs, cwd, Typed(root.absolute, stack));
             mid.Found? && Eval(fs, cwd, mid.dest, [s], mid.links).Found?
    ensures var mid, next := EvalSymlinks(fs, cwd, Typed(root.absolute, stack)), CleanOne(stack, s, root.absolute);
            && IsClean(next, root.absolute)
            && EvalSymlinks(fs, cwd, Typed(root.absolute, next)) == Eval(fs, cwd, mid.dest, [s], mid.links)
  {
    assert [s][1..] == [];
    if Plain(s) {
      EvalSplits(fs, cwd, Start(root), stack, s, GO_LINKS);
    } else if s == ".." {
      assert stack != [] ==> stack[0] in stack && stack[|stack| - 1] in stack;
      var next := CleanOne(stack, s, root.absolute);
      ClimbsOnly(fs, cwd, Typed(root.absolute, stack));
      assert IsClean(next, root.absolute);
      ClimbsOnly(fs, cwd, Typed(root.absolute, next));
    }
  }

  /** A settled root and its cleaned text resolve alike. */
  lemma SettledResolves(fs: FS, cwd: Path, root: Typed)
    requires Settled(root) && EvalSymlinks(fs, cwd, root).Found?
    ensures EvalSymlinks(fs, cwd, CleanText(root)) == EvalSymlinks(fs, cwd, root)
  {
    CleanResolves(fs, cwd, root, [], root.segs);
  }

  /** A run of ".." and nothing else, as text. */
  predicate BareClimb(p: Typed) {
    !p.absolute && p.segs != [] && !p.EndsPlain()
  }

  lemma CleanParent(t: Typed)
    requires IsClean(t.segs, t.absolute)
    ensures IsClean(t.DirOf().segs, t.absolute)
  {
  }

  lemma {:induction false} DotsVanish(fs: FS, cwd: Path, segs: Path)
    requires forall s | s in segs :: Stays(s)
    ensures CleanFrom([], segs, false) == [] && Eval(fs, cwd, Below(0, []), segs, GO_LINKS) == Found(Below(0, []), GO_LINKS)
    decreases |segs|
  {
    if segs != [] {
      assert segs[0] in segs && forall s | s in segs[1..] :: s in segs;
      DotsVanish(fs, cwd, segs[1..]);
    }
  }
}

/** The reader and the writer of one repository compared: which existing paths one takes and the
    other refuses. */
module ReaderAndWriter {
  import opened FileSystem
  import opened PathText
  import opened PathFence

  /** A root that resolves, and a permitted path that exists. */
  ghost predicate Existing(fs: FS, cwd: Path, root: Typed, rel: Typed) {
    && Permits(rel) && EvalSymlinks(fs, cwd, root).Found?
    && EvalSymlinks(fs, cwd, Join(root, rel.segs)).Found?
  }

  /** A settled root itself is never what the reader refuses. */
  lemma ReaderTakesTheRoot(fs: FS, cwd: Path, root: Typed, rel: Typed)
    requires Existing(fs, cwd, root, rel) && Settled(root)
    ensures Clean(rel.segs) == [] ==> EvalSymlinks(fs, cwd, Join(root, rel.segs)) == EvalSymlinks(fs, cwd, root)
    ensures Clean(rel.segs) == [] ==> Resolve(fs, cwd, root, rel).Accepted?
  {
    PermitsExactly(root, rel);
    if Clean(rel.segs) == [] {
      assert Join(root, rel.segs) == CleanText(root);
      SettledResolves(fs, cwd, root);
      SymlinksAreSound(fs, cwd, root);
      WithinMeans(EvalSymlinks(fs, cwd, root).dest, EvalSymlinks(fs, cwd, root).dest);
    }
  }

  /** Exactly when the writer takes an existing path that the reader refuses, for every root text:
      the path's directory lies under the real root, and either the kernel cannot reach the last
      name to see whether it is a link, or it is no link and sits directly in the real root under
      a name that begins with "..", or the path is a bare climb out of the real root. */
  lemma WriterTakesWhatReaderRefuses(fs: FS, cwd: Path, root: Typed, rel: Typed)
    requires Existing(fs, cwd, root, rel)
    ensures var abs := Join(root, rel.segs);
            Resolve(fs, cwd, root, rel) == Outside && ResolveForWrite(fs, cwd, root, rel, true).Accepted? <==>
            var rootReal, dir := EvalSymlinks(fs, cwd, root).dest, EvalSymlinks(fs, cwd, abs.DirOf());
            && !Within(rootReal, EvalSymlinks(fs, cwd, abs).dest)
            && dir.Found? && Within(rootReal, dir.dest) && !LstatIsLink(fs, cwd, abs)
            && if abs.EndsPlain() then
                 Slot(fs, cwd, abs).Failed? || (dir.dest == rootReal && StartsWithDots(abs.segs[|abs.segs| - 1]))
               else
                 BareClimb(abs) && dir.dest == rootReal
  {
    var abs := Join(root, rel.segs);
    PermitsExactly(root, rel);
    SymlinksAreSound(fs, cwd, root);
    if abs.EndsPlain() {
      NameParts(fs, cwd, root, rel);
    } else {
      ClimbsOnly(fs, cwd, abs);
      CleanParent(abs);
      ClimbsOnly(fs, cwd, abs.DirOf());
      DeepestResolves(fs, cwd, abs.DirOf());
      if BareClimb(abs) {
        WithinMeans(EvalSymlinks(fs, cwd, root).dest, Below(|abs.segs| - 1, []));
      }
      hide Within;
    }
  }

  /** The same for a path that ends in a name. */
  lemma NameParts(fs: FS, cwd: Path, root: Typed, rel: Typed)
    requires Existing(fs, cwd, root, rel) && Join(root, rel.segs).EndsPlain()
    ensures var abs := Join(root, rel.segs);
            Resolve(fs, cwd, root, rel) == Outside && ResolveForWrite(fs, cwd, root, rel, true).Accepted? <==>
            var rootReal, dir := EvalSymlinks(fs, cwd, root).dest, EvalSymlinks(fs, cwd, abs.DirOf());
            && !Within(rootReal, EvalSymlinks(fs, cwd, abs).dest)
            && dir.Found? && Within(rootReal, dir.dest) && !LstatIsLink(fs, cwd, abs)
            && (Slot(fs, cwd, abs).Failed? || (dir.dest == rootReal && StartsWithDots(abs.segs[|abs.segs| - 1])))
  {
    var abs := Join(root, rel.segs);
    LastStep(fs, cwd, abs);
    DeepestResolves(fs, cwd, abs.DirOf());
    SymlinksAreSound(fs, cwd, root);
    SymlinksAreSound(fs, cwd, abs);
    SymlinksAreSound(fs, cwd, abs.DirOf());
    var rootReal, dir := EvalSymlinks(fs, cwd, root).dest, EvalSymlinks(fs, cwd, abs.DirOf()).dest;
    WithinMeans(rootReal, EvalSymlinks(fs, cwd, abs).dest);
    WithinMeans(rootReal, dir);
    WithinChild(rootReal, dir, abs.segs[|abs.segs| - 1]);
    if Slot(fs, cwd, abs).At? {
      KernelAgrees(fs, cwd, abs.DirOf());
    }
    hide Within;
  }

  /** One more name stays within, unless it is the first below the root and begins with "..". */
  lemma WithinChild(root: Real, dir: Real, name: string)
    requires Sound(root) && Sound(dir) && Plain(name)
    ensures Within(root, dir) ==> (Within(root, Child(dir, name)) <==> !(dir == root && StartsWithDots(name)))
  {
    WithinMeans(root, dir);
    WithinMeans(root, Child(dir, name));
  }

  /** In terms a caller can look up: while the kernel reaches the path's directory, the writer takes
      what the reader refuses exactly when the path names something other than a link, its name
      begins with "..", and its directory resolves to what the root resolves to. */
  lemma WriterFollowsReader(fs: FS, cwd: Path, root: Typed, rel: Typed)
    requires Existing(fs, cwd, root, rel)
    requires var abs := Join(root, rel.segs); abs.EndsPlain() && Slot(fs, cwd, abs).At?
    ensures var abs := Join(root, rel.segs);
            Resolve(fs, cwd, root, rel) == Outside && ResolveForWrite(fs, cwd, root, rel, true) != Outside <==>
            && !LstatIsLink(fs, cwd, abs) && StartsWithDots(abs.segs[|abs.segs| - 1])
            && EvalSymlinks(fs, cwd, abs.DirOf()).Found?
            && EvalSymlinks(fs, cwd, abs.DirOf()).dest == EvalSymlinks(fs, cwd, root).dest
  {
    var abs := Join(root, rel.segs);
    PermitsExactly(root, rel);
    LastStep(fs, cwd, abs);
    KernelAgrees(fs, cwd, abs.DirOf());
    DeepestResolves(fs, cwd, abs.DirOf());
    SymlinksAreSound(fs, cwd, root);
    SymlinksAreSound(fs, cwd, abs.DirOf());
    var rootReal, dir := EvalSymlinks(fs, cwd, root).dest, EvalSymlinks(fs, cwd, abs.DirOf()).dest;
    WithinMeans(rootReal, rootReal);
    WithinChild(rootReal, dir, abs.segs[|abs.segs| - 1]);
    hide Within;
  }

  /** The dotted name is not an escape: it is directly in the real root. */
  lemma DottedNameIsInside(fs: FS, cwd: Path, root: Typed, rel: Typed)
    requires Existing(fs, cwd, root, rel)
    requires Resolve(fs, cwd, root, rel) == Outside && ResolveForWrite(fs, cwd, root, rel, true).Accepted?
    requires var abs := Join(root, rel.segs); abs.EndsPlain() && Slot(fs, cwd, abs).At?
    ensures RootPlace(fs, cwd, root) <= Place(cwd, EvalSymlinks(fs, cwd, Join(root, rel.segs)).dest)
  {
    var abs := Join(root, rel.segs);
    WriterFollowsReader(fs, cwd, root, rel);
    LastStep(fs, cwd, abs);
    KernelAgrees(fs, cwd, abs.DirOf());
    PlaceMoves(cwd, EvalSymlinks(fs, cwd, root).dest, abs.segs[|abs.segs| - 1]);
  }

  /** What the reader refuses, for any root text: what lies outside the real root, and inside it
      only what resolves in another frame than the root, or to a first name that begins with
      "..". */
  lemma ReaderRefusesExactly(fs: FS, cwd: Path, root: Typed, rel: Typed)
    requires Permits(rel) && EvalSymlinks(fs, cwd, root).Found? && EvalSymlinks(fs, cwd, Join(root, rel.segs)).Found?
    ensures var rootReal, found := EvalSymlinks(fs, cwd, root).dest, EvalSymlinks(fs, cwd, Join(root, rel.segs)).dest;
            Resolve(fs, cwd, root, rel) == Outside <==>
            !(RootPlace(fs, cwd, root) <= Place(cwd, found)) || !SameFrame(rootReal, found) || Dotted(rootReal, found)
  {
    SymlinksAreSound(fs, cwd, root);
    SymlinksAreSound(fs, cwd, Join(root, rel.segs));
    WithinExactly(cwd, EvalSymlinks(fs, cwd, root).dest, EvalSymlinks(fs, cwd, Join(root, rel.segs)).dest);
    hide Within;
  }
}

/** Trees on which the reader's and the writer's fence answer differently, or against containment. */
module FenceExamples {
  import opened FileSystem
  import opened PathText
  import opened PathFence
  import opened WriterFence
  import opened ReaderAndWriter

  lemma {:induction false} NamesStay(stack: Path, segs: Path, rooted: bool)
    requires AllPlain(segs)
    ensures CleanFrom(stack, segs, rooted) == stack + segs
    decreases |segs|
  {
    if segs == [] {
      assert stack + segs == stack;
    } else {
      assert segs[0] in segs && forall s | s in segs[1..] :: s in segs;
      NamesStay(stack + [segs[0]], segs[1..], rooted);
      assert stack + [segs[0]] + segs[1..] == stack + segs;
    }
  }

  /** A path of names joins to a root of names as it stands. */
  lemma JoinsPlainly(root: Typed, rel: Typed)
    requires AllPlain(root.segs) && AllPlain(rel.segs) && !rel.absolute
    ensures Clean(rel.segs) == rel.segs && Permits(rel) && Join(root, rel.segs) == Typed(root.absolute, root.segs + rel.segs)
  {
    NamesStay([], rel.segs, false);
    NamesStay([], root.segs + rel.segs, root.absolute);
    assert [] + rel.segs == rel.segs && [] + (root.segs + rel.segs) == root.segs + rel.segs;
    assert rel.segs != [] ==> rel.segs[0] in rel.segs;
  }

  /** A file `..x` in the root, seen from the root: the reader refuses it, the writer takes it. */
  lemma DottedNameParts()
    ensures var fs: FS := map[[] := Dir, ["r"] := Dir, ["r", "..x"] := File("")];
            Resolve(fs, ["r"], Typed(false, ["."]), Typed(false, ["..x"])) == Outside
            && ResolveForWrite(fs, ["r"], Typed(false, ["."]), Typed(false, ["..x"]), true) == Accepted(Typed(false, ["..x"]))
  {
    var fs: FS := map[[] := Dir, ["r"] := Dir, ["r", "..x"] := File("")];
    var cwd, root, rel := ["r"], Typed(false, ["."]), Typed(false, ["..x"]);
    DotRootAt(fs, cwd, rel);
    var abs := Join(root, rel.segs);
    hide Permits;
    hide CleanFrom;
    assert ["..x"][1..] == [] && cwd + [] == cwd && [] + ["..x"] == ["..x"] && cwd + ["..x"] == ["r", "..x"];
    assert EvalSymlinks(fs, cwd, abs) == Found(Below(0, ["..x"]), GO_LINKS);
    assert EvalSymlinks(fs, cwd, abs.DirOf()) == Found(Below(0, []), GO_LINKS);
    assert Slot(fs, cwd, abs) == At(["r", "..x"], KERNEL_LINKS);
    hide Slot;
    WriterFollowsReader(fs, cwd, root, rel);
  }

  lemma DotRootAt(fs: FS, cwd: Path, rel: Typed)
    requires AllPlain(rel.segs) && !rel.absolute
    ensures Permits(rel) && Join(Typed(false, ["."]), rel.segs) == Typed(false, rel.segs)
    ensures EvalSymlinks(fs, cwd, Typed(false, ["."])) == Found(Below(0, []), GO_LINKS)
  {
    JoinsPlainly(Typed(false, []), rel);
    assert ["."][1..] == [];
    CleanInTwo([], ["."], rel.segs, false);
    NamesStay([], rel.segs, false);
    assert [] + rel.segs == rel.segs;
  }

  function Inward(): FS {
    map[[] := Dir, ["w"] := Dir, ["w", "d"] := Dir, ["w", "l"] := Link(true, ["w", "d"])]
  }

  lemma InwardEval(dest: Real, links: nat)
    requires (dest == Abs(["w"]) || dest == Below(0, [])) && links > 0
    ensures Eval(Inward(), ["w"], dest, ["l"], links) == Found(Abs(["w", "d"]), links - 1)
  {
    assert ["l"][1..] == [] && ["w", "d"][1..] == ["d"] && ["d"][1..] == [] && ["w", "d"] + [] == ["w", "d"];
    assert ["w"] + [] == ["w"] && [] + ["w"] == ["w"] && ["w"] + ["d"] == ["w", "d"] && [] + ["l"] == ["l"] && ["w"] + ["l"] == ["w", "l"];
    assert Eval(Inward(), ["w"], Abs(["w"]), ["d"], links - 1) == Found(Abs(["w", "d"]), links - 1);
    assert Eval(Inward(), ["w"], Abs([]), ["w", "d"], links - 1) == Found(Abs(["w", "d"]), links - 1);
    assert Place(["w"], dest) == ["w"] && Place(["w"], Child(dest, "l")) == ["w", "l"];
  }

  /** An absolute link to a place inside: refused from the relative root ".", taken from the same
      root spelled absolutely. */
  lemma InwardLinkParts()
    ensures Resolve(Inward(), ["w"], Typed(false, ["."]), Typed(false, ["l"])) == Outside
    ensures Resolve(Inward(), ["w"], Typed(true, ["w"]), Typed(false, ["l"])) == Accepted(Typed(true, ["w", "d"]))
  {
    hide Eval;
    hide Permits;
    hide CleanFrom;
    hide Within;
    var fs, cwd, rel := Inward(), ["w"], Typed(false, ["l"]);
    DotRootAt(fs, cwd, rel);
    JoinsPlainly(Typed(true, ["w"]), rel);
    InwardEval(Below(0, []), GO_LINKS);
    InwardFromW([]);
    InwardFromW(["l"]);
    InwardEval(Abs(["w"]), GO_LINKS);
    InwardEnds();
    assert ["w"] + ["l"] == ["w", "l"] && ["w"] + [] == ["w"];
    WithinMeans(Abs(["w"]), Abs(["w", "d"]));
  }

  lemma InwardEnds()
    ensures Eval(Inward(), ["w"], Abs(["w"]), [], GO_LINKS) == Found(Abs(["w"]), GO_LINKS)
    ensures !Within(Below(0, []), Abs(["w", "d"]))
  {
  }

  lemma InwardFromW(rest: Path)
    ensures EvalSymlinks(Inward(), ["w"], Typed(true, ["w"] + rest)) == Eval(Inward(), ["w"], Abs(["w"]), rest, GO_LINKS)
  {
    assert (["w"] + rest)[1..] == rest && [] + ["w"] == ["w"];
  }

  /** `m` links to its own directory, `f` out of the root. */
  function Looping(): FS {
    map[[] := Dir, ["r"] := Dir, ["r", "m"] := Link(false, ["."]), ["r", "f"] := Link(true, ["out"]), ["out"] := File("")]
  }

  function Loops(n: nat): Path {
    seq(n, _ => "m")
  }

  lemma {:induction false} LoopsEval(n: nat, rest: Path, links: nat)
    ensures Eval(Looping(), [], Abs(["r"]), Loops(n) + rest, links) ==
            if links < n then Missing else Eval(Looping(), [], Abs(["r"]), rest, links - n)
    ensures n > links ==> Walk(Looping(), ["r"], Loops(n) + rest, links).Failed?
    decreases n
  {
    var path := Loops(n) + rest;
    if n == 0 {
      assert path == rest;
    } else {
      assert path[0] == "m" && path[1..] == Loops(n - 1) + rest;
      assert ["r"] + ["m"] == ["r", "m"];
      if links > 0 {
        var next := ["."] + path[1..];
        assert next[0] == "." && next[1..] == path[1..];
        LoopsEval(n - 1, rest, links - 1);
      }
    }
  }

  /** A name behind 41 links: EvalSymlinks follows it out of the root and the reader refuses it; the
      kernel cannot reach it, so the writer sees no link, takes it, and cannot write to it. */
  lemma FarNameParts()
    ensures var fs, root, rel := Looping(), Typed(true, ["r"]), Typed(false, Loops(41) + ["f"]);
            && Resolve(fs, [], root, rel) == Outside
            && ResolveForWrite(fs, [], root, rel, true) == Accepted(Typed(true, ["r"] + rel.segs))
            && forall data :: WriteFile(fs, [], Typed(true, ["r"] + rel.segs), data) == (false, fs)
  {
    var fs, root, rel := Looping(), Typed(true, ["r"]), Typed(false, Loops(41) + ["f"]);
    FarJoin(root, rel);
    var abs := Join(root, rel.segs);
    FarEval();
    DeepestResolves(fs, [], abs.DirOf());
    WithinMeans(Abs(["r"]), Abs(["out"]));
    WithinMeans(Abs(["r"]), Abs(["r"]));
    hide Within;
    hide Loops;
    forall data ensures WriteFile(fs, [], abs, data) == (false, fs) {
      UnreachableIsNotTouched(fs, [], abs, data);
    }
  }

  lemma FarJoin(root: Typed, rel: Typed)
    requires root == Typed(true, ["r"]) && rel == Typed(false, Loops(41) + ["f"])
    ensures Permits(rel) && Join(root, rel.segs) == Typed(true, ["r"] + rel.segs)
    ensures var abs := Join(root, rel.segs);
            abs.EndsPlain() && IsClean(abs.segs, true) && abs.DirOf() == Typed(true, ["r"] + Loops(41))
  {
    hide Permits;
    hide CleanFrom;
    JoinsPlainly(root, rel);
    PermitsExactly(root, rel);
    assert Parent(["r"] + rel.segs) == ["r"] + Loops(41);
  }

  lemma FarEval()
    ensures var fs := Looping();
            && EvalSymlinks(fs, [], Typed(true, ["r"])) == Found(Abs(["r"]), GO_LINKS)
            && EvalSymlinks(fs, [], Typed(true, ["r"] + Loops(41))) == Found(Abs(["r"]), GO_LINKS - 41)
            && EvalSymlinks(fs, [], Typed(true, ["r"] + (Loops(41) + ["f"]))) == Found(Abs(["out"]), GO_LINKS - 42)
            && KernelWalk(fs, [], Typed(true, ["r"] + Loops(41))).Failed?
  {
    hide Loops;
    hide Looping;
    var far := Loops(41);
    assert far + [] == far && ["r"] + [] == ["r"];
    IntoR([]);
    IntoR(far);
    IntoR(far + ["f"]);
    LoopsEval(41, [], GO_LINKS);
    LoopsEval(41, ["f"], GO_LINKS);
    LoopsEval(41, [], KERNEL_LINKS);
    OutOfR(GO_LINKS - 41);
  }

  lemma IntoR(rest: Path)
    ensures EvalSymlinks(Looping(), [], Typed(true, ["r"] + rest)) == Eval(Looping(), [], Abs(["r"]), rest, GO_LINKS)
    ensures KernelWalk(Looping(), [], Typed(true, ["r"] + rest)) == Walk(Looping(), ["r"], rest, KERNEL_LINKS)
  {
    assert (["r"] + rest)[1..] == rest && [] + ["r"] == ["r"];
  }

  lemma OutOfR(links: nat)
    requires links > 0
    ensures Eval(Looping(), [], Abs(["r"]), ["f"], links) == Found(Abs(["out"]), links - 1)
  {
    assert ["r"] + ["f"] == ["r", "f"] && ["f"][1..] == [] && ["out"] + [] == ["out"] && [] + ["out"] == ["out"];
    assert Eval(Looping(), [], Abs([]), ["out"], links - 1) == Found(Abs(["out"]), links - 1);
  }

  // ── a root that does not read as it cleans ──

  /** `l` leads two directories down, so the text "l/../.." resolves to "." and cleans to "..". */
  function Misread(): FS {
    map[[] := Dir, ["x"] := Dir, ["w"] := Dir, ["w", "a"] := Dir, ["w", "a", "b"] := Dir, ["w", "l"] := Link(false, ["a", "b"])]
  }

  /** Asked for that root itself, the fence accepts "..", and what lies beside the root goes. */
  lemma BareClimbLeaves()
    ensures var fs, root, rel := Misread(), Typed(false, ["l", "..", ".."]), Typed(false, []);
            && !NoBareClimb(root, rel)
            && ResolveForWrite(fs, ["w"], root, rel, false) == Accepted(Typed(false, [".."]))
            && EvalSymlinks(fs, ["w"], root).Found? && RootPlace(fs, ["w"], root) == ["w"]
            && !ChangesOnlyUnder(fs, RemoveAll(fs, ["w"], Typed(false, [".."])), ["w"])
  {
    hide Within;
    hide Permits;
    hide CleanFrom;
    hide RemoveAll;
    hide Eval;
    hide Misread;
    var fs, cwd, root, rel := Misread(), ["w"], Typed(false, ["l", "..", ".."]), Typed(false, []);
    MisreadCleans();
    MisreadEval();
    MisreadNeighbour();
    DotsVanish(fs, cwd, []);
    DeepestResolves(fs, cwd, Typed(false, []));
    assert Typed(false, [".."]).DirOf() == Typed(false, []) && cwd + [] == cwd;
    WithinMeans(Below(0, []), Below(0, []));
    assert !Settled(root) by {
      assert root.segs[1] == ".." && Plain(root.segs[0]);
    }
    RemoveAllLeavesExactly(fs, cwd, root, rel);
  }

  lemma MisreadNeighbour()
    ensures KernelWalk(Misread(), ["w"], Typed(false, [".."])).At? && HasNeighbour(Misread(), ["w"])
  {
    var fs, cwd := Misread(), ["w"];
    assert [".."][1..] == [] && Parent(["w"]) == [];
    assert KernelWalk(fs, cwd, Typed(false, [".."])) == At([], KERNEL_LINKS);
    assert "w"[0] != "x"[0] && ["w"][0] != ["x"][0];
    assert ["x"] in fs && [] < ["x"] && !(["w"] <= ["x"]);
  }

  lemma MisreadCleans()
    ensures var root, rel := Typed(false, ["l", "..", ".."]), Typed(false, []);
            Permits(rel) && Clean(rel.segs) == [] && Join(root, rel.segs) == Typed(false, [".."]) && CleanText(root) == Typed(false, [".."])
  {
    var segs := ["l", "..", ".."];
    assert segs + [] == segs && segs[1..] == ["..", ".."] && ["..", ".."][1..] == [".."] && [".."][1..] == [];
    assert [] + ["l"] == ["l"] && ["l"][..0] == [];
    assert CleanFrom([], [".."], false) == [".."];
    assert CleanFrom(["l"], ["..", ".."], false) == [".."];
  }

  lemma MisreadEval()
    ensures EvalSymlinks(Misread(), ["w"], Typed(false, ["l", "..", ".."])) == Found(Below(0, []), GO_LINKS - 1)
  {
    var fs, cwd := Misread(), ["w"];
    var up := ["..", ".."];
    assert ["l", "..", ".."][1..] == up && up[1..] == [".."] && [".."][1..] == [];
    assert ["a", "b"] + up == ["a", "b", "..", ".."] && ["a", "b", "..", ".."][1..] == ["b", "..", ".."] && ["b", "..", ".."][1..] == up;
    assert cwd + [] == cwd && cwd + ["l"] == ["w", "l"] && cwd + ["a"] == ["w", "a"] && cwd + ["a", "b"] == ["w", "a", "b"];
    assert [] + ["l"] == ["l"] && [] + ["a"] == ["a"] && ["a"] + ["b"] == ["a", "b"] && Parent(["a", "b"]) == ["a"] && Parent(["a"]) == [];
    assert Up(Below(0, ["a", "b"])) == Below(0, ["a"]) && Up(Below(0, ["a"])) == Below(0, []);
    assert Eval(fs, cwd, Below(0, ["a"]), [".."], GO_LINKS - 1) == Found(Below(0, []), GO_LINKS - 1);
    assert Eval(fs, cwd, Below(0, ["a", "b"]), up, GO_LINKS - 1) == Found(Below(0, []), GO_LINKS - 1);
    assert Eval(fs, cwd, Below(0, ["a"]), ["b", "..", ".."], GO_LINKS - 1) == Found(Below(0, []), GO_LINKS - 1);
  }
}

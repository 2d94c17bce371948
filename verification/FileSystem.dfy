/** A tree of directories, files and symbolic links, and the ways a path is resolved in it
    (section 4.13 of the POSIX.1-2017 Base Definitions). A location is the list of names from
    the root; a path may also hold "", "." and "..". */
module FileSystem {

  type Path = seq<string>

  datatype Node = Dir | File(data: string) | Link(absolute: bool, target: Path)

  type FS = map<Path, Node>

  datatype Walked = At(at: Path, links: nat) | Failed

  predicate IsDir(fs: FS, at: Path) {
    at in fs && fs[at].Dir?
  }

  function Parent(at: Path): Path {
    if at == [] then [] else at[..|at| - 1]
  }

  predicate Stays(name: string) {
    name == "" || name == "."
  }

  /** A name that stands for an entry of a directory. */
  predicate Plain(name: string) {
    !Stays(name) && name != ".."
  }

  predicate AllPlain(p: Path) {
    forall s | s in p :: Plain(s)
  }

  /** A path as typed: its segments between slashes. */
  datatype Typed = Typed(absolute: bool, segs: Path) {
    /** It names an entry of a directory, not "/", "." or "..". */
    predicate EndsPlain() {
      segs != [] && Plain(segs[|segs| - 1])
    }

    /** filepath.Dir of a clean path; of "." and ".." it is ".". */
    function DirOf(): Typed {
      Typed(absolute, Parent(segs))
    }
  }

  /** Where a path starts from in a process with this working directory. */
  function From(cwd: Path, t: Typed): Path {
    if t.absolute then [] else cwd
  }

  /** Resolution by the kernel: every link is followed, at most `links` of them; the result says how
      many are left. */
  function Walk(fs: FS, at: Path, rest: Path, links: nat): Walked
    decreases links, |rest|
  {
    if rest == [] then At(at, links)
    else if !IsDir(fs, at) then Failed
    else if Stays(rest[0]) then Walk(fs, at, rest[1..], links)
    else if rest[0] == ".." then Walk(fs, Parent(at), rest[1..], links)
    else
      var child := at + [rest[0]];
      if child !in fs then Failed
      else
        match fs[child]
        case Dir => Walk(fs, child, rest[1..], links)
        case File(_) => Walk(fs, child, rest[1..], links)
        case Link(absolute, target) =>
          if links == 0 then Failed
          else Walk(fs, if absolute then [] else at, target + rest[1..], links - 1)
  }

  const KERNEL_LINKS := 40

  function KernelWalk(fs: FS, cwd: Path, t: Typed): Walked {
    Walk(fs, From(cwd, t), t.segs, KERNEL_LINKS)
  }

  // ── resolution in the text ──

  /** What filepath.EvalSymlinks answers: an absolute clean path, or a relative one that climbs
      `ups` times and then goes down. */
  datatype Real = Abs(at: Path) | Below(ups: nat, names: Path)

  datatype Evaluated = Found(dest: Real, links: nat) | Missing

  function Above(cwd: Path, ups: nat): Path {
    if ups == 0 then cwd else Parent(Above(cwd, ups - 1))
  }

  /** The location a resolved path names from a working directory. */
  function Place(cwd: Path, r: Real): Path {
    match r
    case Abs(at) => at
    case Below(ups, names) => Above(cwd, ups) + names
  }

  function Up(r: Real): Real {
    match r
    case Abs(at) => Abs(Parent(at))
    case Below(ups, names) => if names == [] then Below(ups + 1, []) else Below(ups, Parent(names))
  }

  function Child(r: Real, name: string): Real {
    match r
    case Abs(at) => Abs(at + [name])
    case Below(ups, names) => Below(ups, names + [name])
  }

  /** The loop of walkSymlinks: a relative path stays relative until it meets an absolute link, and
      "." and ".." are never looked up. */
  function Eval(fs: FS, cwd: Path, dest: Real, rest: Path, links: nat): Evaluated
    decreases links, |rest|
  {
    if rest == [] then Found(dest, links)
    else if Stays(rest[0]) then Eval(fs, cwd, dest, rest[1..], links)
    else if rest[0] == ".." then Eval(fs, cwd, Up(dest), rest[1..], links)
    else
      var child := Child(dest, rest[0]);
      if !IsDir(fs, Place(cwd, dest)) || Place(cwd, child) !in fs then Missing
      else
        match fs[Place(cwd, child)]
        case Dir => Eval(fs, cwd, child, rest[1..], links)
        case File(_) => if rest[1..] == [] then Found(child, links) else Missing
        case Link(absolute, target) =>
          if links == 0 then Missing
          else Eval(fs, cwd, if absolute then Abs([]) else dest, target + rest[1..], links - 1)
  }

  const GO_LINKS := 255

  function Start(t: Typed): Real {
    if t.absolute then Abs([]) else Below(0, [])
  }

  /** filepath.EvalSymlinks. */
  function EvalSymlinks(fs: FS, cwd: Path, t: Typed): Evaluated {
    Eval(fs, cwd, Start(t), t.segs, GO_LINKS)
  }

  /** Where an open that may create its target lands: as Walk, except that a missing last name is
      the place of the new file, also at the end of a link. */
  function OpenForWrite(fs: FS, at: Path, rest: Path, links: nat): Walked
    decreases links, |rest|
  {
    if rest == [] then At(at, links)
    else if !IsDir(fs, at) then Failed
    else if Stays(rest[0]) then OpenForWrite(fs, at, rest[1..], links)
    else if rest[0] == ".." then OpenForWrite(fs, Parent(at), rest[1..], links)
    else
      var child := at + [rest[0]];
      if child !in fs then if |rest| == 1 then At(child, links) else Failed
      else
        match fs[child]
        case Dir => OpenForWrite(fs, child, rest[1..], links)
        case File(_) => OpenForWrite(fs, child, rest[1..], links)
        case Link(absolute, target) =>
          if links == 0 then Failed
          else OpenForWrite(fs, if absolute then [] else at, target + rest[1..], links - 1)
  }

  /** Where the last name of a path lives, following every link but the last: what lstat, mkdir
      and unlink act on. */
  function Slot(fs: FS, cwd: Path, t: Typed): Walked
    requires t.EndsPlain()
  {
    var dir := KernelWalk(fs, cwd, t.DirOf());
    if dir.At? && IsDir(fs, dir.at) then At(dir.at + [t.segs[|t.segs| - 1]], dir.links) else Failed
  }

  predicate LstatIsLink(fs: FS, cwd: Path, t: Typed) {
    t.EndsPlain() && var slot := Slot(fs, cwd, t); slot.At? && slot.at in fs && fs[slot.at].Link?
  }

  // ── the operations ──

  /** os.WriteFile; a path that ends in "." or ".." is a directory. */
  function WriteFile(fs: FS, cwd: Path, t: Typed, data: string): (bool, FS) {
    var target := OpenForWrite(fs, From(cwd, t), t.segs, KERNEL_LINKS);
    if !t.EndsPlain() || target.Failed? || IsDir(fs, target.at) then (false, fs) else (true, fs[target.at := File(data)])
  }

  /** os.Mkdir, and whether a directory is there afterwards. */
  function Mkdir(fs: FS, cwd: Path, t: Typed): (bool, FS) {
    if !t.EndsPlain() then
      var there := KernelWalk(fs, cwd, t);
      (there.At? && IsDir(fs, there.at), fs)
    else
      var slot := Slot(fs, cwd, t);
      if slot.At? && slot.at !in fs then (true, fs[slot.at := Dir])
      else (slot.At? && IsDir(fs, slot.at), fs)
  }

  /** os.MkdirAll: a path that resolves is left alone, otherwise parents first. */
  function MkdirAll(fs: FS, cwd: Path, t: Typed): (bool, FS)
    decreases |t.segs|
  {
    var found := KernelWalk(fs, cwd, t);
    if found.At? then (IsDir(fs, found.at), fs)
    else if t.segs == [] then (false, fs)
    else
      var (ok, made) := MkdirAll(fs, cwd, t.DirOf());
      if ok then Mkdir(made, cwd, t) else (false, made)
  }

  /** os.RemoveAll: the entry itself and everything below it, following no link. "." is refused, and
      of "/" and ".." only what is below goes. */
  function RemoveAll(fs: FS, cwd: Path, t: Typed): FS {
    if t.EndsPlain() then
      var slot := Slot(fs, cwd, t);
      if slot.At? then map at | at in fs && !(slot.at <= at) :: fs[at] else fs
    else if t.segs == [] && !t.absolute then fs
    else
      var there := KernelWalk(fs, cwd, t);
      if there.At? then map at | at in fs && !(there.at < at) :: fs[at] else fs
  }

  /** Every location whose entry differs between two trees is at or below `dir`. */
  ghost predicate ChangesOnlyUnder(before: FS, after: FS, dir: Path) {
    forall at | at in before || at in after ::
      dir <= at || (at in before && at in after && after[at] == before[at])
  }

  // ── facts about resolution ──

  /** Resolving a path is resolving its front and then the rest from there. */
  lemma {:induction false} WalkSplits(fs: FS, at: Path, front: Path, back: Path, links: nat)
    ensures Walk(fs, at, front + back, links) ==
            var mid := Walk(fs, at, front, links);
            if mid.Failed? then Failed else Walk(fs, mid.at, back, mid.links)
    decreases links, |front|
  {
    if front == [] {
      assert front + back == back;
    } else if IsDir(fs, at) {
      var s, rest := front[0], front[1..];
      assert (front + back)[0] == s && (front + back)[1..] == rest + back;
      if Stays(s) {
        WalkSplits(fs, at, rest, back, links);
      } else if s == ".." {
        WalkSplits(fs, Parent(at), rest, back, links);
      } else if at + [s] in fs {
        match fs[at + [s]] {
          case Dir => WalkSplits(fs, at + [s], rest, back, links);
          case File(_) => WalkSplits(fs, at + [s], rest, back, links);
          case Link(absolute, target) =>
            if links > 0 {
              assert target + (rest + back) == (target + rest) + back;
              WalkSplits(fs, if absolute then [] else at, target + rest, back, links - 1);
            }
        }
      }
    }
  }

  /** More links allowed, or more entries present, never changes where a path that resolves goes. */
  lemma {:induction false} WalkGrows(fs: FS, more: FS, at: Path, rest: Path, links: nat, extra: nat)
    requires Walk(fs, at, rest, links).At?
    requires forall p | p in fs :: p in more && more[p] == fs[p]
    ensures var short := Walk(fs, at, rest, links);
            Walk(more, at, rest, links + extra) == At(short.at, short.links + extra)
    decreases links, |rest|
  {
    if rest != [] {
      var s, next := rest[0], rest[1..];
      if Stays(s) {
        WalkGrows(fs, more, at, next, links, extra);
      } else if s == ".." {
        WalkGrows(fs, more, Parent(at), next, links, extra);
      } else {
        match fs[at + [s]] {
          case Dir => WalkGrows(fs, more, at + [s], next, links, extra);
          case File(_) => WalkGrows(fs, more, at + [s], next, links, extra);
          case Link(absolute, target) =>
            WalkGrows(fs, more, if absolute then [] else at, target + next, links - 1, extra);
        }
      }
    }
  }

  lemma PlaceMoves(cwd: Path, r: Real, name: string)
    ensures Place(cwd, Up(r)) == Parent(Place(cwd, r)) && Place(cwd, Child(r, name)) == Place(cwd, r) + [name]
  {
    if r.Below? {
      var above := Above(cwd, r.ups);
      assert above + (r.names + [name]) == above + r.names + [name];
      if r.names == [] {
        assert above + [] == above && Parent(above) + [] == Parent(above);
      } else {
        assert Parent(above + r.names) == above + Parent(r.names);
      }
    }
  }

  lemma StartsThere(cwd: Path, t: Typed)
    ensures Place(cwd, Start(t)) == From(cwd, t)
  {
    assert cwd + [] == cwd;
  }

  /** What the kernel resolves, EvalSymlinks resolves to the same place. */
  lemma {:induction false} EvalAgrees(fs: FS, cwd: Path, dest: Real, rest: Path, links: nat, fewer: nat)
    requires fewer <= links && Walk(fs, Place(cwd, dest), rest, fewer).At?
    ensures var r := Eval(fs, cwd, dest, rest, links);
            r.Found? && Place(cwd, r.dest) == Walk(fs, Place(cwd, dest), rest, fewer).at
    decreases fewer, |rest|
  {
    if rest != [] {
      var s, next := rest[0], rest[1..];
      PlaceMoves(cwd, dest, s);
      if Stays(s) {
        EvalAgrees(fs, cwd, dest, next, links, fewer);
      } else if s == ".." {
        EvalAgrees(fs, cwd, Up(dest), next, links, fewer);
      } else {
        match fs[Place(cwd, dest) + [s]] {
          case Dir => EvalAgrees(fs, cwd, Child(dest, s), next, links, fewer);
          case File(_) =>
          case Link(absolute, target) =>
            EvalAgrees(fs, cwd, if absolute then Abs([]) else dest, target + next, links - 1, fewer - 1);
        }
      }
    }
  }

  lemma KernelAgrees(fs: FS, cwd: Path, t: Typed)
    requires KernelWalk(fs, cwd, t).At?
    ensures var r := EvalSymlinks(fs, cwd, t); r.Found? && Place(cwd, r.dest) == KernelWalk(fs, cwd, t).at
  {
    StartsThere(cwd, t);
    EvalAgrees(fs, cwd, Start(t), t.segs, GO_LINKS, KERNEL_LINKS);
  }

  /** Where a path resolves, writing through it lands on the same place or fails. */
  lemma {:induction false} OpenAgrees(fs: FS, cwd: Path, dest: Real, rest: Path, links: nat, fewer: nat)
    requires Eval(fs, cwd, dest, rest, links).Found? && OpenForWrite(fs, Place(cwd, dest), rest, fewer).At?
    ensures OpenForWrite(fs, Place(cwd, dest), rest, fewer).at == Place(cwd, Eval(fs, cwd, dest, rest, links).dest)
    decreases links, |rest|
  {
    if rest != [] {
      var s, next := rest[0], rest[1..];
      PlaceMoves(cwd, dest, s);
      if Stays(s) {
        OpenAgrees(fs, cwd, dest, next, links, fewer);
      } else if s == ".." {
        OpenAgrees(fs, cwd, Up(dest), next, links, fewer);
      } else {
        match fs[Place(cwd, dest) + [s]] {
          case Dir => OpenAgrees(fs, cwd, Child(dest, s), next, links, fewer);
          case File(_) =>
          case Link(absolute, target) =>
            OpenAgrees(fs, cwd, if absolute then Abs([]) else dest, target + next, links - 1, fewer - 1);
        }
      }
    }
  }

  /** A resolved path is clean: after its climbs it holds names only. */
  predicate Sound(r: Real) {
    match r
    case Abs(at) => AllPlain(at)
    case Below(_, names) => AllPlain(names)
  }

  lemma {:induction false} EvalIsSound(fs: FS, cwd: Path, dest: Real, rest: Path, links: nat)
    requires Sound(dest)
    ensures var r := Eval(fs, cwd, dest, rest, links); r.Found? ==> Sound(r.dest)
    decreases links, |rest|
  {
    if rest != [] {
      var s, next := rest[0], rest[1..];
      if Stays(s) {
        EvalIsSound(fs, cwd, dest, next, links);
      } else if s == ".." {
        EvalIsSound(fs, cwd, Up(dest), next, links);
      } else if Place(cwd, Child(dest, s)) in fs {
        match fs[Place(cwd, Child(dest, s))] {
          case Dir => EvalIsSound(fs, cwd, Child(dest, s), next, links);
          case File(_) =>
          case Link(absolute, target) =>
            if links > 0 {
              EvalIsSound(fs, cwd, if absolute then Abs([]) else dest, target + next, links - 1);
            }
        }
      }
    }
  }

  /** Resolving up to a name is resolving its directory, then the name there. */
  lemma {:induction false} EvalSplits(fs: FS, cwd: Path, dest: Real, front: Path, name: string, links: nat)
    requires Plain(name)
    ensures Eval(fs, cwd, dest, front + [name], links) ==
            var mid := Eval(fs, cwd, dest, front, links);
            if mid.Missing? then Missing else Eval(fs, cwd, mid.dest, [name], mid.links)
    decreases links, |front|
  {
    if front == [] {
      assert front + [name] == [name];
    } else {
      var s, rest := front[0], front[1..];
      assert (front + [name])[0] == s && (front + [name])[1..] == rest + [name];
      if Stays(s) {
        EvalSplits(fs, cwd, dest, rest, name, links);
      } else if s == ".." {
        EvalSplits(fs, cwd, Up(dest), rest, name, links);
      } else if Place(cwd, Child(dest, s)) in fs {
        match fs[Place(cwd, Child(dest, s))] {
          case Dir => EvalSplits(fs, cwd, Child(dest, s), rest, name, links);
          case File(_) =>
          case Link(absolute, target) =>
            if links > 0 {
              assert target + (rest + [name]) == (target + rest) + [name];
              EvalSplits(fs, cwd, if absolute then Abs([]) else dest, target + rest, name, links - 1);
            }
        }
      }
    }
  }

  /** A resolution that succeeds can be taken apart anywhere. */
  lemma {:induction false} EvalComposes(fs: FS, cwd: Path, dest: Real, front: Path, back: Path, links: nat)
    requires Eval(fs, cwd, dest, front + back, links).Found?
    ensures var mid := Eval(fs, cwd, dest, front, links);
            mid.Found? && Eval(fs, cwd, mid.dest, back, mid.links) == Eval(fs, cwd, dest, front + back, links)
    decreases links, |front|
  {
    if front == [] {
      assert front + back == back;
    } else {
      var s, rest := front[0], front[1..];
      assert (front + back)[0] == s && (front + back)[1..] == rest + back;
      if Stays(s) {
        EvalComposes(fs, cwd, dest, rest, back, links);
      } else if s == ".." {
        EvalComposes(fs, cwd, Up(dest), rest, back, links);
      } else {
        match fs[Place(cwd, Child(dest, s))] {
          case Dir => EvalComposes(fs, cwd, Child(dest, s), rest, back, links);
          case File(_) => assert rest == [] && back == [];
          case Link(absolute, target) =>
            assert target + (rest + back) == (target + rest) + back;
            EvalComposes(fs, cwd, if absolute then Abs([]) else dest, target + rest, back, links - 1);
        }
      }
    }
  }

  /** Climbing is never looked up. */
  lemma {:induction false} ClimbsResolve(fs: FS, cwd: Path, ups: nat, rest: Path, links: nat)
    requires forall s | s in rest :: s == ".."
    ensures Eval(fs, cwd, Below(ups, []), rest, links) == Found(Below(ups + |rest|, []), links)
    decreases |rest|
  {
    if rest != [] {
      assert rest[0] in rest && forall s | s in rest[1..] :: s in rest;
      ClimbsResolve(fs, cwd, ups + 1, rest[1..], links);
    }
  }

  /** An open resolves its directory first. */
  lemma {:induction false} OpenSplits(fs: FS, at: Path, front: Path, back: Path, links: nat)
    requires back != []
    ensures OpenForWrite(fs, at, front + back, links) ==
            var mid := Walk(fs, at, front, links);
            if mid.Failed? then Failed else OpenForWrite(fs, mid.at, back, mid.links)
    decreases links, |front|
  {
    if front == [] {
      assert front + back == back;
    } else if IsDir(fs, at) {
      var s, rest := front[0], front[1..];
      assert (front + back)[0] == s && (front + back)[1..] == rest + back;
      if Stays(s) {
        OpenSplits(fs, at, rest, back, links);
      } else if s == ".." {
        OpenSplits(fs, Parent(at), rest, back, links);
      } else if at + [s] in fs {
        match fs[at + [s]] {
          case Dir => OpenSplits(fs, at + [s], rest, back, links);
          case File(_) => OpenSplits(fs, at + [s], rest, back, links);
          case Link(absolute, target) =>
            if links > 0 {
              assert target + (rest + back) == (target + rest) + back;
              OpenSplits(fs, if absolute then [] else at, target + rest, back, links - 1);
            }
        }
      }
    }
  }

  /** The last step of a resolution. */
  lemma LastStep(fs: FS, cwd: Path, t: Typed)
    requires t.EndsPlain() && EvalSymlinks(fs, cwd, t).Found?
    ensures var dir, leaf := EvalSymlinks(fs, cwd, t.DirOf()), t.segs[|t.segs| - 1];
            && dir.Found? && IsDir(fs, Place(cwd, dir.dest)) && Place(cwd, dir.dest) + [leaf] in fs
            && (!fs[Place(cwd, dir.dest) + [leaf]].Link? ==> EvalSymlinks(fs, cwd, t).dest == Child(dir.dest, leaf))
  {
    var leaf := t.segs[|t.segs| - 1];
    assert t.segs == Parent(t.segs) + [leaf];
    EvalSplits(fs, cwd, Start(t), Parent(t.segs), leaf, GO_LINKS);
    var dir := EvalSymlinks(fs, cwd, t.DirOf());
    PlaceMoves(cwd, dir.dest, leaf);
    assert [leaf][1..] == [];
  }
}

/** Paths as text: what cleaning, joining and comparing paths means, for any root text. */
module PathText {
  import opened FileSystem
  import opened Values

  // ── lexical rules ──

  /** One segment of filepath.Clean on a stack of segments; a rooted path has nothing above it. */
  function CleanOne(stack: Path, s: string, rooted: bool): Path {
    if Stays(s) then stack
    else if s == ".." then
      if stack == [] then (if rooted then [] else [s])
      else if stack[|stack| - 1] == ".." then stack + [s]
      else stack[..|stack| - 1]
    else stack + [s]
  }

  function CleanFrom(stack: Path, segs: Path, rooted: bool): Path
    decreases |segs|
  {
    if segs == [] then stack else CleanFrom(CleanOne(stack, segs[0], rooted), segs[1..], rooted)
  }

  /** filepath.Clean of a relative path; "." is the empty list. */
  function Clean(segs: Path): Path {
    CleanFrom([], segs, false)
  }

  function CleanText(t: Typed): Typed {
    Typed(t.absolute, CleanFrom([], t.segs, t.absolute))
  }

  /** filepath.Join of a root and a relative path. */
  function Join(root: Typed, segs: Path): Typed {
    Typed(root.absolute, CleanFrom([], root.segs + segs, root.absolute))
  }

  predicate Permits(rel: Typed) {
    !rel.absolute && !(Clean(rel.segs) != [] && Clean(rel.segs)[0] == "..")
  }

  /** A walk over the segments never stands above where it began. */
  predicate NeverClimbs(segs: Path, depth: nat)
    decreases |segs|
  {
    segs == [] ||
    (if Stays(segs[0]) then NeverClimbs(segs[1..], depth)
     else if segs[0] == ".." then depth > 0 && NeverClimbs(segs[1..], depth - 1)
     else NeverClimbs(segs[1..], depth + 1))
  }

  /** Climbs first, and only where there is something above; then names. */
  predicate IsClean(p: Path, rooted: bool) {
    forall i | 0 <= i < |p| :: Plain(p[i]) || (!rooted && p[i] == ".." && forall j | 0 <= j < i :: p[j] == "..")
  }

  lemma {:induction false} CleanIsClean(stack: Path, segs: Path, rooted: bool)
    requires IsClean(stack, rooted)
    ensures IsClean(CleanFrom(stack, segs, rooted), rooted)
    decreases |segs|
  {
    if segs != [] {
      var s := segs[0];
      assert s == ".." && stack != [] && stack[|stack| - 1] == ".." ==> !Plain(stack[|stack| - 1]);
      assert IsClean(CleanOne(stack, s, rooted), rooted);
      CleanIsClean(CleanOne(stack, s, rooted), segs[1..], rooted);
    }
  }

  lemma {:induction false} CleanInTwo(stack: Path, first: Path, second: Path, rooted: bool)
    ensures CleanFrom(stack, first + second, rooted) == CleanFrom(CleanFrom(stack, first, rooted), second, rooted)
    decreases |first|
  {
    if first == [] {
      assert first + second == second;
    } else {
      assert (first + second)[0] == first[0] && (first + second)[1..] == first[1..] + second;
      CleanInTwo(CleanOne(stack, first[0], rooted), first[1..], second, rooted);
    }
  }

  lemma {:induction false} ClimbedStays(stack: Path, segs: Path)
    requires stack != [] && stack[0] == ".."
    ensures var c := CleanFrom(stack, segs, false); c != [] && c[0] == ".."
    decreases |segs|
  {
    if segs != [] {
      ClimbedStays(CleanOne(stack, segs[0], false), segs[1..]);
    }
  }

  lemma {:induction false} CleanClimbs(stack: Path, segs: Path)
    requires AllPlain(stack)
    ensures var c := CleanFrom(stack, segs, false);
            && (NeverClimbs(segs, |stack|) <==> !(c != [] && c[0] == ".."))
            && (NeverClimbs(segs, |stack|) ==> AllPlain(c))
    decreases |segs|
  {
    if segs != [] {
      var s, rest := segs[0], segs[1..];
      if s == ".." && stack == [] {
        ClimbedStays([".."], rest);
      } else {
        assert stack != [] ==> stack[|stack| - 1] in stack;
        CleanClimbs(CleanOne(stack, s, false), rest);
      }
    } else if stack != [] {
      assert stack[0] in stack && Plain(stack[0]);
    }
  }

  /** Below a path that never climbs, cleaning does not reach what stands in front. */
  lemma {:induction false} CleanBelow(front: Path, stack: Path, segs: Path, rooted: bool)
    requires AllPlain(stack) && NeverClimbs(segs, |stack|)
    ensures CleanFrom(front + stack, segs, rooted) == front + CleanFrom(stack, segs, false)
    decreases |segs|
  {
    if segs != [] {
      var next := CleanOne(stack, segs[0], false);
      assert stack != [] ==> stack[|stack| - 1] in stack;
      assert CleanOne(front + stack, segs[0], rooted) == front + next;
      CleanBelow(front, next, segs[1..], rooted);
    }
  }

  /** Permits refuses exactly the absolute paths and those that climb above the root at any point;
      what it permits is names only, and joined to any root it is the cleaned root and then those
      names. */
  lemma PermitsExactly(root: Typed, rel: Typed)
    ensures Permits(rel) <==> !rel.absolute && NeverClimbs(rel.segs, 0)
    ensures IsClean(Join(root, rel.segs).segs, root.absolute)
    ensures Permits(rel) ==> AllPlain(Clean(rel.segs)) && Join(root, rel.segs).segs == CleanText(root).segs + Clean(rel.segs)
  {
    CleanClimbs([], rel.segs);
    CleanIsClean([], root.segs + rel.segs, root.absolute);
    CleanInTwo([], root.segs, rel.segs, root.absolute);
    if Permits(rel) {
      var front := CleanText(root).segs;
      assert front + [] == front;
      CleanBelow(front, [], rel.segs, root.absolute);
    }
  }

  // ── containment of resolved paths ──

  /** The segments of a resolved path's text; "." has none. */
  function Text(r: Real): Path {
    match r
    case Abs(at) => at
    case Below(ups, names) => Climbs(ups) + names
  }

  function Climbs(ups: nat): Path {
    seq(ups, _ => "..")
  }

  /** filepath.Rel: impossible between an absolute and a relative path, and across a climb of the
      base that the target does not share. */
  function Rel(base: Path, target: Path): Option<Path>
    decreases |base|
  {
    if base != [] && target != [] && base[0] == target[0] then Rel(base[1..], target[1..])
    else if base != [] && base[0] == ".." then None
    else Some(Climbs(|base|) + target)
  }

  predicate StartsWithDots(s: string) {
    |s| >= 2 && s[..2] == ".."
  }

  /** within: the relative path exists, and is "." or its text does not start with "..". */
  predicate Within(root: Real, p: Real) {
    root.Abs? == p.Abs? &&
    var rel := Rel(Text(root), Text(p));
    rel.Some? && (rel.value == [] || !StartsWithDots(rel.value[0]))
  }

  lemma {:induction false} RelMeans(base: Path, target: Path)
    ensures var rel := Rel(base, target);
            rel.Some? && (rel.value == [] || !StartsWithDots(rel.value[0])) <==>
            base <= target && (target == base || !StartsWithDots(target[|base|]))
    decreases |base|
  {
    if base != [] && target != [] && base[0] == target[0] {
      RelMeans(base[1..], target[1..]);
      assert base == [base[0]] + base[1..] && target == [target[0]] + target[1..];
    } else if base != [] {
      assert Rel(base, target).Some? ==> Rel(base, target).value[0] == "..";
    } else {
      assert Climbs(0) + target == target;
    }
  }

  /** Both absolute, or both relative with as many climbs. */
  predicate SameFrame(a: Real, b: Real) {
    match a
    case Abs(_) => b.Abs?
    case Below(ups, _) => b.Below? && b.ups == ups
  }

  function Names(r: Real): Path {
    match r
    case Abs(at) => at
    case Below(_, names) => names
  }

  /** The first name below the root begins with "..". */
  predicate Dotted(root: Real, p: Real) {
    |Names(root)| < |Names(p)| && StartsWithDots(Names(p)[|Names(root)|])
  }

  /** within on what EvalSymlinks answers, exactly: the same frame, the root's names in front, and
      no first name below the root that begins with "..". */
  lemma WithinMeans(root: Real, p: Real)
    requires Sound(root) && Sound(p)
    ensures Within(root, p) <==>
            SameFrame(root, p) && Names(root) <= Names(p) && !Dotted(root, p)
  {
    RelMeans(Text(root), Text(p));
    if root.Below? && p.Below? {
      ClimbsInFront(root.ups, root.names, p.ups, p.names);
    }
  }

  lemma ClimbsInFront(u: nat, n: Path, v: nat, m: Path)
    requires AllPlain(n) && AllPlain(m)
    ensures var base, target := Climbs(u) + n, Climbs(v) + m;
            base <= target && (target == base || !StartsWithDots(target[|base|])) <==>
            u == v && n <= m && (m == n || !StartsWithDots(m[|n|]))
  {
    var base, target := Climbs(u) + n, Climbs(v) + m;
    if u < v {
      assert target[u] == "..";
      if n != [] {
        assert base[u] == n[0] && n[0] in n;
      } else {
        assert |base| == u;
      }
    } else if v < u {
      assert base[v] == "..";
      if m != [] {
        assert target[v] == m[0] && m[0] in m;
      }
    } else {
      assert target[u..] == m && base[u..] == n;
      assert n <= m ==> base <= target by {
        if n <= m {
          assert m == n + m[|n|..] && target == base + m[|n|..];
        }
      }
      assert base <= target ==> n <= m by {
        if base <= target {
          assert target[..|base|][u..] == m[..|n|];
        }
      }
    }
  }

  /** So what within accepts is inside, and what it refuses is outside, in another frame, or a
      dotted name: seen from the working directory, containment and the same frame are within. */
  lemma WithinExactly(cwd: Path, root: Real, p: Real)
    requires Sound(root) && Sound(p)
    ensures Within(root, p) <==>
            SameFrame(root, p) && Place(cwd, root) <= Place(cwd, p) && !Dotted(root, p)
  {
    WithinMeans(root, p);
    if SameFrame(root, p) && root.Below? {
      SameFront(Above(cwd, root.ups), root.names, p.names);
    }
  }

  lemma SameFront(front: Path, n: Path, m: Path)
    ensures front + n <= front + m <==> n <= m
  {
    if n <= m {
      assert m == n + m[|n|..] && front + m == (front + n) + m[|n|..];
    }
    if front + n <= front + m {
      assert (front + m)[..|front + n|][|front|..] == m[..|n|] && (front + n)[|front|..] == n;
    }
  }
}

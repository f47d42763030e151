// compiler/src/path_security.c: what textual normalisation and the sandbox prefix test mean.
module Paths {

  // ---- Components ----

  const CAP := 256
  const NUL := '\0'

  predicate IsCString(s: string) { NUL !in s }

  /** Where the component that starts s ends. */
  function PieceEnd(s: string): (e: nat)
    ensures e <= |s| && '/' !in s[..e] && (e == |s| || s[e] == '/')
  {
    if s == "" || s[0] == '/' then 0
    else
      var e := PieceEnd(s[1..]);
      assert s[..e + 1] == [s[0]] + s[1..][..e];
      e + 1
  }

  /** The components between runs of slashes. */
  function Components(s: string): seq<string>
    decreases |s|
  {
    if s == "" then []
    else if s[0] == '/' then Components(s[1..])
    else [s[..PieceEnd(s)]] + Components(s[PieceEnd(s)..])
  }

  predicate IsAbsolute(path: string) { path != "" && path[0] == '/' }

  /** What one component does to the components held: at most CAP are kept, further ones are dropped. */
  function Push(held: seq<string>, c: string, absolute: bool): seq<string> {
    if c == "." then held
    else if c == ".." && held != [] && held[|held| - 1] != ".." then held[..|held| - 1]
    else if c == ".." && absolute then held
    else if |held| < CAP then held + [c]
    else held
  }

  function PushAll(held: seq<string>, cs: seq<string>, absolute: bool): seq<string>
    decreases |cs|
  {
    if cs == [] then held else PushAll(Push(held, cs[0], absolute), cs[1..], absolute)
  }

  function Join(cs: seq<string>): string {
    if cs == [] then ""
    else if |cs| == 1 then cs[0]
    else Join(cs[..|cs| - 1]) + "/" + cs[|cs| - 1]
  }

  function Render(absolute: bool, cs: seq<string>): string {
    if absolute then "/" + Join(cs) else if Join(cs) == "" then "." else Join(cs)
  }

  function Held(path: string): seq<string> {
    PushAll([], Components(path), IsAbsolute(path))
  }

  /** normalize_path_textual on a non-empty path. */
  function Norm(path: string): string {
    Render(IsAbsolute(path), Held(path))
  }

  // ---- What normalisation holds ----

  predicate IsComponent(c: string) { c != "" && '/' !in c }

  predicate IsName(c: string) { IsComponent(c) && c != "." && c != ".." }

  /** Parent steps first, and only in a relative path, then names. */
  predicate Normal(cs: seq<string>, absolute: bool) {
    && |cs| <= CAP
    && (forall i :: 0 <= i < |cs| ==> IsName(cs[i]) || (cs[i] == ".." && !absolute))
    && (forall i, j :: 0 <= i < j < |cs| && cs[j] == ".." ==> cs[i] == "..")
  }

  lemma {:induction false} ComponentsAreComponents(s: string)
    ensures forall c <- Components(s) :: IsComponent(c)
    decreases |s|
  {
    if s != "" {
      if s[0] == '/' {
        ComponentsAreComponents(s[1..]);
      } else {
        ComponentsAreComponents(s[PieceEnd(s)..]);
      }
    }
  }

  lemma PushIsNormal(held: seq<string>, c: string, absolute: bool)
    requires Normal(held, absolute) && IsComponent(c)
    ensures Normal(Push(held, c, absolute), absolute)
  {
  }

  lemma {:induction false} PushAllIsNormal(held: seq<string>, cs: seq<string>, absolute: bool)
    requires Normal(held, absolute) && forall c <- cs :: IsComponent(c)
    ensures Normal(PushAll(held, cs, absolute), absolute)
    decreases |cs|
  {
    if cs != [] {
      assert IsComponent(cs[0]);
      PushIsNormal(held, cs[0], absolute);
      PushAllIsNormal(Push(held, cs[0], absolute), cs[1..], absolute);
    }
  }

  /** No component of a normalised path is empty or ".", and ".." stands only at the front of a relative
      one. */
  lemma HeldIsNormal(path: string)
    ensures Normal(Held(path), IsAbsolute(path))
  {
    ComponentsAreComponents(path);
    PushAllIsNormal([], Components(path), IsAbsolute(path));
  }

  lemma {:induction false} PushAllAppends(held: seq<string>, a: seq<string>, b: seq<string>, absolute: bool)
    ensures PushAll(held, a + b, absolute) == PushAll(PushAll(held, a, absolute), b, absolute)
    decreases |a|
  {
    if a == [] {
      assert a + b == b;
    } else {
      assert (a + b)[0] == a[0] && (a + b)[1..] == a[1..] + b;
      PushAllAppends(Push(held, a[0], absolute), a[1..], b, absolute);
    }
  }

  /** Normal components are held as they come. */
  lemma {:induction false} NormalIsKept(held: seq<string>, cs: seq<string>, absolute: bool)
    requires Normal(held + cs, absolute)
    ensures PushAll(held, cs, absolute) == held + cs
    decreases |cs|
  {
    if cs == [] {
      assert held + cs == held;
    } else {
      assert (held + cs)[|held|] == cs[0];
      assert held != [] ==> (held + cs)[|held| - 1] == held[|held| - 1];
      assert Push(held, cs[0], absolute) == held + [cs[0]];
      assert held + [cs[0]] + cs[1..] == held + cs;
      NormalIsKept(held + [cs[0]], cs[1..], absolute);
    }
  }

  // ---- Splitting and joining ----

  lemma {:induction false} ComponentsJoin(a: string, b: string)
    ensures Components(a + "/" + b) == Components(a) + Components(b)
    decreases |a|
  {
    var all := a + "/" + b;
    if a == "" {
      assert all[1..] == b;
    } else if a[0] == '/' {
      assert all[1..] == a[1..] + "/" + b;
      ComponentsJoin(a[1..], b);
    } else {
      var e := PieceEnd(a);
      PieceEndIs(all, e);
      assert all[..e] == a[..e] && all[e..] == a[e..] + "/" + b;
      ComponentsJoin(a[e..], b);
    }
  }

  lemma {:induction false} PieceEndIs(s: string, e: nat)
    requires e <= |s| && '/' !in s[..e] && (e == |s| || s[e] == '/')
    ensures PieceEnd(s) == e
  {
    if e > 0 {
      assert s[0] == s[..e][0];
      assert s[1..][..e - 1] == s[..e][1..];
      PieceEndIs(s[1..], e - 1);
    }
  }

  lemma NoComponents()
    ensures Components("") == []
  {
  }

  lemma OneComponent(c: string)
    requires IsComponent(c)
    ensures Components(c) == [c]
  {
    assert c[..|c|] == c;
    PieceEndIs(c, |c|);
  }

  lemma {:induction false} ComponentsOfJoin(cs: seq<string>)
    requires forall c <- cs :: IsComponent(c)
    ensures Components(Join(cs)) == cs
    ensures cs != [] ==> Join(cs) != "" && Join(cs)[0] != '/'
  {
    hide Components, PieceEnd;
    if cs == [] {
      NoComponents();
    } else {
      assert IsComponent(cs[|cs| - 1]);
      var last := cs[|cs| - 1];
      OneComponent(last);
      if |cs| > 1 {
        var front := cs[..|cs| - 1];
        ComponentsOfJoin(front);
        ComponentsJoin(Join(front), last);
        assert cs == front + [last];
      } else {
        assert cs == [last];
      }
    }
  }

  /** A normalised path splits into what it was rendered from, up to the "." that stands for nothing. */
  lemma ComponentsOfRender(absolute: bool, cs: seq<string>)
    requires forall c <- cs :: IsComponent(c)
    ensures IsAbsolute(Render(absolute, cs)) == absolute
    ensures Components(Render(absolute, cs)) == if !absolute && cs == [] then ["."] else cs
  {
    ComponentsOfJoin(cs);
    if absolute {
      assert Render(absolute, cs)[1..] == Join(cs);
    } else if cs == [] {
      OneComponent(".");
    }
  }

  lemma NormHolds(path: string, more: seq<string>)
    ensures IsAbsolute(Norm(path)) == IsAbsolute(path)
    ensures PushAll([], Components(Norm(path)) + more, IsAbsolute(path)) == PushAll(Held(path), more, IsAbsolute(path))
  {
    var absolute, held := IsAbsolute(path), Held(path);
    HeldIsNormal(path);
    ComponentsOfRender(absolute, held);
    PushAllAppends([], Components(Norm(path)), more, absolute);
    assert [] + held == held;
    NormalIsKept([], held, absolute);
  }

  /** norm(norm(p)) = norm(p), however many components were dropped. */
  lemma Idempotent(path: string)
    ensures Norm(Norm(path)) == Norm(path)
  {
    NormHolds(path, []);
    assert Components(Norm(path)) + [] == Components(Norm(path));
  }

  /** norm(a/b) = norm(norm(a)/b). */
  lemma NormOfJoin(a: string, b: string)
    requires a != ""
    ensures Norm(a + "/" + b) == Norm(Norm(a) + "/" + b)
  {
    ComponentsJoin(a, b);
    ComponentsJoin(Norm(a), b);
    NormHolds(a, Components(b));
    PushAllAppends([], Components(a), Components(b), IsAbsolute(a));
    assert IsAbsolute(a + "/" + b) == IsAbsolute(a);
    assert Norm(a) != "";
    assert IsAbsolute(Norm(a) + "/" + b) == IsAbsolute(Norm(a));
  }

  // ---- The directory a path names ----

  /** Walking from directory at, given as its list of names from the root: ".." goes to the parent, and
      stays in the root. */
  function Walk(at: seq<string>, cs: seq<string>): seq<string> {
    if cs == [] then at
    else
      var here := Walk(at, cs[..|cs| - 1]);
      var c := cs[|cs| - 1];
      if c == "." then here
      else if c == ".." then (if here == [] then [] else here[..|here| - 1])
      else here + [c]
  }

  function Where(cwd: seq<string>, path: string): seq<string> {
    Walk(if IsAbsolute(path) then [] else cwd, Components(path))
  }

  /** Pushing cs drops a component because CAP are held. */
  predicate Overflows(held: seq<string>, cs: seq<string>, absolute: bool)
    decreases |cs|
  {
    cs != [] && (PushDrops(held, cs[0], absolute) || Overflows(Push(held, cs[0], absolute), cs[1..], absolute))
  }

  predicate PushDrops(held: seq<string>, c: string, absolute: bool) {
    && |held| >= CAP
    && c != "."
    && (c == ".." ==> !absolute && held[|held| - 1] == "..")
  }

  lemma PushWalks(base: seq<string>, held: seq<string>, c: string, absolute: bool)
    requires Normal(held, absolute) && IsComponent(c) && (absolute ==> base == [])
    ensures !PushDrops(held, c, absolute) ==> Walk(base, Push(held, c, absolute)) == Walk(base, held + [c])
    ensures PushDrops(held, c, absolute) ==> Push(held, c, absolute) == held
  {
    assert (held + [c])[..|held|] == held;
    if c == ".." && held != [] && held[|held| - 1] != ".." {
      var front := held[..|held| - 1];
      assert Walk(base, held) == Walk(base, front) + [held[|held| - 1]];
    }
  }

  lemma {:induction false} WalkAppends(base: seq<string>, a: seq<string>, b: seq<string>)
    ensures Walk(base, a + b) == Walk(Walk(base, a), b)
    decreases |b|
  {
    if b == [] {
      assert a + b == a;
    } else {
      assert (a + b)[..|a + b| - 1] == a + b[..|b| - 1];
      WalkAppends(base, a, b[..|b| - 1]);
    }
  }

  lemma {:induction false} PushAllWalks(base: seq<string>, held: seq<string>, cs: seq<string>, absolute: bool)
    requires Normal(held, absolute) && (forall c <- cs :: IsComponent(c)) && (absolute ==> base == [])
    requires !Overflows(held, cs, absolute)
    ensures Walk(base, PushAll(held, cs, absolute)) == Walk(base, held + cs)
    decreases |cs|
  {
    hide Normal, Walk, Push, PushDrops, IsComponent;
    if cs == [] {
      assert held + cs == held;
    } else {
      assert IsComponent(cs[0]);
      var pushed := Push(held, cs[0], absolute);
      PushIsNormal(held, cs[0], absolute);
      PushWalks(base, held, cs[0], absolute);
      PushAllWalks(base, pushed, cs[1..], absolute);
      WalkAppends(base, pushed, cs[1..]);
      WalkAppends(base, held + [cs[0]], cs[1..]);
      assert held + [cs[0]] + cs[1..] == held + cs;
    }
  }

  predicate Fits(path: string) {
    !Overflows([], Components(path), IsAbsolute(path))
  }

  /** A path that never holds more than CAP components names the same directory after normalisation,
      whatever the current directory. */
  lemma NormKeepsMeaning(path: string, cwd: seq<string>)
    requires Fits(path)
    ensures Where(cwd, Norm(path)) == Where(cwd, path)
  {
    var absolute := IsAbsolute(path);
    var base := if absolute then [] else cwd;
    ComponentsAreComponents(path);
    PushAllWalks(base, [], Components(path), absolute);
    assert [] + Components(path) == Components(path);
    HeldIsNormal(path);
    ComponentsOfRender(absolute, Held(path));
    if !absolute && Held(path) == [] {
      assert Walk(base, ["."]) == base;
    }
  }

  /** Where the first overflow happens, every component before it having been held or resolved. */
  lemma {:induction false} FirstDrop(held: seq<string>, cs: seq<string>, absolute: bool) returns (k: nat)
    requires Overflows(held, cs, absolute)
    ensures k < |cs| && !Overflows(held, cs[..k], absolute)
    ensures PushDrops(PushAll(held, cs[..k], absolute), cs[k], absolute)
    decreases |cs|
  {
    hide Push, PushDrops;
    if PushDrops(held, cs[0], absolute) {
      k := 0;
    } else {
      var rest := FirstDrop(Push(held, cs[0], absolute), cs[1..], absolute);
      k := rest + 1;
      assert cs[..k][0] == cs[0] && cs[..k][1..] == cs[1..][..rest];
    }
  }

  lemma {:induction false} OverflowsEarly(held: seq<string>, cs: seq<string>, k: nat, absolute: bool)
    requires k <= |cs| && !Overflows(held, cs, absolute)
    ensures !Overflows(held, cs[..k], absolute)
    decreases |cs|
  {
    hide Push, PushDrops;
    if k > 0 {
      OverflowsEarly(Push(held, cs[0], absolute), cs[1..], k - 1, absolute);
      assert cs[..k][0] == cs[0] && cs[..k][1..] == cs[1..][..k - 1];
    }
  }

  lemma {:induction false} WalkFallsOneByOne(base: seq<string>, cs: seq<string>)
    ensures |Walk(base, cs)| + |cs| >= |base|
    decreases |cs|
  {
    if cs != [] {
      WalkFallsOneByOne(base, cs[..|cs| - 1]);
    }
  }

  /** After its first k components, normalisation of the path still names the directory the path does. */
  predicate KeptUpTo(path: string, k: nat, cwd: seq<string>)
    requires k <= |Components(path)|
  {
    var base := if IsAbsolute(path) then [] else cwd;
    var read := Components(path)[..k];
    Walk(base, PushAll([], read, IsAbsolute(path))) == Walk(base, read)
  }

  lemma FitKeepsMeaning(path: string, k: nat, cwd: seq<string>)
    requires Fits(path) && k <= |Components(path)|
    ensures KeptUpTo(path, k, cwd)
  {
    var read := Components(path)[..k];
    OverflowsEarly([], Components(path), k, IsAbsolute(path));
    ComponentsAreComponents(path);
    PushAllWalks(if IsAbsolute(path) then [] else cwd, [], read, IsAbsolute(path));
    assert [] + read == read;
  }

  /** The component that is dropped would have moved on, seen from a deep enough directory. */
  lemma DropMovesOn(base: seq<string>, held: seq<string>, c: string, absolute: bool)
    requires Normal(held, absolute) && PushDrops(held, c, absolute) && (!absolute ==> |base| > CAP)
    ensures Push(held, c, absolute) == held && Walk(base, held + [c]) != Walk(base, held)
  {
    assert (held + [c])[..|held|] == held;
    WalkFallsOneByOne(base, held);
  }

  lemma DropLosesMeaning(path: string) returns (k: nat, cwd: seq<string>)
    requires !Fits(path)
    ensures k <= |Components(path)| && !KeptUpTo(path, k, cwd)
  {
    hide Push, PushDrops, Walk, Normal, IsComponent, Components, Overflows, PushAll;
    var absolute, cs := IsAbsolute(path), Components(path);
    k := FirstDrop([], cs, absolute);
    var read, c := cs[..k], cs[k];
    cwd := seq(CAP + 1, i => "d");
    var base := if absolute then [] else cwd;
    ComponentsAreComponents(path);
    NothingIsNormal(absolute);
    PushAllWalks(base, [], read, absolute);
    assert [] + read == read;
    PushAllIsNormal([], read, absolute);
    var held := PushAll([], read, absolute);
    DropMovesOn(base, held, c, absolute);
    PushAllAppends([], read, [c], absolute);
    PushOne(held, c, absolute);
    WalkAppends(base, read, [c]);
    WalkAppends(base, held, [c]);
    assert cs[..k + 1] == read + [c];
    k := k + 1;
  }

  lemma NothingIsNormal(absolute: bool)
    ensures Normal([], absolute)
  {
  }

  lemma PushOne(held: seq<string>, c: string, absolute: bool)
    ensures PushAll(held, [c], absolute) == Push(held, c, absolute)
  {
  }

  /** The capacity is the only thing that can cost a path its meaning: normalisation agrees with the path
      after every component exactly when it never holds more than CAP. */
  lemma MeaningKeptIffFits(path: string)
    ensures Fits(path) <==> forall k: nat, cwd :: k <= |Components(path)| ==> KeptUpTo(path, k, cwd)
  {
    if Fits(path) {
      forall k: nat, cwd | k <= |Components(path)| ensures KeptUpTo(path, k, cwd) {
        FitKeepsMeaning(path, k, cwd);
      }
    } else {
      var k, cwd := DropLosesMeaning(path);
    }
  }

  /** Up to CAP components always fit. */
  lemma {:induction false} FewComponentsFit(held: seq<string>, cs: seq<string>, absolute: bool)
    requires |held| + |cs| <= CAP
    ensures !Overflows(held, cs, absolute)
    decreases |cs|
  {
    if cs != [] {
      FewComponentsFit(Push(held, cs[0], absolute), cs[1..], absolute);
    }
  }

  /** Names alone are all held as long as there is room, so more than CAP of them never fit. */
  lemma {:induction false} NamesFitIff(held: seq<string>, cs: seq<string>, absolute: bool)
    requires |held| <= CAP && forall c <- cs :: IsName(c)
    ensures Overflows(held, cs, absolute) <==> |held| + |cs| > CAP
    decreases |cs|
  {
    if cs != [] {
      assert IsName(cs[0]);
      if |held| < CAP {
        NamesFitIff(held + [cs[0]], cs[1..], absolute);
      }
    }
  }

  function Copies(d: string, n: nat): seq<string> {
    seq(n, i => d)
  }

  lemma CopiesAreNames(n: nat)
    ensures forall c <- Copies("d", n) :: IsName(c) && IsComponent(c)
  {
  }

  /** The relative path d/d/.../d of n components. */
  function LongPath(n: nat): string { Join(Copies("d", n)) }

  lemma LongPathComponents(n: nat)
    ensures !IsAbsolute(LongPath(n)) && Components(LongPath(n)) == Copies("d", n)
  {
    hide Components, IsName, Copies;
    CopiesAreNames(n);
    ComponentsOfJoin(Copies("d", n));
  }

  /** It fits exactly up to n = CAP; beyond, its normal form stops CAP directories down. */
  lemma LongPathStops(n: nat)
    ensures Fits(LongPath(n)) <==> n <= CAP
    ensures Where([], LongPath(n)) == Copies("d", n)
    ensures n > CAP ==> Where([], Norm(LongPath(n))) == Copies("d", CAP)
  {
    hide Components, PieceEnd, Where, Norm, Overflows, LongPath, IsName, Walk, Push;
    var path, cs := LongPath(n), Copies("d", n);
    LongPathComponents(n);
    CopiesAreNames(n);
    NamesFitIff([], cs, false);
    NamesWalk([], cs);
    RelativeWhere([], path);
    if n > CAP {
      CopiesAreNames(CAP);
      CopiesAreNames(1);
      assert Copies("d", 1)[0] == "d";
      NamesHeld("d", 0, n);
      assert Copies("d", 0) == [];
      RenderedWhere(path, Copies("d", CAP));
      NamesWalk([], Copies("d", CAP));
    }
  }

  lemma {:induction false} NamesWalk(at: seq<string>, cs: seq<string>)
    requires forall c <- cs :: IsName(c)
    ensures Walk(at, cs) == at + cs
    decreases |cs|
  {
    if cs != [] {
      var front, last := cs[..|cs| - 1], cs[|cs| - 1];
      assert IsName(last) && cs == front + [last];
      NamesWalk(at, front);
    }
  }

  lemma RelativeWhere(cwd: seq<string>, path: string)
    requires !IsAbsolute(path)
    ensures Where(cwd, path) == Walk(cwd, Components(path))
  {
  }

  /** Pushing copies of a name stops at CAP. */
  lemma {:induction false} NamesHeld(d: string, k: nat, n: nat)
    requires IsName(d) && k <= CAP && k <= n
    ensures PushAll(Copies(d, k), Copies(d, n - k), false) == Copies(d, if n < CAP then n else CAP)
    decreases n - k, CAP - k
  {
    hide IsComponent;
    if k == n {
    } else if k < CAP {
      assert Copies(d, n - k)[1..] == Copies(d, n - (k + 1));
      assert Copies(d, k) + [d] == Copies(d, k + 1);
      NamesHeld(d, k + 1, n);
    } else {
      FullStays(Copies(d, k), Copies(d, n - k));
    }
  }

  lemma {:induction false} FullStays(held: seq<string>, cs: seq<string>)
    requires |held| == CAP && forall c <- cs :: IsName(c)
    ensures PushAll(held, cs, false) == held
    decreases |cs|
  {
    if cs != [] {
      assert IsName(cs[0]);
      FullStays(held, cs[1..]);
    }
  }

  lemma RenderedWhere(path: string, held: seq<string>)
    requires !IsAbsolute(path) && Held(path) == held && held != []
    ensures Where([], Norm(path)) == Walk([], held)
  {
    HeldIsNormal(path);
    ComponentsOfRender(false, held);
  }

  // ---- The normal form is canonical ----

  /** How many parent steps lead. */
  function Ups(cs: seq<string>): (k: nat)
    ensures k <= |cs| && (forall i :: 0 <= i < k ==> cs[i] == "..") && (k < |cs| ==> cs[k] != "..")
  {
    if cs == [] || cs[0] != ".." then 0 else 1 + Ups(cs[1..])
  }

  lemma {:induction false} NormalWalk(cwd: seq<string>, cs: seq<string>, k: nat)
    requires k <= |cs| && k <= |cwd|
    requires (forall i :: 0 <= i < k ==> cs[i] == "..") && forall i :: k <= i < |cs| ==> IsName(cs[i])
    ensures Walk(cwd, cs) == cwd[..|cwd| - k] + cs[k..]
    decreases |cs|
  {
    if cs == [] {
      assert cwd[..|cwd|] + cs[0..] == cwd;
    } else {
      var front := cs[..|cs| - 1];
      if k == |cs| {
        NormalWalk(cwd, front, k - 1);
      } else {
        NormalWalk(cwd, front, k);
        assert cs[k..] == front[k..] + [cs[|cs| - 1]];
      }
    }
  }

  lemma ParentIsNoName()
    ensures !IsName("..")
  {
  }

  lemma NamesAfterUps(cs: seq<string>, absolute: bool)
    requires Normal(cs, absolute)
    ensures forall i :: Ups(cs) <= i < |cs| ==> IsName(cs[i])
    ensures absolute ==> Ups(cs) == 0
  {
    hide IsName;
    ParentIsNoName();
  }

  /** Seen from n directories called d, a form with fewer parent steps keeps a d in front. */
  lemma UpsShow(d: string, cs: seq<string>, n: nat)
    requires Normal(cs, false) && Ups(cs) <= n
    ensures Walk(Copies(d, n), cs) == Copies(d, n - Ups(cs)) + cs[Ups(cs)..]
  {
    hide Walk, IsName, Normal;
    NamesAfterUps(cs, false);
    NormalWalk(Copies(d, n), cs, Ups(cs));
    assert Copies(d, n)[..n - Ups(cs)] == Copies(d, n - Ups(cs));
  }

  lemma StillDeep(d: string, cs: seq<string>, n: nat)
    requires Normal(cs, false)
    ensures Ups(cs) < n ==> Walk(Copies(d, n), cs) != [] && Walk(Copies(d, n), cs)[0] == d
  {
    hide Walk, IsName, Normal;
    if Ups(cs) < n {
      UpsShow(d, cs, n);
    }
  }

  lemma UpsBounded(cs: seq<string>, ds: seq<string>)
    requires Normal(cs, false) && Normal(ds, false)
    requires forall base :: Walk(base, cs) == Walk(base, ds)
    ensures Ups(ds) <= Ups(cs)
  {
    hide Walk, IsName, Normal;
    var n := Ups(ds);
    UpsShow("a", ds, n);
    UpsShow("b", ds, n);
    assert Walk(Copies("a", n), cs) == ds[n..] == Walk(Copies("b", n), cs);
    StillDeep("a", cs, n);
    StillDeep("b", cs, n);
  }

  lemma SameFromUps(cs: seq<string>, ds: seq<string>, n: nat)
    requires n <= |cs| && n <= |ds| && cs[n..] == ds[n..]
    requires forall i :: 0 <= i < n ==> cs[i] == ds[i]
    ensures cs == ds
  {
    assert cs == cs[..n] + cs[n..] && ds == ds[..n] + ds[n..];
  }

  lemma RelativeIsCanonical(cs: seq<string>, ds: seq<string>)
    requires Normal(cs, false) && Normal(ds, false)
    requires forall base :: Walk(base, cs) == Walk(base, ds)
    ensures cs == ds
  {
    hide Walk, IsName, Normal, Ups;
    UpsBounded(cs, ds);
    UpsBounded(ds, cs);
    var n := Ups(cs);
    UpsShow("a", cs, n);
    UpsShow("a", ds, n);
    var seen := Walk(Copies("a", n), cs);
    assert seen == cs[n..] && seen == ds[n..];
    SameFromUps(cs, ds, n);
  }

  lemma AbsoluteWalk(cs: seq<string>)
    requires Normal(cs, true)
    ensures Walk([], cs) == cs
  {
    hide Walk, IsName, Normal;
    NamesAfterUps(cs, true);
    NormalWalk([], cs, 0);
  }

  /** Two paths that fit normalise to the same text exactly when both or neither is absolute and they name
      the same directory from everywhere. */
  lemma NormDecidesMeaning(p: string, q: string)
    requires Fits(p) && Fits(q)
    ensures Norm(p) == Norm(q) <==>
              IsAbsolute(p) == IsAbsolute(q) && forall cwd :: Where(cwd, p) == Where(cwd, q)
  {
    HeldIsNormal(p);
    HeldIsNormal(q);
    ComponentsOfRender(IsAbsolute(p), Held(p));
    ComponentsOfRender(IsAbsolute(q), Held(q));
    forall cwd ensures Where(cwd, Norm(p)) == Where(cwd, p) && Where(cwd, Norm(q)) == Where(cwd, q) {
      NormKeepsMeaning(p, cwd);
      NormKeepsMeaning(q, cwd);
    }
    if IsAbsolute(p) == IsAbsolute(q) && forall cwd :: Where(cwd, p) == Where(cwd, q) {
      forall base | IsAbsolute(p) ==> base == [] ensures Walk(base, Held(p)) == Walk(base, Held(q)) {
        HeldWalk(p, base);
        HeldWalk(q, base);
      }
      if IsAbsolute(p) {
        AbsoluteWalk(Held(p));
        AbsoluteWalk(Held(q));
      } else {
        RelativeIsCanonical(Held(p), Held(q));
      }
    }
  }

  lemma HeldWalk(path: string, cwd: seq<string>)
    requires Fits(path) && (IsAbsolute(path) ==> cwd == [])
    ensures Walk(cwd, Held(path)) == Where(cwd, path)
  {
    ComponentsAreComponents(path);
    PushAllWalks(cwd, [], Components(path), IsAbsolute(path));
    assert [] + Components(path) == Components(path);
  }

  // ---- The sandbox test ----

  /** path_is_under_root, as a relation on texts. */
  predicate IsUnderRoot(path: string, root: string) {
    var r := Trimmed(root);
    r <= path && (|path| == |r| || path[|r|] == '/')
  }

  /** The root without its trailing slashes, but with its first character. */
  function Trimmed(root: string): string {
    if |root| > 1 && root[|root| - 1] == '/' then Trimmed(root[..|root| - 1]) else root
  }

  lemma {:induction false} JoinOfTwo(a: seq<string>, b: seq<string>)
    requires a != [] && b != []
    ensures Join(a + b) == Join(a) + "/" + Join(b)
    decreases |b|
  {
    var front := b[..|b| - 1];
    assert (a + b)[..|a + b| - 1] == a + front;
    if front == [] {
      assert a + front == a;
    } else {
      JoinOfTwo(a, front);
      assert (Join(a) + "/" + Join(front)) + "/" + b[|b| - 1] == Join(a) + "/" + (Join(front) + "/" + b[|b| - 1]);
    }
  }

  lemma {:induction false} JoinEndsInName(cs: seq<string>)
    requires cs != [] && forall c <- cs :: IsComponent(c)
    ensures Join(cs) != "" && Join(cs)[|Join(cs)| - 1] != '/'
  {
    assert IsComponent(cs[|cs| - 1]);
  }

  lemma TrimmedNorm(r: string)
    requires IsAbsolute(r)
    ensures Trimmed(Norm(r)) == Norm(r) && (Norm(r) == "/" <==> Held(r) == [])
  {
    hide Held, Components, PieceEnd;
    HeldIsNormal(r);
    ComponentsOfJoin(Held(r));
    if Held(r) != [] {
      JoinEndsInName(Held(r));
    }
  }

  lemma PrefixIsUnder(p: string, r: string)
    requires IsAbsolute(p) && IsAbsolute(r) && Held(r) != [] && Held(r) <= Held(p)
    ensures IsUnderRoot(Norm(p), Norm(r))
  {
    hide Held, Components, PieceEnd, Trimmed;
    TrimmedNorm(r);
    if Held(r) != Held(p) {
      var rest := Held(p)[|Held(r)|..];
      assert Held(p) == Held(r) + rest;
      JoinOfTwo(Held(r), rest);
      assert Norm(p) == Norm(r) + "/" + Join(rest);
    }
  }

  lemma UnderIsPrefix(p: string, r: string)
    requires IsAbsolute(p) && IsAbsolute(r) && IsUnderRoot(Norm(p), Norm(r))
    ensures Held(r) <= Held(p)
  {
    hide Held, Norm, Components, PieceEnd, Trimmed;
    TrimmedNorm(r);
    NormComponents(p);
    NormComponents(r);
    if Norm(p) != Norm(r) {
      var x := Norm(p)[|Norm(r)| + 1..];
      assert Norm(p) == Norm(r) + "/" + x;
      ComponentsJoin(Norm(r), x);
    }
  }

  lemma NormComponents(path: string)
    requires IsAbsolute(path)
    ensures Components(Norm(path)) == Held(path)
  {
    HeldIsNormal(path);
    ComponentsOfRender(true, Held(path));
  }

  lemma OnlySlashUnderSlash(p: string)
    requires IsAbsolute(p) && IsUnderRoot(Norm(p), "/")
    ensures Held(p) == []
  {
    hide Held, Components, PieceEnd;
    HeldIsNormal(p);
    ComponentsOfJoin(Held(p));
  }

  lemma SlashUnderSlash()
    ensures IsUnderRoot("/", "/")
  {
  }

  /** On normalised absolute texts the test is component-list prefix, except that under the root directory
      it finds only the root directory itself. */
  lemma UnderRootIsPrefix(p: string, r: string)
    requires IsAbsolute(p) && IsAbsolute(r)
    ensures IsUnderRoot(Norm(p), Norm(r)) <==> Held(r) <= Held(p) && (Held(r) == [] ==> Held(p) == [])
  {
    hide Held, Norm, IsUnderRoot;
    TrimmedNorm(p);
    TrimmedNorm(r);
    SlashUnderSlash();
    if IsUnderRoot(Norm(p), Norm(r)) {
      UnderIsPrefix(p, r);
      if Held(r) == [] {
        OnlySlashUnderSlash(p);
      }
    } else if Held(r) != [] && Held(r) <= Held(p) {
      PrefixIsUnder(p, r);
      assert false;
    }
  }

  /** Absolute paths that fit: the test says that p is the directory r names or lies below it, unless r is
      the root directory. */
  lemma SandboxHolds(p: string, r: string)
    requires IsAbsolute(p) && IsAbsolute(r) && Fits(p) && Fits(r)
    ensures IsUnderRoot(Norm(p), Norm(r)) <==>
              Where([], r) <= Where([], p) && (Where([], r) == [] ==> Where([], p) == [])
  {
    hide Where, Walk, IsUnderRoot, Norm, Held;
    UnderRootIsPrefix(p, r);
    AbsoluteHeld(p);
    AbsoluteHeld(r);
  }

  lemma AbsoluteHeld(path: string)
    requires IsAbsolute(path) && Fits(path)
    ensures Where([], path) == Held(path)
  {
    hide Walk, Where, Held;
    HeldWalk(path, []);
    HeldIsNormal(path);
    AbsoluteWalk(Held(path));
  }

  /** The exception: nothing but "/" is found under "/". */
  lemma NothingUnderSlash()
    ensures !IsUnderRoot(Norm("/a"), Norm("/")) && Where([], "/") <= Where([], "/a")
  {
    OneComponent("a");
    assert "/a"[1..] == "a" && "/"[1..] == "";
    assert Components("/") == [];
    assert Held("/a") == ["a"];
    UnderRootIsPrefix("/a", "/");
  }

  // ---- Paths without traversal ----

  /** Position p starts a component that is "..", up to a slash of either kind. */
  predicate TraversalAt(path: string, p: nat) {
    && (p == 0 || (p <= |path| && path[p - 1] == '/'))
    && p + 1 < |path| && path[p] == '.' && path[p + 1] == '.'
    && (p + 2 == |path| || path[p + 2] == '/' || path[p + 2] == '\\')
  }

  /** A component the check refuses: "..", or ".." in front of a backslash. */
  predicate IsTraversal(c: string) {
    |c| >= 2 && c[0] == '.' && c[1] == '.' && (|c| == 2 || c[2] == '\\')
  }

  lemma TraversalSkips(s: string, k: nat, p: nat)
    requires 0 < k <= |s| && s[k - 1] == '/'
    ensures TraversalAt(s[k..], p) <==> TraversalAt(s, k + p)
  {
  }

  /** Inside the first component and at its end nothing else starts. */
  lemma TraversalFirst(s: string, p: nat)
    requires s != "" && s[0] != '/' && p <= PieceEnd(s)
    ensures TraversalAt(s, p) <==> p == 0 && IsTraversal(s[..PieceEnd(s)])
  {
    var e := PieceEnd(s);
    hide PieceEnd;
    if 0 < p {
      assert s[p - 1] == s[..e][p - 1];
    } else {
      assert forall k :: 0 <= k < e ==> s[k] == s[..e][k];
    }
  }

  /** The check finds exactly the paths with such a component. */
  lemma {:induction false} TraversalIsComponent(s: string)
    ensures (exists p: nat :: TraversalAt(s, p)) <==> exists c <- Components(s) :: IsTraversal(c)
    decreases |s|
  {
    if s != "" {
      if s[0] == '/' {
        TraversalIsComponent(s[1..]);
        forall p: nat ensures TraversalAt(s[1..], p) <==> TraversalAt(s, p + 1) {
          TraversalSkips(s, 1, p);
        }
        assert forall p: nat :: TraversalAt(s, p) ==> p > 0 && TraversalAt(s[1..], p - 1);
      } else {
        TraversalOfPiece(s);
      }
    }
  }

  lemma {:induction false} TraversalOfPiece(s: string)
    requires s != "" && s[0] != '/'
    ensures (exists p: nat :: TraversalAt(s, p)) <==> exists c <- Components(s) :: IsTraversal(c)
    decreases |s|, 0
  {
    var e := PieceEnd(s);
    var c, left := s[..e], s[e..];
    assert Components(s) == [c] + Components(left);
    TraversalFirst(s, 0);
    hide PieceEnd, TraversalAt, IsTraversal;
    if left == "" {
      forall p: nat ensures TraversalAt(s, p) ==> p == 0 {
        if p <= e {
          TraversalFirst(s, p);
        }
      }
    } else {
      var behind := s[e + 1..];
      assert left[1..] == behind && s[e] == '/';
      assert Components(left) == Components(behind);
      TraversalIsComponent(behind);
      forall p: nat ensures TraversalAt(behind, p) <==> TraversalAt(s, e + 1 + p) {
        TraversalSkips(s, e + 1, p);
      }
      forall p: nat
        ensures TraversalAt(s, p) ==> (p == 0 && IsTraversal(c)) || (p > e && TraversalAt(behind, p - e - 1))
      {
        if p <= e {
          TraversalFirst(s, p);
        }
      }
    }
  }

  lemma {:induction false} PushAllExtends(held: seq<string>, cs: seq<string>, absolute: bool)
    requires ".." !in cs
    ensures held <= PushAll(held, cs, absolute)
    decreases |cs|
  {
    if cs != [] {
      assert cs[0] in cs;
      PushAllExtends(Push(held, cs[0], absolute), cs[1..], absolute);
    }
  }

  /** What jz_path_validate normalises for a relative path. */
  function FullPath(base: string, raw: string): string {
    if base != "" && base[|base| - 1] == '/' then base + raw else base + "/" + raw
  }

  lemma FullPathComponents(base: string, raw: string)
    requires base != ""
    ensures Components(FullPath(base, raw)) == Components(base) + Components(raw)
    ensures IsAbsolute(FullPath(base, raw)) == IsAbsolute(base)
  {
    hide PieceEnd, Components;
    NoComponents();
    if base[|base| - 1] == '/' {
      var front := base[..|base| - 1];
      assert base == front + "/" + "" && base + raw == front + "/" + raw;
      ComponentsJoin(front, "");
      ComponentsJoin(front, raw);
    } else {
      ComponentsJoin(base, raw);
    }
  }

  /** A path that passes the traversal check stays at or under the directory it is joined to, however long
      it is. */
  lemma NoTraversalStaysUnder(base: string, raw: string)
    requires IsAbsolute(base) && Held(base) != [] && forall p: nat :: !TraversalAt(raw, p)
    ensures IsUnderRoot(Norm(FullPath(base, raw)), Norm(base))
  {
    hide IsUnderRoot, Norm, PieceEnd, Components, TraversalAt;
    TraversalIsComponent(raw);
    assert ".." !in Components(raw) by {
      assert IsTraversal("..");
    }
    FullPathComponents(base, raw);
    PushAllAppends([], Components(base), Components(raw), true);
    PushAllExtends(Held(base), Components(raw), true);
    UnderRootIsPrefix(FullPath(base, raw), base);
  }

  // ---- The result is no longer ----

  /** The text of the components with a separator each. */
  function Span(cs: seq<string>): nat {
    if cs == [] then 0 else Span(cs[..|cs| - 1]) + |cs[|cs| - 1]| + 1
  }

  lemma {:induction false} SpanOfJoin(cs: seq<string>)
    ensures |Join(cs)| == if cs == [] then 0 else Span(cs) - 1
  {
    if |cs| > 1 {
      SpanOfJoin(cs[..|cs| - 1]);
    }
  }

  lemma {:induction false} SpanOfComponents(s: string, held: seq<string>, absolute: bool)
    ensures Span(PushAll(held, Components(s), absolute)) <= Span(held) + |s| + 1
    decreases |s|
  {
    if s != "" {
      if s[0] == '/' {
        SpanOfComponents(s[1..], held, absolute);
      } else {
        var e := PieceEnd(s);
        var c, left := s[..e], s[e..];
        var next := Push(held, c, absolute);
        SpanOfPush(held, c, absolute);
        assert Components(s)[1..] == Components(left);
        if left != "" {
          assert Components(left) == Components(left[1..]);
          SpanOfComponents(left[1..], next, absolute);
        }
      }
    }
  }

  lemma SpanOfPush(held: seq<string>, c: string, absolute: bool)
    ensures Span(Push(held, c, absolute)) <= Span(held) + |c| + 1
  {
    assert (held + [c])[..|held|] == held;
  }

  /** A normalised path is no longer than the path. */
  lemma NormFits(path: string)
    requires path != ""
    ensures 0 < |Norm(path)| <= |path|
  {
    hide PieceEnd, Push, PushAll, Join;
    SpanOfJoin(Held(path));
    if IsAbsolute(path) {
      assert Components(path) == Components(path[1..]);
      SpanOfComponents(path[1..], [], true);
    } else {
      SpanOfComponents(path, [], false);
    }
  }
}

/**
 * Which files of a client bundle are reachable from its index.html
 * (server/lib/client-bundle.ts).
 *
 * A tree maps every file under `assets/` to the names its text cites. A binary
 * or unreadable file cites nothing, as in the source, which does not scan it.
 */
module ClientBundle {
  import opened Options

  type Name = string
  type Tree = map<Name, set<Name>>

  /** The part of a relative path after its last slash. */
  function Base(n: Name): Name {
    if n == "" then ""
    else if n[|n| - 1] == '/' then ""
    else Base(n[..|n| - 1]) + [n[|n| - 1]]
  }

  /** `x.js` for `x.js.br` or `x.js.gz`. */
  function PrecompressedOrigin(n: Name): Option<Name> {
    if |n| >= 3 && (n[|n| - 3..] == ".br" || n[|n| - 3..] == ".gz") then Some(n[..|n| - 3]) else None
  }

  /** A root as index.html writes it, without a leading `/assets/` or `assets/`. */
  function StripAssets(root: Name): Name {
    if "/assets/" <= root then root[8..]
    else if "assets/" <= root then root[7..]
    else root
  }

  /** The files a cited name stands for: itself, or else every file with that basename. */
  function Resolve(files: set<Name>, n: Name): set<Name> {
    if n in files then {n} else set f | f in files && Base(f) == n
  }

  /** Every file that the text of `f` leads to. */
  function CitedBy(t: Tree, f: Name): set<Name>
    requires f in t
  {
    set n, r | n in t[f] && r in Resolve(t.Keys, n) :: r
  }

  function Entries(t: Tree, roots: set<Name>): set<Name> {
    set n, r | n in roots && r in Resolve(t.Keys, StripAssets(n)) :: r
  }

  /** `s` holds the roots and whatever a file of `s` leads to. */
  ghost predicate Covers(t: Tree, roots: set<Name>, s: set<Name>) {
    && Entries(t, roots) <= s
    && forall f :: f in s && f in t ==> CitedBy(t, f) <= s
  }

  /** The least set that covers the roots: what some chain of citations leads to. */
  ghost function Reachable(t: Tree, roots: set<Name>): set<Name> {
    set f | f in t.Keys && forall s: set<Name> :: Covers(t, roots, s) ==> f in s
  }

  /** A precompressed sibling shares the fate of the file it encodes. */
  ghost function Alive(t: Tree, roots: set<Name>): set<Name> {
    var reachable := Reachable(t, roots);
    set f | f in t.Keys && (f in reachable ||
                            (PrecompressedOrigin(f).Some? && PrecompressedOrigin(f).value in reachable))
  }

  /** The worklist of `unreachableAssets`: it removes exactly what no chain reaches. */
  method UnreachableAssets(t: Tree, roots: set<Name>) returns (dead: set<Name>)
    ensures dead == t.Keys - Alive(t, roots)
  {
    var reachable := Entries(t, roots);
    var queue := reachable;
    while queue != {}
      invariant queue <= reachable <= t.Keys
      invariant Entries(t, roots) <= reachable
      invariant forall f :: f in reachable - queue ==> CitedBy(t, f) <= reachable
      invariant forall s: set<Name> :: Covers(t, roots, s) ==> reachable <= s
      decreases t.Keys - reachable, queue
    {
      var file :| file in queue;
      var newly := CitedBy(t, file) - reachable;
      reachable := reachable + newly;
      queue := (queue - {file}) + newly;
    }
    assert Covers(t, roots, reachable);
    assert reachable == Reachable(t, roots);
    dead := set f | f in t.Keys && f !in reachable &&
                    !(PrecompressedOrigin(f).Some? && PrecompressedOrigin(f).value in reachable);
  }

  /** No two different files share a basename: content-hashed names do not. */
  ghost predicate UniqueBases(files: set<Name>) {
    forall f, g :: f in files && g in files && Base(f) == Base(g) ==> f == g
  }

  lemma {:induction false} BaseIdempotent(n: Name)
    ensures Base(Base(n)) == Base(n)
  {
    if n != "" && n[|n| - 1] != '/' {
      var b := Base(n);
      BaseIdempotent(n[..|n| - 1]);
      assert b[..|b| - 1] == Base(n[..|n| - 1]);
    }
  }

  lemma ReachableCovers(t: Tree, roots: set<Name>)
    ensures Covers(t, roots, Reachable(t, roots))
  {
    var reachable := Reachable(t, roots);
    forall f, g | f in reachable && g in CitedBy(t, f)
      ensures g in reachable
    {
      forall s: set<Name> | Covers(t, roots, s) ensures g in s {
        assert f in s;
      }
    }
  }

  // ----- the walk, without its tables -----------------------------------------------------

  /** The last part of a path: what follows its last slash, all of it when there is none. */
  lemma {:induction false} BaseIsTheLastPart(n: Name) returns (folder: Name)
    ensures n == folder + Base(n) && '/' !in Base(n)
    ensures folder == "" || folder[|folder| - 1] == '/'
  {
    if n == "" || n[|n| - 1] == '/' {
      folder := n;
    } else {
      var init, c := n[..|n| - 1], n[|n| - 1];
      folder := BaseIsTheLastPart(init);
      assert n == init + [c] && Base(n) == Base(init) + [c];
    }
  }

  /** Roots are taken as index.html writes them, with either prefix or none. */
  lemma RootsAsWritten(n: Name)
    ensures StripAssets("/assets/" + n) == n && StripAssets("assets/" + n) == n
    ensures !("/assets/" <= n) && !("assets/" <= n) ==> StripAssets(n) == n
  {
    assert ("/assets/" + n)[8..] == n && ("assets/" + n)[7..] == n;
    assert ("assets/" + n)[0] == 'a';
  }

  /** The name stands for the file: it is its path or, when no file has that path, its last part. */
  predicate StandsFor(t: Tree, n: Name, f: Name) {
    f in t && (n == f || (n !in t && n == Base(f)))
  }

  /** A chain of citations: a root stands for its first file, and each file cites the next by some name. */
  ghost predicate Chain(t: Tree, roots: set<Name>, path: seq<Name>) {
    && path != [] && (forall i :: 0 <= i < |path| ==> path[i] in t)
    && (exists r :: r in roots && StandsFor(t, StripAssets(r), path[0]))
    && forall i :: 0 < i < |path| ==> Cites(t, path[i - 1], path[i])
  }

  ghost predicate Cites(t: Tree, f: Name, g: Name) {
    f in t && exists n :: n in t[f] && StandsFor(t, n, g)
  }

  ghost predicate AtTheEndOfAChain(t: Tree, roots: set<Name>, f: Name) {
    exists path :: Chain(t, roots, path) && path[|path| - 1] == f
  }

  lemma NamesStandForFiles(t: Tree, roots: set<Name>)
    ensures forall f, g :: f in t ==> (g in CitedBy(t, f) <==> Cites(t, f, g))
    ensures forall g :: g in Entries(t, roots) <==> exists r :: r in roots && StandsFor(t, StripAssets(r), g)
  {
    forall n, g ensures g in Resolve(t.Keys, n) <==> StandsFor(t, n, g) {
    }
  }

  lemma OneMoreLink(t: Tree, roots: set<Name>, f: Name, g: Name)
    requires AtTheEndOfAChain(t, roots, f) && g in t && Cites(t, f, g)
    ensures AtTheEndOfAChain(t, roots, g)
  {
    var path :| Chain(t, roots, path) && path[|path| - 1] == f;
    var longer := path + [g];
    assert Chain(t, roots, longer) && longer[|longer| - 1] == g;
  }

  lemma {:induction false} ChainsStayInside(t: Tree, roots: set<Name>, path: seq<Name>, s: set<Name>)
    requires Chain(t, roots, path) && Covers(t, roots, s)
    ensures path[|path| - 1] in s
  {
    var n := |path| - 1;
    NamesStandForFiles(t, roots);
    if n == 0 {
      assert path[0] in Entries(t, roots);
    } else {
      var init := path[..n];
      assert init[0] == path[0] && init[n - 1] == path[n - 1];
      ChainsStayInside(t, roots, init, s);
      assert Cites(t, path[n - 1], path[n]);
      assert path[n] in CitedBy(t, path[n - 1]);
    }
  }

  lemma EndsAreCovering(t: Tree, roots: set<Name>, ends: set<Name>)
    requires forall g :: g in ends <==> g in t && AtTheEndOfAChain(t, roots, g)
    ensures Covers(t, roots, ends)
  {
    NamesStandForFiles(t, roots);
    forall g | g in Entries(t, roots) ensures g in ends {
      assert Chain(t, roots, [g]) && [g][|[g]| - 1] == g;
    }
    forall g, h | g in ends && g in t && h in CitedBy(t, g) ensures h in ends {
      OneMoreLink(t, roots, g, h);
    }
  }

  /** What the walk reaches is what some chain of citations leads to, from a root by path or by last part. */
  lemma ReachableByAChain(t: Tree, roots: set<Name>, f: Name)
    ensures f in Reachable(t, roots) <==> AtTheEndOfAChain(t, roots, f)
  {
    if AtTheEndOfAChain(t, roots, f) {
      var path :| Chain(t, roots, path) && path[|path| - 1] == f;
      ReachableCovers(t, roots);
      ChainsStayInside(t, roots, path, Reachable(t, roots));
    }
    if f in Reachable(t, roots) {
      var ends := set g | g in t.Keys && AtTheEndOfAChain(t, roots, g);
      EndsAreCovering(t, roots, ends);
    }
  }

  /**
   * A precompressed file in either encoding is alive with the file it encodes, and
   * nothing is alive that is not reached or such a sibling of what is.
   */
  lemma SiblingsShareTheFate(t: Tree, roots: set<Name>, n: Name, f: Name)
    ensures n in Reachable(t, roots) && n + ".br" in t ==> n + ".br" in Alive(t, roots)
    ensures n in Reachable(t, roots) && n + ".gz" in t ==> n + ".gz" in Alive(t, roots)
    ensures f in Alive(t, roots) && f !in Reachable(t, roots) ==>
              exists origin :: origin in Reachable(t, roots) && (f == origin + ".br" || f == origin + ".gz")
  {
    assert (n + ".br")[|n|..] == ".br" && (n + ".br")[..|n|] == n;
    assert (n + ".gz")[|n|..] == ".gz" && (n + ".gz")[..|n|] == n;
    if f in Alive(t, roots) && f !in Reachable(t, roots) {
      assert f == f[..|f| - 3] + f[|f| - 3..];
    }
  }

  /** A name resolves in a larger directory at least as it did, when basenames are unique. */
  lemma ResolveSurvives(t: Tree, d: Tree, n: Name, y: Name)
    requires UniqueBases(t.Keys + d.Keys)
    requires y in Resolve(t.Keys, n) && y in d
    ensures y in Resolve(d.Keys, n)
  {
    if n !in t && n in d {
      BaseIdempotent(y);
      assert false;
    }
  }

  /**
   * What is reachable in a bundle's own tree stays reachable in any directory that
   * holds those files with the same text, whatever else the directory contains.
   */
  lemma ReachableSurvives(t: Tree, d: Tree, roots: set<Name>)
    requires UniqueBases(t.Keys + d.Keys)
    requires forall f :: f in Reachable(t, roots) ==> f in d && t[f] <= d[f]
    ensures Reachable(t, roots) <= Reachable(d, roots)
  {
    var reachable := Reachable(t, roots);
    ReachableCovers(t, roots);
    forall f, s: set<Name> | f in reachable && Covers(d, roots, s)
      ensures f in s
    {
      var inside := reachable * s;
      forall y | y in Entries(t, roots) ensures y in inside {
        var n :| n in roots && y in Resolve(t.Keys, StripAssets(n));
        ResolveSurvives(t, d, StripAssets(n), y);
        assert y in Entries(d, roots);
      }
      forall g, y | g in inside && g in t && y in CitedBy(t, g) ensures y in inside {
        var n :| n in t[g] && y in Resolve(t.Keys, n);
        assert y in reachable;
        ResolveSurvives(t, d, n, y);
        assert y in CitedBy(d, g);
      }
      assert Covers(t, roots, inside);
    }
  }

  lemma AliveSurvives(t: Tree, d: Tree, roots: set<Name>)
    requires UniqueBases(t.Keys + d.Keys)
    requires forall f :: f in Reachable(t, roots) ==> f in d && t[f] <= d[f]
    ensures forall f :: f in Alive(t, roots) && f in d ==> f in Alive(d, roots)
  {
    ReachableSurvives(t, d, roots);
  }

  /** Files that cite nothing: only the roots are alive. */
  lemma FlatTree(t: Tree, roots: set<Name>)
    requires roots <= t.Keys && forall n :: n in t ==> t[n] == {} && |n| < 3
    ensures Alive(t, roots) == roots
  {
    forall n | n in roots ensures StripAssets(n) == n {
      assert |n| < 3;
    }
    assert Entries(t, roots) == roots by {
      forall n | n in roots ensures n in Entries(t, roots) {
        assert n in Resolve(t.Keys, StripAssets(n));
      }
    }
    assert Covers(t, roots, roots);
    assert Reachable(t, roots) == roots by {
      forall s: set<Name> | Covers(t, roots, s) ensures roots <= s {
      }
    }
  }

  /** `n` is a file of `d` alone and the basename of files of `t`: it takes what is cited by that name away from them. */
  predicate Hides(t: Tree, d: Tree, n: Name, f: Name) {
    n in d.Keys - t.Keys && f in t.Keys && Base(f) == n
  }

  lemma ReachedByItsBasename(t: Tree, n: Name, f: Name)
    requires n !in t && f in t && Base(f) == n
    ensures f in Reachable(t, {"/assets/" + n})
  {
    var root := "/assets/" + n;
    assert StripAssets(root) == n;
    assert f in Resolve(t.Keys, n);
    assert f in Entries(t, {root});
    ReachableCovers(t, {root});
  }

  /**
   * More files, citing at least as much: the walk loses nothing, from whatever roots,
   * if and only if every new file that takes over the basename of old ones still
   * leads to them.
   */
  lemma TheWalkGrowsExactlyWhen(t: Tree, d: Tree)
    requires t.Keys <= d.Keys && forall f :: f in t ==> t[f] <= d[f]
    ensures (forall roots: set<Name> :: Reachable(t, roots) <= Reachable(d, roots))
            <==> (forall n, f :: Hides(t, d, n, f) ==> f in Reachable(d, {"/assets/" + n}))
  {
    if forall n, f :: Hides(t, d, n, f) ==> f in Reachable(d, {"/assets/" + n}) {
      forall roots: set<Name> ensures Reachable(t, roots) <= Reachable(d, roots) {
        TheWalkLosesNothing(t, d, roots);
      }
    }
    if forall roots: set<Name> :: Reachable(t, roots) <= Reachable(d, roots) {
      forall n, f | Hides(t, d, n, f) ensures f in Reachable(d, {"/assets/" + n}) {
        ReachedByItsBasename(t, n, f);
      }
    }
  }

  /** Where a name resolves to `y` without the new files, it leads to `y` with them. */
  lemma StillLedTo(t: Tree, d: Tree, s: set<Name>, n: Name, y: Name, roots: set<Name>)
    requires t.Keys <= d.Keys && Covers(d, roots, s) && y in Resolve(t.Keys, n) && Resolve(d.Keys, n) <= s
    requires Hides(t, d, n, y) ==> y in Reachable(d, {"/assets/" + n})
    ensures y in s
  {
    if n !in t && n in d {
      var root := "/assets/" + n;
      assert StripAssets(root) == n;
      assert Covers(d, {root}, s) by {
        forall e | e in Entries(d, {root}) ensures e in s {
          assert e in Resolve(d.Keys, n);
        }
      }
    } else {
      assert y in Resolve(d.Keys, n);
    }
  }

  lemma TheWalkLosesNothing(t: Tree, d: Tree, roots: set<Name>)
    requires t.Keys <= d.Keys && forall f :: f in t ==> t[f] <= d[f]
    requires forall n, f :: Hides(t, d, n, f) ==> f in Reachable(d, {"/assets/" + n})
    ensures Reachable(t, roots) <= Reachable(d, roots)
  {
    forall f, s: set<Name> | f in Reachable(t, roots) && Covers(d, roots, s) ensures f in s {
      forall y | y in Entries(t, roots) ensures y in s {
        var n :| n in roots && y in Resolve(t.Keys, StripAssets(n));
        assert Resolve(d.Keys, StripAssets(n)) <= Entries(d, roots);
        StillLedTo(t, d, s, StripAssets(n), y, roots);
      }
      forall g, y | g in s && g in t && y in CitedBy(t, g) ensures y in s {
        var n :| n in t[g] && y in Resolve(t.Keys, n);
        assert Resolve(d.Keys, n) <= CitedBy(d, g);
        StillLedTo(t, d, s, n, y, roots);
      }
      assert Covers(t, roots, s);
    }
  }

  /**
   * Without unique basenames a new file hides a reachable one from the walk: a
   * bundle that reaches `inner` by its basename loses it as soon as a file of
   * that very name appears at the top of the directory.
   */
  lemma SharedBasenameHidesAFile(inner: Name, top: Name)
    requires Base(inner) == top && inner != top && StripAssets(top) == top
    requires PrecompressedOrigin(inner) != Some(top)
    ensures inner in Alive(map[inner := {}], {top})
    ensures inner !in Alive(map[inner := {}, top := {}], {top})
  {
    var t: Tree, d: Tree := map[inner := {}], map[inner := {}, top := {}];
    assert inner in Resolve(t.Keys, top);
    assert inner in Entries(t, {top});
    assert Resolve(d.Keys, top) == {top};
    assert Covers(d, {top}, {top});
  }
}

/** The dependency scanner of the perl5 tool. Perl's `Module::ScanDeps`
    is asked for the direct dependencies of one file at a time; each
    reported path is resolved with `realpath` and kept only when the
    resolved path starts with the working directory (a plain string
    prefix: `/a/b` admits `/a/bc/x`). The scanner takes the transitive
    closure itself, re-scanning only the paths each round newly adds. */
module DepScan {

  /** What the scanner sees of the outside world: the one-level dependency
      report of a file (the output lines of `Module::ScanDeps`), symlink
      resolution, and the resolved working directory. */
  datatype Host = Host(deps: string -> seq<string>, realpath: string -> string, cwd: string)

  /** Whether a reported dependency survives the filter: its resolved form
      lies under the working directory. */
  predicate Admitted(h: Host, dep: string)
  {
    h.cwd <= h.realpath(dep)
  }

  /** The resolved, admitted paths among some reported dependencies. */
  function KeptAmong(h: Host, lines: seq<string>): (r: set<string>)
    ensures forall x :: x in r ==> h.cwd <= x
    ensures forall d :: d in lines && Admitted(h, d) ==> h.realpath(d) in r
    ensures forall x :: x in r ==> exists d :: d in lines && Admitted(h, d) && x == h.realpath(d)
  {
    set d | d in lines && Admitted(h, d) :: h.realpath(d)
  }

  /** The kept edges out of `f`: the paths a scan of `f` contributes. */
  function Kept(h: Host, f: string): set<string>
  {
    KeptAmong(h, h.deps(f))
  }

  /** One round of `scan_deps`: the kept dependencies of the frontier files
      that are not yet accumulated. */
  function Step(h: Host, frontier: set<string>, acc: set<string>): (r: set<string>)
    ensures r !! acc
    ensures forall f :: f in frontier ==> Kept(h, f) - acc <= r
    ensures forall x :: x in r ==> exists f :: f in frontier && x in Kept(h, f)
  {
    set f, x | f in frontier && x in Kept(h, f) && x !in acc :: x
  }

  /** The project tree is finite: every kept path lies in `universe`. */
  ghost predicate Bounded(h: Host, universe: set<string>)
  {
    forall f :: Kept(h, f) <= universe
  }

  /** Adding a non-empty batch of universe paths that were not yet
      accumulated shrinks what is left of the universe. */
  lemma RemainingShrinks(universe: set<string>, acc: set<string>, found: set<string>)
    requires found <= universe && found !! acc && found != {}
    ensures |universe - (acc + found)| < |universe - acc|
  {
    var before := universe - acc;
    var after := universe - (acc + found);
    assert before == after + found;
    assert after !! found;
  }

  /** The recursion of `scan_deps`: merge the round's new paths into the
      accumulated set and, when the size changed, scan exactly the new
      paths. Each round adds paths from the finite universe that were not
      there before, so the recursion ends, cycles among the files included. */
  function Loop(h: Host, ghost universe: set<string>, frontier: set<string>, acc: set<string>): (r: set<string>)
    requires Bounded(h, universe)
    ensures acc <= r
    ensures r == acc <==> Step(h, frontier, acc) == {}
    ensures forall x :: x in r && x !in acc ==> h.cwd <= x
    decreases |universe - acc|
  {
    var found := Step(h, frontier, acc);
    var acc' := acc + found;
    if |acc'| != |acc| then
      assert found <= universe;
      RemainingShrinks(universe, acc, found);
      Loop(h, universe, found, acc')
    else
      acc'
  }

  /** `perl5_scanner`: the scan starts from the node alone with nothing
      accumulated. The node itself is in the result only when some scan
      reports it. */
  function ScanDeps(h: Host, ghost universe: set<string>, root: string): (r: set<string>)
    requires Bounded(h, universe)
    ensures forall x :: x in r ==> h.cwd <= x
    ensures r == {} <==> Kept(h, root) == {}
  {
    StepFromRoot(h, root);
    Loop(h, universe, {root}, {})
  }

  /** The first round scans the root alone against an empty set. */
  lemma StepFromRoot(h: Host, root: string)
    ensures Step(h, {root}, {}) == Kept(h, root)
  {
    forall x | x in Step(h, {root}, {})
      ensures x in Kept(h, root)
    {
      var f :| f in {root} && x in Kept(h, f);
    }
  }

  /** The outer `for` loop of `scan_deps`: every frontier file's new
      dependencies are collected. */
  method CollectNew(h: Host, frontier: set<string>, acc: set<string>) returns (found: set<string>)
    ensures found == Step(h, frontier, acc)
  {
    found := {};
    var todo := frontier;
    while todo != {}
      invariant todo <= frontier
      invariant found == Step(h, frontier - todo, acc)
      decreases todo
    {
      var f :| f in todo;
      var newDeps := CollectFromFile(h, f, acc);
      StepAddFile(h, frontier - todo, f, acc);
      assert (frontier - todo) + {f} == frontier - (todo - {f});
      found := found + newDeps;
      todo := todo - {f};
    }
  }

  /** The inner `for` loop of `scan_deps`: every line of one file's report
      is resolved, filtered, and collected when not yet accumulated. */
  method CollectFromFile(h: Host, f: string, acc: set<string>) returns (newDeps: set<string>)
    ensures newDeps == Kept(h, f) - acc
  {
    newDeps := {};
    var lines := h.deps(f);
    var j := 0;
    while j < |lines|
      invariant 0 <= j <= |lines|
      invariant newDeps == KeptAmong(h, lines[..j]) - acc
    {
      var dep := h.realpath(lines[j]);
      KeptAmongSnoc(h, lines[..j], lines[j]);
      assert lines[..j + 1] == lines[..j] + [lines[j]];
      if h.cwd <= dep && dep !in acc {
        newDeps := newDeps + {dep};
      }
      j := j + 1;
    }
    assert lines[..j] == lines;
  }

  lemma KeptAmongSnoc(h: Host, lines: seq<string>, d: string)
    ensures KeptAmong(h, lines + [d]) ==
      KeptAmong(h, lines) + (if Admitted(h, d) then {h.realpath(d)} else {})
  {
    var l := lines + [d];
    forall x | x in KeptAmong(h, l)
      ensures x in KeptAmong(h, lines) + (if Admitted(h, d) then {h.realpath(d)} else {})
    {
      var e :| e in l && Admitted(h, e) && x == h.realpath(e);
      if e != d {
        assert e in lines;
      }
    }
  }

  lemma StepAddFile(h: Host, done: set<string>, f: string, acc: set<string>)
    ensures Step(h, done + {f}, acc) == Step(h, done, acc) + (Kept(h, f) - acc)
  {
  }

  /** A chain of kept edges: each path is a kept dependency of the one
      before it. */
  ghost predicate IsWalk(h: Host, p: seq<string>)
  {
    forall i :: 0 <= i < |p| - 1 ==> p[i + 1] in Kept(h, p[i])
  }

  /** `x` is reached from `root` along at least one kept edge. */
  ghost predicate Reachable(h: Host, root: string, x: string)
  {
    exists p :: IsWalk(h, p) && |p| >= 2 && p[0] == root && p[|p| - 1] == x
  }

  /** A kept dependency of the root or of a reached path is reached. */
  lemma ReachableStep(h: Host, root: string, f: string, y: string)
    requires f == root || Reachable(h, root, f)
    requires y in Kept(h, f)
    ensures Reachable(h, root, y)
  {
    if f == root {
      var p := [root, y];
      assert IsWalk(h, p);
    } else {
      var p :| IsWalk(h, p) && |p| >= 2 && p[0] == root && p[|p| - 1] == f;
      var q := p + [y];
      forall i | 0 <= i < |q| - 1
        ensures q[i + 1] in Kept(h, q[i])
      {
        if i < |p| - 1 {
          assert q[i] == p[i] && q[i + 1] == p[i + 1];
        }
      }
      assert IsWalk(h, q);
    }
  }

  /** What the explored part of the search guarantees: the frontier is the
      root or accumulated, and every root or accumulated path that is not
      on the frontier has all its kept dependencies accumulated. */
  ghost predicate Explored(h: Host, root: string, frontier: set<string>, acc: set<string>)
  {
    && frontier <= acc + {root}
    && forall x :: x in acc + {root} && x !in frontier ==> Kept(h, x) <= acc
  }

  /** A round keeps the search explored. */
  lemma ExploredAfterStep(h: Host, root: string, frontier: set<string>, acc: set<string>)
    requires Explored(h, root, frontier, acc)
    ensures var found := Step(h, frontier, acc);
      Explored(h, root, found, acc + found)
  {
    var found := Step(h, frontier, acc);
    var acc' := acc + found;
    forall x | x in acc' + {root} && x !in found
      ensures Kept(h, x) <= acc'
    {
      if x in frontier {
        assert Kept(h, x) - acc <= found;
      } else {
        assert x in acc + {root};
      }
    }
  }

  /** A round that adds nothing leaves every explored path closed. */
  lemma ExploredAtFixpoint(h: Host, root: string, frontier: set<string>, acc: set<string>)
    requires Explored(h, root, frontier, acc)
    requires Step(h, frontier, acc) == {}
    ensures forall x :: x in acc + {root} ==> Kept(h, x) <= acc
  {
    forall x | x in acc + {root}
      ensures Kept(h, x) <= acc
    {
      if x in frontier {
        forall y | y in Kept(h, x)
          ensures y in acc
        {
          assert Kept(h, x) - acc <= Step(h, frontier, acc);
          assert y !in Step(h, frontier, acc);
        }
      } else {
        assert x in acc + {root} && x !in frontier;
      }
    }
  }

  /** A round that adds paths hands over to the next round, with less of
      the universe left to find. */
  lemma LoopAdvance(h: Host, universe: set<string>, frontier: set<string>, acc: set<string>)
    requires Bounded(h, universe)
    requires Step(h, frontier, acc) != {}
    ensures var found := Step(h, frontier, acc);
      && |universe - (acc + found)| < |universe - acc|
      && Loop(h, universe, frontier, acc) == Loop(h, universe, found, acc + found)
  {
    var found := Step(h, frontier, acc);
    StepInUniverse(h, universe, frontier, acc);
    RemainingShrinks(universe, acc, found);
    DisjointUnionGrows(acc, found);
  }

  lemma StepInUniverse(h: Host, universe: set<string>, frontier: set<string>, acc: set<string>)
    requires Bounded(h, universe)
    ensures Step(h, frontier, acc) <= universe
  {
    forall x | x in Step(h, frontier, acc)
      ensures x in universe
    {
      var f :| f in frontier && x in Kept(h, f);
      assert Kept(h, f) <= universe;
    }
  }

  lemma DisjointUnionGrows(acc: set<string>, found: set<string>)
    requires found !! acc && found != {}
    ensures |acc + found| != |acc|
  {
    assert |acc + found| == |acc| + |found|;
  }

  /** The recursion ends on a set closed under kept edges that also holds
      the root's kept dependencies. */
  lemma {:induction false} LoopClosed(h: Host, universe: set<string>, root: string, frontier: set<string>, acc: set<string>)
    requires Bounded(h, universe)
    requires Explored(h, root, frontier, acc)
    ensures Kept(h, root) <= Loop(h, universe, frontier, acc)
    ensures forall x :: x in Loop(h, universe, frontier, acc) ==> Kept(h, x) <= Loop(h, universe, frontier, acc)
    decreases |universe - acc|
  {
    var found := Step(h, frontier, acc);
    if found == {} {
      ExploredAtFixpoint(h, root, frontier, acc);
      assert Loop(h, universe, frontier, acc) == acc;
    } else {
      LoopAdvance(h, universe, frontier, acc);
      ExploredAfterStep(h, root, frontier, acc);
      LoopClosed(h, universe, root, found, acc + found);
    }
  }

  /** A round only finds paths reached from the root. */
  lemma StepReachable(h: Host, root: string, frontier: set<string>, acc: set<string>)
    requires frontier <= acc + {root}
    requires forall x :: x in acc ==> Reachable(h, root, x)
    ensures forall y :: y in Step(h, frontier, acc) ==> Reachable(h, root, y)
  {
    forall y | y in Step(h, frontier, acc)
      ensures Reachable(h, root, y)
    {
      var f :| f in frontier && y in Kept(h, f);
      ReachableStep(h, root, f, y);
    }
  }

  /** Everything the recursion accumulates is reached from the root. */
  lemma {:induction false} LoopSound(h: Host, universe: set<string>, root: string, frontier: set<string>, acc: set<string>)
    requires Bounded(h, universe)
    requires frontier <= acc + {root}
    requires forall x :: x in acc ==> Reachable(h, root, x)
    ensures forall x :: x in Loop(h, universe, frontier, acc) ==> Reachable(h, root, x)
    decreases |universe - acc|
  {
    var found := Step(h, frontier, acc);
    if found == {} {
      assert Loop(h, universe, frontier, acc) == acc;
    } else {
      LoopAdvance(h, universe, frontier, acc);
      StepReachable(h, root, frontier, acc);
      LoopSound(h, universe, root, found, acc + found);
    }
  }

  /** A walk that enters a set closed under kept edges stays inside it. */
  lemma {:induction false} WalkStaysInside(h: Host, p: seq<string>, closed: set<string>)
    requires IsWalk(h, p) && |p| >= 2
    requires p[1] in closed
    requires forall c :: c in closed ==> Kept(h, c) <= closed
    ensures p[|p| - 1] in closed
    decreases |p|
  {
    if |p| > 2 {
      var q := p[..|p| - 1];
      forall i | 0 <= i < |q| - 1
        ensures q[i + 1] in Kept(h, q[i])
      {
        assert q[i] == p[i] && q[i + 1] == p[i + 1];
      }
      assert IsWalk(h, q);
      WalkStaysInside(h, q, closed);
      assert p[|p| - 1] in Kept(h, p[|p| - 2]);
    }
  }

  /** The scan result is exactly the set of paths reached from the root
      along kept edges, whatever order the rounds visit files in. */
  lemma ScanDepsIsReachable(h: Host, universe: set<string>, root: string)
    requires Bounded(h, universe)
    ensures forall x :: x in ScanDeps(h, universe, root) <==> Reachable(h, root, x)
  {
    var r := ScanDeps(h, universe, root);
    LoopClosed(h, universe, root, {root}, {});
    LoopSound(h, universe, root, {root}, {});
    forall x | Reachable(h, root, x)
      ensures x in r
    {
      var p :| IsWalk(h, p) && |p| >= 2 && p[0] == root && p[|p| - 1] == x;
      assert p[1] in Kept(h, p[0]);
      WalkStaysInside(h, p, r);
    }
  }

  /** Every path in the result is the resolved form of some line a scan
      reported, and starts with the working directory. */
  lemma ScanDepsFiltered(h: Host, universe: set<string>, root: string)
    requires Bounded(h, universe)
    ensures forall x :: x in ScanDeps(h, universe, root) ==>
      && h.cwd <= x
      && exists f, d :: d in h.deps(f) && Admitted(h, d) && x == h.realpath(d)
  {
    ScanDepsIsReachable(h, universe, root);
    forall x | x in ScanDeps(h, universe, root)
      ensures exists f, d :: d in h.deps(f) && Admitted(h, d) && x == h.realpath(d)
    {
      var p :| IsWalk(h, p) && |p| >= 2 && p[0] == root && p[|p| - 1] == x;
      var f := p[|p| - 2];
      assert x in Kept(h, f);
    }
  }

  /** The result holds every kept dependency of the root and of each of
      its members. */
  lemma ScanDepsClosed(h: Host, universe: set<string>, root: string)
    requires Bounded(h, universe)
    ensures Kept(h, root) <= ScanDeps(h, universe, root)
    ensures forall x :: x in ScanDeps(h, universe, root) ==> Kept(h, x) <= ScanDeps(h, universe, root)
  {
    LoopClosed(h, universe, root, {root}, {});
  }

  /** If `a` imports `b` and `b` imports `c` inside the tree, scanning `a`
      finds both; a path outside the working directory is never found. */
  lemma TransitiveImports(h: Host, universe: set<string>, a: string, b: string, c: string, outside: string)
    requires Bounded(h, universe)
    requires b in Kept(h, a) && c in Kept(h, b)
    requires !(h.cwd <= outside)
    ensures b in ScanDeps(h, universe, a) && c in ScanDeps(h, universe, a)
    ensures outside !in ScanDeps(h, universe, a)
  {
    ScanDepsClosed(h, universe, a);
  }

  /** The root is a dependency of itself only through an import cycle. */
  lemma RootOnlyThroughCycle(h: Host, universe: set<string>, root: string)
    requires Bounded(h, universe)
    ensures root in ScanDeps(h, universe, root) <==> Reachable(h, root, root)
  {
    ScanDepsIsReachable(h, universe, root);
  }
}

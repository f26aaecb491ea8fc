/** The meta-gate: which scripts a reference chain from an entry point reaches, and the verdict. */
module GateReachability {

  /** The tracked scripts, whether some entry point names a script, and whether the body of one
      script names another. */
  datatype Corpus = Corpus(allScripts: seq<string>, entry: string -> bool, names: (string, string) -> bool) {
    function Scripts(): set<string> {
      set s | s in allScripts
    }
  }

  // ---- Reference chains -----------------------------------------------------------------

  /** A chain of tracked scripts: an entry point names the first, each names the next. */
  ghost predicate Chain(c: Corpus, path: seq<string>) {
    && path != []
    && c.entry(path[0])
    && (forall i :: 0 <= i < |path| ==> path[i] in c.Scripts())
    && (forall i, j :: 0 <= i && j == i + 1 < |path| ==> c.names(path[i], path[j]))
  }

  ghost predicate ChainTo(c: Corpus, path: seq<string>, script: string) {
    Chain(c, path) && path[|path| - 1] == script
  }

  ghost predicate Reachable(c: Corpus, script: string) {
    exists path :: ChainTo(c, path, script)
  }

  /** `s` holds the scripts entry points name and, with a script, every script it names. */
  ghost predicate Closed(c: Corpus, s: set<string>) {
    && (forall x :: x in c.Scripts() && c.entry(x) ==> x in s)
    && (forall x, y :: x in s && y in c.Scripts() && c.names(x, y) ==> y in s)
  }

  lemma ReachableFromEntry(c: Corpus, script: string)
    requires script in c.Scripts() && c.entry(script)
    ensures Reachable(c, script)
  {
    assert ChainTo(c, [script], script);
  }

  lemma ReachableStep(c: Corpus, script: string, next: string)
    requires Reachable(c, script) && next in c.Scripts() && c.names(script, next)
    ensures Reachable(c, next)
  {
    var path :| ChainTo(c, path, script);
    assert ChainTo(c, path + [next], next);
  }

  /** A chain never leaves a closed set. */
  lemma {:induction false} ChainStaysInside(c: Corpus, s: set<string>, path: seq<string>)
    requires Closed(c, s) && Chain(c, path)
    ensures path[|path| - 1] in s
  {
    if |path| > 1 {
      var init := path[..|path| - 1];
      assert Chain(c, init);
      ChainStaysInside(c, s, init);
      assert c.names(path[|path| - 2], path[|path| - 1]);
    }
  }

  /** The reachable scripts are contained in every closed set. */
  lemma ReachableIsLeast(c: Corpus, s: set<string>, script: string)
    requires Closed(c, s) && Reachable(c, script)
    ensures script in s
  {
    var path :| ChainTo(c, path, script);
    ChainStaysInside(c, s, path);
  }

  /** A ring that no entry point and no script outside names is not reached, however its members
      name each other. */
  lemma OrphanRingIsUnreachable(c: Corpus, ring: set<string>, script: string)
    requires script in ring
    requires forall x :: x in ring ==> !c.entry(x)
    requires forall x, y :: x in c.Scripts() && x !in ring && y in ring ==> !c.names(x, y)
    ensures !Reachable(c, script)
  {
    var outside := c.Scripts() - ring;
    assert Closed(c, outside);
    if Reachable(c, script) {
      ReachableIsLeast(c, outside, script);
    }
  }

  // ---- The worklist ---------------------------------------------------------------------

  /** The worklist invariant. */
  ghost predicate Progress(c: Corpus, seen: set<string>, frontier: set<string>) {
    && seen <= c.Scripts() && frontier <= c.Scripts()
    && (forall x :: x in seen || x in frontier ==> Reachable(c, x))
    && (forall x :: x in c.Scripts() && c.entry(x) ==> x in seen || x in frontier)
    && (forall x, y :: x in seen && y in c.Scripts() && c.names(x, y) ==> y in seen || y in frontier)
  }

  lemma Shrinks(c: Corpus, seen: set<string>, current: string)
    requires current in c.Scripts() && current !in seen
    ensures |c.Scripts() - (seen + {current})| < |c.Scripts() - seen|
  {
    assert c.Scripts() - (seen + {current}) == (c.Scripts() - seen) - {current};
  }

  /** What `current` adds to the frontier: the scripts it names that are not seen. */
  ghost predicate Successors(c: Corpus, current: string, seen: set<string>, added: set<string>) {
    forall y :: y in added <==> y in c.Scripts() && y != current && y !in seen && c.names(current, y)
  }

  lemma Advances(c: Corpus, seen: set<string>, frontier: set<string>, current: string, added: set<string>)
    requires Progress(c, seen, frontier) && current in frontier
    requires Successors(c, current, seen + {current}, added)
    ensures Progress(c, seen + {current}, frontier - {current} + added)
  {
    forall y | y in added
      ensures Reachable(c, y)
    {
      ReachableStep(c, current, y);
    }
  }

  /** The `for candidate in all_scripts` loop; a script naming itself does not count. */
  method Visit(c: Corpus, current: string, seen: set<string>) returns (added: set<string>)
    ensures Successors(c, current, seen, added)
  {
    added := {};
    var index := 0;
    while index < |c.allScripts|
      invariant index <= |c.allScripts|
      invariant forall y :: y in added <==>
        y in c.allScripts[..index] && y != current && y !in seen && c.names(current, y)
    {
      var candidate := c.allScripts[index];
      assert c.allScripts[..index + 1] == c.allScripts[..index] + [candidate];
      if candidate != current && candidate !in seen && c.names(current, candidate) {
        added := added + {candidate};
      }
      index := index + 1;
    }
    assert c.allScripts[..index] == c.allScripts;
  }

  /** The `while frontier` loop of `main`. */
  method Reach(c: Corpus) returns (seen: set<string>)
    ensures forall s :: s in seen <==> Reachable(c, s)
  {
    var frontier := set s | s in c.allScripts && c.entry(s);
    seen := {};
    forall s | s in frontier
      ensures Reachable(c, s)
    {
      ReachableFromEntry(c, s);
    }
    while frontier != {}
      invariant Progress(c, seen, frontier)
      decreases |c.Scripts() - seen|, |frontier|
    {
      var current :| current in frontier;
      ghost var before := frontier;
      frontier := frontier - {current};
      if current in seen {
        continue;
      }
      Shrinks(c, seen, current);
      seen := seen + {current};
      var added := Visit(c, current, seen);
      Advances(c, seen - {current}, before, current, added);
      frontier := frontier + added;
    }
    forall s | Reachable(c, s)
      ensures s in seen
    {
      assert Closed(c, seen);
      ReachableIsLeast(c, seen, s);
    }
  }

  // ---- The verdict ----------------------------------------------------------------------

  datatype Report = Report(orphans: set<string>, stale: set<string>, unknown: set<string>, exit: int)

  ghost predicate Runs(c: Corpus, gate: string) {
    c.entry(gate) || Reachable(c, gate)
  }

  ghost predicate Passes(c: Corpus, gates: seq<string>, exempt: map<string, string>) {
    && gates != []
    && (forall g :: g in gates ==> Runs(c, g) || g in exempt)
    && (forall x :: x in exempt ==> x in gates && !Runs(c, x))
  }

  /** The rest of `main`: the exit code is zero exactly when there are gates, every gate runs or is
      exempt, and no exemption is stale or names something that is not a gate. */
  method Check(c: Corpus, gates: seq<string>, exempt: map<string, string>) returns (r: Report)
    ensures r.exit == 0 || r.exit == 1
    ensures r.exit == 0 <==> Passes(c, gates, exempt)
    ensures gates != [] ==> (forall g :: g in r.orphans <==> g in gates && !Runs(c, g) && g !in exempt)
    ensures gates != [] ==> (forall g :: g in r.stale <==> g in exempt && g in gates && Runs(c, g))
    ensures gates != [] ==> (forall g :: g in r.unknown <==> g in exempt && g !in gates)
  {
    if gates == [] {
      return Report({}, {}, {}, 1);
    }
    var reachable := set g | g in gates && c.entry(g);
    var seen := Reach(c);
    reachable := reachable + set g | g in gates && g in seen;
    assert forall g :: g in reachable <==> g in gates && Runs(c, g);
    var orphans := set g | g in gates && g !in reachable && g !in exempt;
    var stale := exempt.Keys * reachable;
    var unknown := exempt.Keys - set g | g in gates;
    var failed := false;
    if orphans != {} {
      failed := true;
    }
    if stale != {} {
      failed := true;
    }
    if unknown != {} {
      failed := true;
    }
    assert orphans == {} <==> forall g :: g in gates ==> Runs(c, g) || g in exempt by {
      assert forall g :: g in orphans <==> g in gates && !Runs(c, g) && g !in exempt;
    }
    assert stale == {} && unknown == {} <==> forall x :: x in exempt ==> x in gates && !Runs(c, x) by {
      assert forall x :: x in exempt ==> (x in stale <==> x in gates && Runs(c, x)) && (x in unknown <==> x !in gates);
    }
    r := Report(orphans, stale, unknown, if failed then 1 else 0);
  }
}

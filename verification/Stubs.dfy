/** Stub modules and `collect_all_stubs`: a worklist closure over star imports. */
module Stubs {
  import opened Prelude

  // ----- stub modules -----

  /** A class or function of a stub; `detail` stands for a class's methods and bases. */
  datatype Entry = Entry(qualifiedName: string, shortName: string, detail: seq<string>)

  datatype ModuleStubs = ModuleStubs(classes: seq<Entry>, functions: seq<Entry>)

  /** A parsed stub file: what it defines and the targets of its star imports. */
  datatype Parsed = Parsed(stubs: ModuleStubs, stars: seq<string>)

  datatype Pending = Pending(path: string, moduleQn: string)

  // ----- collect_all_stubs -----

  ghost predicate ClosedUnder(x: set<string>, stars: map<string, seq<string>>, files: map<string, string>) {
    forall m, t | m in x && m in stars && t in stars[m] && t in files :: t in x
  }

  ghost function ModulesOf(queue: seq<Pending>): set<string> {
    set i | 0 <= i < |queue| :: queue[i].moduleQn
  }

  /** X holds the roots and is closed under the star imports collected so far. */
  ghost predicate Candidate(x: set<string>, roots: seq<Pending>, stars: map<string, seq<string>>, files: map<string, string>) {
    ModulesOf(roots) <= x && ClosedUnder(x, stars, files)
  }

  /** Where a collected module may have come from. */
  ghost predicate FromFile(roots: seq<Pending>, files: map<string, string>, parse: (string, string) -> Parsed,
                           m: string, path: string, stubs: ModuleStubs, stars: seq<string>)
  {
    && (Pending(path, m) in roots || (m in files && files[m] == path))
    && parse(path, m) == Parsed(stubs, stars)
  }

  ghost function AsSet(s: seq<string>): set<string> {
    set t | t in s
  }

  ghost predicate Waiting(queue: seq<Pending>, t: string) {
    t in ModulesOf(queue)
  }

  ghost predicate NewItem(files: map<string, string>, done: set<string>, p: Pending) {
    p.moduleQn in done && p.moduleQn in files && p.path == files[p.moduleQn]
  }

  /** What handling the targets in `done` has added to the queue and to the targets seen. */
  ghost predicate Grown(files: map<string, string>, done: set<string>, queue: seq<Pending>, seen: set<string>,
                        queue': seq<Pending>, seen': set<string>)
  {
    && seen' == seen + done
    && queue <= queue'
    && (forall i | |queue| <= i < |queue'| :: NewItem(files, done, queue'[i]))
    && (forall t | t in done && t in files :: t in seen || Waiting(queue', t))
  }

  /** Queued modules and stub files not yet named by a star import: what bounds the search. */
  ghost function Budget(files: map<string, string>, queue: seq<Pending>, seen: set<string>): nat {
    |queue| + |files.Keys - seen|
  }

  lemma QueueSnoc(queue: seq<Pending>, p: Pending)
    ensures ModulesOf(queue + [p]) == ModulesOf(queue) + {p.moduleQn}
  {
    forall m | m in ModulesOf(queue) ensures m in ModulesOf(queue + [p]) {
      var i :| 0 <= i < |queue| && queue[i].moduleQn == m;
      assert (queue + [p])[i] == queue[i];
    }
    assert (queue + [p])[|queue|] == p;
  }

  lemma GrownSeen(files: map<string, string>, done: set<string>, queue: seq<Pending>, seen: set<string>,
                  queue': seq<Pending>, seen': set<string>, t: string)
    requires Grown(files, done, queue, seen, queue', seen') && t in seen'
    ensures Grown(files, done + {t}, queue, seen, queue', seen')
  {
    assert seen' == seen + (done + {t});
    forall i | |queue| <= i < |queue'| ensures NewItem(files, done + {t}, queue'[i]) {
      assert NewItem(files, done, queue'[i]);
    }
  }

  lemma GrownMissing(files: map<string, string>, done: set<string>, queue: seq<Pending>, seen: set<string>,
                     queue': seq<Pending>, seen': set<string>, t: string)
    requires Grown(files, done, queue, seen, queue', seen') && t !in files
    ensures Grown(files, done + {t}, queue, seen, queue', seen' + {t})
    ensures Budget(files, queue', seen' + {t}) == Budget(files, queue', seen')
  {
    assert seen' + {t} == seen + (done + {t});
    assert files.Keys - (seen' + {t}) == files.Keys - seen';
    forall i | |queue| <= i < |queue'| ensures NewItem(files, done + {t}, queue'[i]) {
      assert NewItem(files, done, queue'[i]);
    }
  }

  lemma GrownQueued(files: map<string, string>, done: set<string>, queue: seq<Pending>, seen: set<string>,
                    queue': seq<Pending>, seen': set<string>, t: string)
    requires Grown(files, done, queue, seen, queue', seen') && t in files && t !in seen'
    ensures Grown(files, done + {t}, queue, seen, queue' + [Pending(files[t], t)], seen' + {t})
    ensures Budget(files, queue' + [Pending(files[t], t)], seen' + {t}) == Budget(files, queue', seen')
  {
    var p := Pending(files[t], t);
    QueueSnoc(queue', p);
    assert seen' + {t} == seen + (done + {t});
    assert files.Keys - (seen' + {t}) == (files.Keys - seen') - {t};
    forall u | u in done + {t} && u in files ensures u in seen || Waiting(queue' + [p], u) {
      assert u in done ==> u in seen || Waiting(queue', u);
    }
    forall i | |queue| <= i < |queue' + [p]| ensures NewItem(files, done + {t}, (queue' + [p])[i]) {
      if i < |queue'| {
        assert NewItem(files, done, queue'[i]);
      }
    }
  }

  ghost predicate Origin(roots: seq<Pending>, files: map<string, string>, parse: (string, string) -> Parsed,
                         modules: map<string, ModuleStubs>, stars: map<string, seq<string>>, m: string)
  {
    m in modules && m in stars && exists path :: FromFile(roots, files, parse, m, path, modules[m], stars[m])
  }

  /** Every collected module was parsed from a root file or from the stub file of its name. */
  ghost predicate Traced(roots: seq<Pending>, files: map<string, string>, parse: (string, string) -> Parsed,
                         modules: map<string, ModuleStubs>, stars: map<string, seq<string>>)
  {
    modules.Keys == stars.Keys && forall m | m in modules :: Origin(roots, files, parse, modules, stars, m)
  }

  lemma TracedStep(roots: seq<Pending>, files: map<string, string>, parse: (string, string) -> Parsed,
                   modules: map<string, ModuleStubs>, stars: map<string, seq<string>>, p: Pending)
    requires Traced(roots, files, parse, modules, stars) && QueuedFrom(roots, files, p)
    ensures var parsed := parse(p.path, p.moduleQn);
            Traced(roots, files, parse, modules[p.moduleQn := parsed.stubs], stars[p.moduleQn := parsed.stars])
  {
    var parsed := parse(p.path, p.moduleQn);
    var modules', stars' := modules[p.moduleQn := parsed.stubs], stars[p.moduleQn := parsed.stars];
    forall m | m in modules' ensures Origin(roots, files, parse, modules', stars', m) {
      if m == p.moduleQn {
        assert FromFile(roots, files, parse, m, p.path, parsed.stubs, parsed.stars);
      } else {
        assert Origin(roots, files, parse, modules, stars, m);
      }
    }
  }

  /** The loop over one module's star imports: each new target with a stub file is queued. */
  method EnqueueTargets(targets: seq<string>, files: map<string, string>, queue: seq<Pending>, seen: set<string>)
    returns (queue': seq<Pending>, seen': set<string>)
    ensures Grown(files, AsSet(targets), queue, seen, queue', seen')
    ensures Budget(files, queue', seen') == Budget(files, queue, seen)
  {
    queue', seen' := queue, seen;
    assert Grown(files, {}, queue, seen, queue', seen');
    for i := 0 to |targets|
      invariant Grown(files, AsSet(targets[..i]), queue, seen, queue', seen')
      invariant Budget(files, queue', seen') == Budget(files, queue, seen)
    {
      var t := targets[i];
      ghost var done := AsSet(targets[..i]);
      assert AsSet(targets[..i + 1]) == done + {t};
      if t !in seen' {
        if t in files {
          GrownQueued(files, done, queue, seen, queue', seen', t);
          queue' := queue' + [Pending(files[t], t)];
        } else {
          GrownMissing(files, done, queue, seen, queue', seen', t);
        }
        seen' := seen' + {t};
      } else {
        GrownSeen(files, done, queue, seen, queue', seen', t);
      }
    }
    assert targets[..|targets|] == targets;
  }

  ghost predicate Known(stars: map<string, seq<string>>, queue: seq<Pending>, m: string) {
    m in stars || Waiting(queue, m)
  }

  ghost predicate TargetsSeen(stars: map<string, seq<string>>, seen: set<string>, m: string)
    requires m in stars
  {
    forall t | t in stars[m] :: t in seen
  }

  /** Every set that could be the answer holds everything found so far. */
  ghost predicate Necessary(roots: seq<Pending>, files: map<string, string>, stars: map<string, seq<string>>,
                            queue: seq<Pending>, x: set<string>)
  {
    Candidate(x, roots, stars, files) ==> stars.Keys <= x && ModulesOf(queue) <= x
  }

  ghost predicate QueuedFrom(roots: seq<Pending>, files: map<string, string>, p: Pending) {
    p in roots || (p.moduleQn in files && files[p.moduleQn] == p.path)
  }

  /** The state of the worklist. */
  ghost predicate Collecting(roots: seq<Pending>, files: map<string, string>,
                             queue: seq<Pending>, stars: map<string, seq<string>>, seen: set<string>)
  {
    && (forall i | 0 <= i < |roots| :: Known(stars, queue, roots[i].moduleQn))
    && (forall m | m in stars :: TargetsSeen(stars, seen, m))
    && (forall t | t in seen && t in files :: Known(stars, queue, t))
    && (forall x :: Necessary(roots, files, stars, queue, x))
    && (forall i | 0 <= i < |queue| :: QueuedFrom(roots, files, queue[i]))
  }

  lemma QueueSplit(queue: seq<Pending>, rest: seq<Pending>, p: Pending)
    requires queue == rest + [p]
    ensures forall m | Waiting(queue, m) :: m == p.moduleQn || Waiting(rest, m)
    ensures ModulesOf(rest) <= ModulesOf(queue) && p.moduleQn in ModulesOf(queue)
  {
    QueueSnoc(rest, p);
  }

  lemma QueueExtends(queue: seq<Pending>, queue': seq<Pending>, m: string)
    requires queue <= queue' && Waiting(queue, m)
    ensures Waiting(queue', m)
  {
    var i :| 0 <= i < |queue| && queue[i].moduleQn == m;
    assert queue'[i] == queue[i];
  }

  /** A module already collected is dropped from the queue. */
  lemma SkipKeeps(roots: seq<Pending>, files: map<string, string>, queue: seq<Pending>,
                  stars: map<string, seq<string>>, seen: set<string>, rest: seq<Pending>, p: Pending)
    requires Collecting(roots, files, queue, stars, seen) && queue == rest + [p] && p.moduleQn in stars
    ensures Collecting(roots, files, rest, stars, seen)
  {
    QueueSplit(queue, rest, p);
    forall i | 0 <= i < |roots| ensures Known(stars, rest, roots[i].moduleQn) {
      assert Known(stars, queue, roots[i].moduleQn);
    }
    forall t | t in seen && t in files ensures Known(stars, rest, t) {
      assert Known(stars, queue, t);
    }
    forall x ensures Necessary(roots, files, stars, rest, x) {
      assert Necessary(roots, files, stars, queue, x);
    }
    forall i | 0 <= i < |rest| ensures QueuedFrom(roots, files, rest[i]) {
      assert QueuedFrom(roots, files, queue[i]);
    }
  }

  lemma NecessaryStep(roots: seq<Pending>, files: map<string, string>, queue: seq<Pending>, stars: map<string, seq<string>>,
                      rest: seq<Pending>, p: Pending, targets: seq<string>, queue': seq<Pending>, x: set<string>)
    requires Necessary(roots, files, stars, queue, x) && queue == rest + [p] && p.moduleQn !in stars
    requires rest <= queue' && forall i | |rest| <= i < |queue'| :: NewItem(files, AsSet(targets), queue'[i])
    ensures Necessary(roots, files, stars[p.moduleQn := targets], queue', x)
  {
    var stars' := stars[p.moduleQn := targets];
    if Candidate(x, roots, stars', files) {
      forall m, t | m in x && m in stars && t in stars[m] && t in files ensures t in x {
        assert stars'[m] == stars[m];
      }
      QueueSplit(queue, rest, p);
      forall m | m in ModulesOf(queue') ensures m in x {
        var i :| 0 <= i < |queue'| && queue'[i].moduleQn == m;
        if i < |rest| {
          assert rest[i].moduleQn in ModulesOf(rest);
        } else {
          assert NewItem(files, AsSet(targets), queue'[i]);
          assert m in stars'[p.moduleQn];
        }
      }
    }
  }

  lemma KnownStays(queue: seq<Pending>, stars: map<string, seq<string>>, rest: seq<Pending>, p: Pending,
                   targets: seq<string>, queue': seq<Pending>, m: string)
    requires queue == rest + [p] && rest <= queue' && Known(stars, queue, m)
    ensures Known(stars[p.moduleQn := targets], queue', m)
  {
    QueueSplit(queue, rest, p);
    if m !in stars && m != p.moduleQn {
      QueueExtends(rest, queue', m);
    }
  }

  lemma QueuedStays(roots: seq<Pending>, files: map<string, string>, queue: seq<Pending>, rest: seq<Pending>, p: Pending,
                    done: set<string>, queue': seq<Pending>)
    requires queue == rest + [p] && rest <= queue'
    requires forall i | 0 <= i < |queue| :: QueuedFrom(roots, files, queue[i])
    requires forall i | |rest| <= i < |queue'| :: NewItem(files, done, queue'[i])
    ensures forall i | 0 <= i < |queue'| :: QueuedFrom(roots, files, queue'[i])
  {
    forall i | 0 <= i < |queue'| ensures QueuedFrom(roots, files, queue'[i]) {
      if i < |rest| {
        assert QueuedFrom(roots, files, queue[i]) && queue'[i] == queue[i];
      } else {
        assert NewItem(files, done, queue'[i]);
      }
    }
  }

  /** A new module is recorded and its unseen targets are queued. */
  lemma VisitKeeps(roots: seq<Pending>, files: map<string, string>, queue: seq<Pending>,
                   stars: map<string, seq<string>>, seen: set<string>, rest: seq<Pending>, p: Pending,
                   targets: seq<string>, queue': seq<Pending>, seen': set<string>)
    requires Collecting(roots, files, queue, stars, seen) && queue == rest + [p] && p.moduleQn !in stars
    requires Grown(files, AsSet(targets), rest, seen, queue', seen')
    ensures Collecting(roots, files, queue', stars[p.moduleQn := targets], seen')
  {
    var stars' := stars[p.moduleQn := targets];
    forall i | 0 <= i < |roots| ensures Known(stars', queue', roots[i].moduleQn) {
      KnownStays(queue, stars, rest, p, targets, queue', roots[i].moduleQn);
    }
    forall m | m in stars' ensures TargetsSeen(stars', seen', m) {
      assert m != p.moduleQn ==> TargetsSeen(stars, seen, m);
    }
    forall t | t in seen' && t in files ensures Known(stars', queue', t) {
      if t in seen {
        KnownStays(queue, stars, rest, p, targets, queue', t);
      } else {
        assert Waiting(queue', t);
      }
    }
    forall x ensures Necessary(roots, files, stars', queue', x) {
      NecessaryStep(roots, files, queue, stars, rest, p, targets, queue', x);
    }
    QueuedStays(roots, files, queue, rest, p, AsSet(targets), queue');
  }

  /** The answer: it holds the roots, is closed, and is contained in every other such set. */
  ghost predicate LeastClosed(roots: seq<Pending>, files: map<string, string>, stars: map<string, seq<string>>) {
    Candidate(stars.Keys, roots, stars, files) && forall x | Candidate(x, roots, stars, files) :: stars.Keys <= x
  }

  lemma CollectedIsLeast(roots: seq<Pending>, files: map<string, string>, stars: map<string, seq<string>>, seen: set<string>)
    requires Collecting(roots, files, [], stars, seen)
    ensures LeastClosed(roots, files, stars)
  {
    forall m | m in ModulesOf(roots) ensures m in stars {
      var i :| 0 <= i < |roots| && roots[i].moduleQn == m;
      assert Known(stars, [], roots[i].moduleQn);
    }
    forall m, t | m in stars && t in stars[m] && t in files ensures t in stars {
      assert TargetsSeen(stars, seen, m);
      assert Known(stars, [], t);
    }
    forall x | Candidate(x, roots, stars, files) ensures stars.Keys <= x {
      assert Necessary(roots, files, stars, [], x);
    }
  }

  lemma CollectStart(roots: seq<Pending>, files: map<string, string>)
    ensures Collecting(roots, files, roots, map[], {})
  {
    forall i | 0 <= i < |roots| ensures Known(map[], roots, roots[i].moduleQn) && QueuedFrom(roots, files, roots[i]) {
      assert roots[i] in roots;
    }
    forall x ensures Necessary(roots, files, map[], roots, x) {
    }
  }

  /** Parse a module that is new, record it and queue its targets. */
  method Visit(ghost roots: seq<Pending>, files: map<string, string>, parse: (string, string) -> Parsed, rest: seq<Pending>, p: Pending,
               modules: map<string, ModuleStubs>, stars: map<string, seq<string>>, seen: set<string>)
    returns (queue': seq<Pending>, modules': map<string, ModuleStubs>, stars': map<string, seq<string>>, seen': set<string>)
    requires Collecting(roots, files, rest + [p], stars, seen) && p.moduleQn !in modules
    requires Traced(roots, files, parse, modules, stars)
    ensures Collecting(roots, files, queue', stars', seen') && Traced(roots, files, parse, modules', stars')
    ensures Budget(files, queue', seen') == Budget(files, rest, seen)
  {
    assert QueuedFrom(roots, files, (rest + [p])[|rest|]);
    var parsed := parse(p.path, p.moduleQn);
    TracedStep(roots, files, parse, modules, stars, p);
    queue', seen' := EnqueueTargets(parsed.stars, files, rest, seen);
    VisitKeeps(roots, files, rest + [p], stars, seen, rest, p, parsed.stars, queue', seen');
    modules', stars' := modules[p.moduleQn := parsed.stubs], stars[p.moduleQn := parsed.stars];
  }

  /** One round of the worklist: a module collected already is dropped, a new one visited. */
  method Next(ghost roots: seq<Pending>, files: map<string, string>, parse: (string, string) -> Parsed, queue: seq<Pending>,
              modules: map<string, ModuleStubs>, stars: map<string, seq<string>>, seen: set<string>)
    returns (queue': seq<Pending>, modules': map<string, ModuleStubs>, stars': map<string, seq<string>>, seen': set<string>)
    requires queue != [] && Collecting(roots, files, queue, stars, seen) && Traced(roots, files, parse, modules, stars)
    ensures Collecting(roots, files, queue', stars', seen') && Traced(roots, files, parse, modules', stars')
    ensures Budget(files, queue', seen') < Budget(files, queue, seen)
  {
    queue', modules', stars', seen' := queue, modules, stars, seen;
    var p, rest := queue[|queue| - 1], queue[..|queue| - 1];
    assert queue == rest + [p];
    if p.moduleQn in modules {
      SkipKeeps(roots, files, queue, stars, seen, rest, p);
      queue' := rest;
    } else {
      queue', modules', stars', seen' := Visit(roots, files, parse, rest, p, modules, stars, seen);
    }
  }

  /**
   `collect_all_stubs`, from the allowlisted files on: it terminates, and what it returns is the
   least set of modules that holds the roots and every star target that has a stub file.
   */
  method CollectAllStubs(roots: seq<Pending>, files: map<string, string>, parse: (string, string) -> Parsed)
    returns (modules: map<string, ModuleStubs>, stars: map<string, seq<string>>)
    ensures LeastClosed(roots, files, stars)
    ensures Traced(roots, files, parse, modules, stars)
  {
    modules, stars := map[], map[];
    var queue, seen := roots, {};
    CollectStart(roots, files);
    while queue != []
      invariant Collecting(roots, files, queue, stars, seen)
      invariant Traced(roots, files, parse, modules, stars)
      decreases Budget(files, queue, seen)
    {
      queue, modules, stars, seen := Next(roots, files, parse, queue, modules, stars, seen);
    }
    CollectedIsLeast(roots, files, stars, seen);
  }

  // ----- the allowlisted files -----

  /** The dotted module name of a stub file, given the parts of its path below the root. */
  function ModuleParts(parts: seq<string>): seq<string>
    requires parts != []
  {
    var n, last := |parts| - 1, parts[|parts| - 1];
    if last == "__init__.pyi" then parts[..n] else parts[..n] + [last[..if |last| >= 4 then |last| - 4 else 0]]
  }

  function Join(parts: seq<string>, separator: string): string {
    if parts == [] then "" else if |parts| == 1 then parts[0] else parts[0] + separator + Join(parts[1..], separator)
  }

  /** The file is a public, allowed top-level module or lies in one. */
  predicate Listed(parts: seq<string>, allowed: set<string>) {
    parts != [] &&
    var names := ModuleParts(parts);
    names != [] && !("_" <= names[0]) && names[0] in allowed
  }

  function Root(parts: seq<string>): Pending
    requires parts != []
  {
    Pending(Join(parts, "/"), Join(ModuleParts(parts), "."))
  }

  /** The allowlisted ones among the first n files, in the order of the listing. */
  function Roots(listing: seq<seq<string>>, allowed: set<string>, n: nat): seq<Pending>
    requires n <= |listing|
  {
    if n == 0 then []
    else Roots(listing, allowed, n - 1) + if Listed(listing[n - 1], allowed) then [Root(listing[n - 1])] else []
  }

  lemma {:induction false} JoinSnoc(parts: seq<string>, p: string, separator: string)
    ensures Join(parts + [p], separator) == if parts == [] then p else Join(parts, separator) + separator + p
  {
    if parts == [] {
      assert parts + [p] == [p];
    } else {
      assert (parts + [p])[1..] == parts[1..] + [p];
      JoinSnoc(parts[1..], p, separator);
    }
  }

  lemma PartsOfFile(dirs: seq<string>, base: string)
    ensures ModuleParts(dirs + [base + ".pyi"]) == if base == "__init__" then dirs else dirs + [base]
  {
    var parts := dirs + [base + ".pyi"];
    assert parts[..|dirs|] == dirs;
    var last := base + ".pyi";
    assert last[..|base|] == base && last[|base|..] == ".pyi";
    if last == "__init__.pyi" {
      assert base == "__init__.pyi"[..8] == "__init__";
    }
  }

  /**
   The name of a file in a directory: that of the directory for `__init__.pyi`, else a dot and the
   file's name without its extension behind it; the path has slashes in the same places.
   */
  lemma NameOfFile(dirs: seq<string>, base: string)
    ensures var file := base + ".pyi"; var r := Root(dirs + [file]);
            && r.path == (if dirs == [] then file else Join(dirs, "/") + "/" + file)
            && r.moduleQn == (if base == "__init__" then Join(dirs, ".")
                              else if dirs == [] then base else Join(dirs, ".") + "." + base)
  {
    PartsOfFile(dirs, base);
    JoinSnoc(dirs, base + ".pyi", "/");
    JoinSnoc(dirs, base, ".");
  }

  /** A directory with an `__init__.pyi` and a file with its name are the same module: `a/b/__init__.pyi` and `a/b.pyi` are a.b. */
  lemma PackageOrModule(dirs: seq<string>, b: string)
    requires b != "__init__"
    ensures Root(dirs + [b] + ["__init__" + ".pyi"]).moduleQn == Root(dirs + [b + ".pyi"]).moduleQn
    ensures Root(dirs + [b + ".pyi"]).moduleQn == if dirs == [] then b else Join(dirs, ".") + "." + b
  {
    NameOfFile(dirs + [b], "__init__");
    NameOfFile(dirs, b);
    JoinSnoc(dirs, b, ".");
  }

  /** A file is listed by its topmost name alone: allowed, and without an underscore in front. */
  lemma ListedByTop(dirs: seq<string>, base: string, allowed: set<string>)
    ensures Listed(dirs + [base + ".pyi"], allowed) <==>
            var top := if dirs == [] then base else dirs[0];
            !(dirs == [] && base == "__init__") && top in allowed && (top == "" || top[0] != '_')
  {
    PartsOfFile(dirs, base);
  }

  /** p is the root made of the i-th file, which is listed. */
  ghost predicate RootOf(listing: seq<seq<string>>, allowed: set<string>, p: Pending, i: nat) {
    i < |listing| && Listed(listing[i], allowed) && p == Root(listing[i])
  }

  ghost predicate FromListing(listing: seq<seq<string>>, allowed: set<string>, n: nat, p: Pending) {
    exists i: nat :: i < n && RootOf(listing, allowed, p, i)
  }

  lemma {:induction false} RootsStep(listing: seq<seq<string>>, allowed: set<string>, n: nat, p: Pending)
    requires 0 < n <= |listing|
    ensures p in Roots(listing, allowed, n) <==> p in Roots(listing, allowed, n - 1) || RootOf(listing, allowed, p, n - 1)
  {
  }

  lemma FromListingStep(listing: seq<seq<string>>, allowed: set<string>, n: nat, p: Pending)
    requires n > 0
    ensures FromListing(listing, allowed, n, p) <==>
            FromListing(listing, allowed, n - 1, p) || RootOf(listing, allowed, p, n - 1)
  {
  }

  /** Queued is exactly what is listed. */
  lemma {:induction false} RootsExact(listing: seq<seq<string>>, allowed: set<string>, n: nat, p: Pending)
    requires n <= |listing|
    ensures p in Roots(listing, allowed, n) <==> FromListing(listing, allowed, n, p)
  {
    if n > 0 {
      RootsExact(listing, allowed, n - 1, p);
      RootsStep(listing, allowed, n, p);
      FromListingStep(listing, allowed, n, p);
    }
  }

  /** The first pass: exactly the allowlisted files of the listing are queued, in its order. */
  method AllowedRoots(listing: seq<seq<string>>, allowed: set<string>) returns (roots: seq<Pending>)
    requires forall i | 0 <= i < |listing| :: listing[i] != []
    ensures roots == Roots(listing, allowed, |listing|)
  {
    roots := [];
    for i := 0 to |listing|
      invariant roots == Roots(listing, allowed, i)
    {
      var names := ModuleParts(listing[i]);
      if |names| == 0 || "_" <= names[0] || names[0] !in allowed {
        continue;
      }
      roots := roots + [Pending(Join(listing[i], "/"), Join(names, "."))];
    }
  }

  /** `collect_all_stubs` from the directory listing on. */
  method CollectListed(listing: seq<seq<string>>, allowed: set<string>, files: map<string, string>,
                       parse: (string, string) -> Parsed)
    returns (modules: map<string, ModuleStubs>, stars: map<string, seq<string>>)
    requires forall i | 0 <= i < |listing| :: listing[i] != []
    ensures LeastClosed(Roots(listing, allowed, |listing|), files, stars)
    ensures Traced(Roots(listing, allowed, |listing|), files, parse, modules, stars)
  {
    var roots := AllowedRoots(listing, allowed);
    modules, stars := CollectAllStubs(roots, files, parse);
  }

  // ----- the result in terms of the input alone -----

  /** Every module has one stub file, whether it is found by listing or by name. */
  ghost predicate OneFileEach(roots: seq<Pending>, files: map<string, string>, pathOf: string -> string) {
    && (forall i | 0 <= i < |roots| :: roots[i].path == pathOf(roots[i].moduleQn))
    && (forall m | m in files :: files[m] == pathOf(m))
  }

  /** m is a root or the end of a chain of k star imports from one, through existing stub files. */
  ghost predicate ReachedIn(roots: seq<Pending>, files: map<string, string>, parse: (string, string) -> Parsed,
                            pathOf: string -> string, m: string, k: nat)
    decreases k
  {
    if k == 0 then m in ModulesOf(roots)
    else m in files && exists u :: ReachedIn(roots, files, parse, pathOf, u, k - 1) && m in parse(pathOf(u), u).stars
  }

  lemma StarsAreParsed(roots: seq<Pending>, files: map<string, string>, parse: (string, string) -> Parsed,
                       pathOf: string -> string, modules: map<string, ModuleStubs>, stars: map<string, seq<string>>, m: string)
    requires OneFileEach(roots, files, pathOf) && Traced(roots, files, parse, modules, stars) && m in stars
    ensures stars[m] == parse(pathOf(m), m).stars
  {
    assert Origin(roots, files, parse, modules, stars, m);
    var path :| FromFile(roots, files, parse, m, path, modules[m], stars[m]);
    if Pending(path, m) in roots {
      var i :| 0 <= i < |roots| && roots[i] == Pending(path, m);
    }
  }

  lemma {:induction false} ReachedIsCollected(roots: seq<Pending>, files: map<string, string>, parse: (string, string) -> Parsed,
                                              pathOf: string -> string, modules: map<string, ModuleStubs>,
                                              stars: map<string, seq<string>>, m: string, k: nat)
    requires OneFileEach(roots, files, pathOf) && Traced(roots, files, parse, modules, stars)
    requires LeastClosed(roots, files, stars) && ReachedIn(roots, files, parse, pathOf, m, k)
    ensures m in stars
    decreases k
  {
    if k > 0 {
      var u :| ReachedIn(roots, files, parse, pathOf, u, k - 1) && m in parse(pathOf(u), u).stars;
      ReachedIsCollected(roots, files, parse, pathOf, modules, stars, u, k - 1);
      StarsAreParsed(roots, files, parse, pathOf, modules, stars, u);
    }
  }

  ghost predicate Reached(roots: seq<Pending>, files: map<string, string>, parse: (string, string) -> Parsed,
                          pathOf: string -> string, m: string)
  {
    exists k: nat :: ReachedIn(roots, files, parse, pathOf, m, k)
  }

  lemma ReachedNext(roots: seq<Pending>, files: map<string, string>, parse: (string, string) -> Parsed,
                    pathOf: string -> string, u: string, t: string)
    requires Reached(roots, files, parse, pathOf, u) && t in parse(pathOf(u), u).stars && t in files
    ensures Reached(roots, files, parse, pathOf, t)
  {
    var k: nat :| ReachedIn(roots, files, parse, pathOf, u, k);
    assert ReachedIn(roots, files, parse, pathOf, t, k + 1);
  }

  /** Exactly the modules reached from the allowlisted ones by star imports are collected. */
  lemma CollectedIsReached(roots: seq<Pending>, files: map<string, string>, parse: (string, string) -> Parsed,
                           pathOf: string -> string, modules: map<string, ModuleStubs>,
                           stars: map<string, seq<string>>, m: string)
    requires OneFileEach(roots, files, pathOf) && Traced(roots, files, parse, modules, stars)
    requires LeastClosed(roots, files, stars)
    ensures m in modules <==> Reached(roots, files, parse, pathOf, m)
  {
    var x := set t | t in stars && Reached(roots, files, parse, pathOf, t);
    forall t | t in ModulesOf(roots) ensures t in x {
      assert t in stars.Keys;
      assert ReachedIn(roots, files, parse, pathOf, t, 0);
    }
    forall u, t | u in x && u in stars && t in stars[u] && t in files ensures t in x {
      StarsAreParsed(roots, files, parse, pathOf, modules, stars, u);
      ReachedNext(roots, files, parse, pathOf, u, t);
    }
    assert Candidate(x, roots, stars, files);
    assert m in modules.Keys <==> m in stars.Keys;
    if Reached(roots, files, parse, pathOf, m) {
      var k: nat :| ReachedIn(roots, files, parse, pathOf, m, k);
      ReachedIsCollected(roots, files, parse, pathOf, modules, stars, m, k);
    }
  }
}

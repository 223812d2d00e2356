/** The batch runner of `src/runner.rs`: each (glob, holder, license) entry
    of the configuration is expanded and its files are scheduled as check or
    fix jobs; then the glob errors and the job results are folded into one
    verdict.

    Glob expansion, file contents, `Path::extension`, the success of a
    write and the current year are parameters. The worker pool, the join
    set, the progress bar and logging are left out: the jobs run as pure
    functions and their results are folded once. */
module Runner {
  import opened Wrappers
  import opened Text
  import opened Decimal
  import opened Notice
  import opened Config
  import opened Paths

  /** One item yielded by the glob iterator: a path, or an error reading a
      directory entry. */
  datatype Entry = Found(path: string) | EntryError

  /** What `cu::fs::glob` makes of a pattern. */
  datatype Expansion = PatternError | Expanded(entries: seq<Entry>)

  /** A scheduled job: the file and the pair it is checked against. */
  datatype Job = Job(path: string, claim: Claim)

  /** The state `run_glob` threads through: `path_map`, keyed by the
      identity of each claimed file, and the job handles. */
  datatype Sched = Sched(claims: map<PathKey, Claim>, jobs: seq<Job>)

  datatype GlobError =
    | BadPattern
    | BadEntry
    | ConflictingClaim(path: PathKey, existing: Claim, wanted: Claim)

  /** An entry `run_glob` fails on: an unreadable entry, or in fix mode a
      file already claimed with another pair. `key` gives the file a path
      names, as `PathBuf` comparison sees it. */
  predicate Fails(key: string -> PathKey, claims: map<PathKey, Claim>, claim: Claim, fix: bool, e: Entry) {
    e.EntryError? || (fix && key(e.path) in claims && claims[key(e.path)] != claim)
  }

  /** The paths of the found entries, in order. */
  function FoundPaths(entries: seq<Entry>): (r: seq<string>)
    ensures |r| <= |entries|
  {
    if entries == [] then []
    else
      var init := FoundPaths(entries[..|entries| - 1]);
      assert entries == entries[..|entries| - 1] + [entries[|entries| - 1]];
      match entries[|entries| - 1]
      case Found(p) => init + [p]
      case EntryError => init
  }

  /** The loop of `run_glob` over the expanded entries, stopping at the
      first failure with the state reached so far. */
  function ScheduleEntries(key: string -> PathKey, s: Sched, claim: Claim, fix: bool, entries: seq<Entry>): (r: (Sched, Result<(), GlobError>))
    decreases |entries|
  {
    if entries == [] then (s, Ok(()))
    else
      match entries[0]
      case EntryError => (s, Err(BadEntry))
      case Found(p) =>
        if !fix then
          ScheduleEntries(key, Sched(s.claims, s.jobs + [Job(p, claim)]), claim, fix, entries[1..])
        else if key(p) in s.claims then
          if s.claims[key(p)] != claim then (s, Err(ConflictingClaim(key(p), s.claims[key(p)], claim)))
          else ScheduleEntries(key, s, claim, fix, entries[1..])
        else
          ScheduleEntries(key, Sched(s.claims[key(p) := claim], s.jobs + [Job(p, claim)]), claim, fix, entries[1..])
  }

  /** `run_glob`: the new state, and whether the glob matched anything. */
  function RunGlob(key: string -> PathKey, s: Sched, claim: Claim, fix: bool, expansion: Expansion): (r: (Sched, Result<bool, GlobError>))
    ensures expansion.PatternError? ==> r == (s, Err(BadPattern))
    ensures expansion.Expanded? ==>
      (r.1.Ok? <==> forall i :: 0 <= i < |expansion.entries| ==> !Fails(key, s.claims, claim, fix, expansion.entries[i]))
    ensures r.1.Ok? ==> r.1.value == (|expansion.entries| > 0)
  {
    match expansion
    case PatternError => (s, Err(BadPattern))
    case Expanded(entries) =>
      ScheduleFails(key, s, claim, fix, entries);
      var (s', outcome) := ScheduleEntries(key, s, claim, fix, entries);
      if outcome.Ok? then (s', Ok(|entries| > 0)) else (s', Err(outcome.error))
  }

  /** Scheduling fails exactly on an entry that `Fails`, judged against the
      claims held before the glob: a path the glob itself claimed is
      claimed with the glob's own pair. */
  lemma {:induction false} ScheduleFails(key: string -> PathKey, s: Sched, claim: Claim, fix: bool, entries: seq<Entry>)
    ensures var r := ScheduleEntries(key, s, claim, fix, entries);
      && (r.1.Ok? <==> forall i :: 0 <= i < |entries| ==> !Fails(key, s.claims, claim, fix, entries[i]))
      && (!fix && r.1.Err? ==> r.1.error == BadEntry)
    decreases |entries|
  {
    if entries != [] {
      var rest := entries[1..];
      assert forall i :: 0 <= i < |rest| ==> rest[i] == entries[i + 1];
      match entries[0]
      case EntryError =>
      case Found(p) =>
        if !fix {
          ScheduleFails(key, Sched(s.claims, s.jobs + [Job(p, claim)]), claim, fix, rest);
        } else if key(p) in s.claims {
          if s.claims[key(p)] == claim {
            ScheduleFails(key, s, claim, fix, rest);
          }
        } else {
          var claims' := s.claims[key(p) := claim];
          ScheduleFails(key, Sched(claims', s.jobs + [Job(p, claim)]), claim, fix, rest);
          forall i | 0 <= i < |rest|
            ensures Fails(key, claims', claim, fix, rest[i]) <==> Fails(key, s.claims, claim, fix, rest[i])
          {
          }
        }
    }
  }

  /** The entries before the first unreadable one. */
  function UpToError(entries: seq<Entry>): (r: seq<Entry>)
    ensures r <= entries
    ensures EntryError !in r
    ensures |r| < |entries| ==> entries[|r|] == EntryError
  {
    if entries == [] || entries[0] == EntryError then []
    else [entries[0]] + UpToError(entries[1..])
  }

  /** One job per path, all for the same pair. */
  function JobsFor(paths: seq<string>, claim: Claim): (r: seq<Job>)
    ensures |r| == |paths|
    ensures forall i :: 0 <= i < |r| ==> r[i] == Job(paths[i], claim)
  {
    seq(|paths|, i requires 0 <= i < |paths| => Job(paths[i], claim))
  }

  /** In check mode `run_glob` leaves `path_map` alone and schedules one job
      per found path, repeats included, up to the first unreadable entry. */
  lemma {:induction false} CheckModeSchedules(key: string -> PathKey, s: Sched, claim: Claim, entries: seq<Entry>)
    ensures var r := ScheduleEntries(key, s, claim, false, entries);
      && r.0.claims == s.claims
      && r.0.jobs == s.jobs + JobsFor(FoundPaths(UpToError(entries)), claim)
    decreases |entries|
  {
    if entries != [] && entries[0] != EntryError {
      var p := entries[0].path;
      var s' := Sched(s.claims, s.jobs + [Job(p, claim)]);
      CheckModeSchedules(key, s', claim, entries[1..]);
      FoundPathsCons(p, UpToError(entries[1..]));
      assert UpToError(entries) == [Found(p)] + UpToError(entries[1..]);
    }
  }

  lemma {:induction false} FoundPathsCons(p: string, entries: seq<Entry>)
    ensures FoundPaths([Found(p)] + entries) == [p] + FoundPaths(entries)
    decreases |entries|
  {
    if entries != [] {
      var init := entries[..|entries| - 1];
      FoundPathsCons(p, init);
      assert ([Found(p)] + entries)[..|entries|] == [Found(p)] + init;
    }
  }

  /** The files of the scheduled jobs. */
  function JobKeys(key: string -> PathKey, jobs: seq<Job>): set<PathKey> {
    set i | 0 <= i < |jobs| :: key(jobs[i].path)
  }

  /** Some found path of `entries` names the file `k`. */
  ghost predicate FindsKey(key: string -> PathKey, entries: seq<Entry>, k: PathKey) {
    exists p :: Found(p) in entries && key(p) == k
  }

  /** The fix-mode state: each file is scheduled once, with the pair that
      claims it, and the claimed files are exactly the scheduled ones. */
  predicate ClaimsMatchJobs(key: string -> PathKey, s: Sched) {
    && (forall i, j :: 0 <= i < j < |s.jobs| ==> key(s.jobs[i].path) != key(s.jobs[j].path))
    && (forall i :: 0 <= i < |s.jobs| ==> key(s.jobs[i].path) in s.claims && s.claims[key(s.jobs[i].path)] == s.jobs[i].claim)
    && s.claims.Keys == JobKeys(key, s.jobs)
  }

  /** In fix mode, `run_glob` keeps every file claimed once and scheduled
      once, and never changes an existing claim, whether it succeeds or
      fails. Each new job is for a path the glob found, with the glob's
      pair, and each newly claimed file is one the glob found, claimed with
      its pair. On success every file the glob found is claimed. */
  lemma {:induction false} FixModeSchedules(key: string -> PathKey, s: Sched, claim: Claim, entries: seq<Entry>)
    requires ClaimsMatchJobs(key, s)
    ensures var r := ScheduleEntries(key, s, claim, true, entries);
      && ClaimsMatchJobs(key, r.0)
      && s.jobs <= r.0.jobs
      && (forall j :: |s.jobs| <= j < |r.0.jobs| ==> Found(r.0.jobs[j].path) in entries && r.0.jobs[j].claim == claim)
      && (forall k :: k in s.claims ==> k in r.0.claims && r.0.claims[k] == s.claims[k])
      && (forall k :: k in r.0.claims && k !in s.claims ==> r.0.claims[k] == claim && FindsKey(key, entries, k))
      && (r.1.Ok? ==> forall p :: Found(p) in entries ==> key(p) in r.0.claims)
    decreases |entries|
  {
    ScheduleExtendsJobs(key, s, claim, true, entries);
    if entries != [] && entries[0].Found? {
      var p := entries[0].path;
      var rest := entries[1..];
      assert forall q :: Found(q) in rest ==> Found(q) in entries;
      if key(p) in s.claims {
        if s.claims[key(p)] == claim {
          FixModeSchedules(key, s, claim, rest);
        }
      } else {
        var s' := Sched(s.claims[key(p) := claim], s.jobs + [Job(p, claim)]);
        ClaimNewFile(key, s, p, claim);
        FixModeSchedules(key, s', claim, rest);
        assert FindsKey(key, entries, key(p));
      }
    }
  }

  /** Claiming an unclaimed file and scheduling it keeps claims and jobs in
      step. */
  lemma ClaimNewFile(key: string -> PathKey, s: Sched, p: string, claim: Claim)
    requires ClaimsMatchJobs(key, s) && key(p) !in s.claims
    ensures ClaimsMatchJobs(key, Sched(s.claims[key(p) := claim], s.jobs + [Job(p, claim)]))
  {
    var jobs' := s.jobs + [Job(p, claim)];
    assert forall i :: 0 <= i < |s.jobs| ==> jobs'[i] == s.jobs[i];
    assert jobs'[|s.jobs|] == Job(p, claim);
    assert JobKeys(key, jobs') == JobKeys(key, s.jobs) + {key(p)};
  }

  /** In either mode `run_glob` only appends jobs: the jobs scheduled before
      stay, in their order, at the front, and each new one is for a path the
      glob found, with the glob's pair. */
  lemma {:induction false} ScheduleExtendsJobs(key: string -> PathKey, s: Sched, claim: Claim, fix: bool, entries: seq<Entry>)
    ensures var jobs := ScheduleEntries(key, s, claim, fix, entries).0.jobs;
      && s.jobs <= jobs
      && forall j :: |s.jobs| <= j < |jobs| ==> Found(jobs[j].path) in entries && jobs[j].claim == claim
    decreases |entries|
  {
    if entries != [] && entries[0].Found? {
      var p := entries[0].path;
      var rest := entries[1..];
      assert forall q :: Found(q) in rest ==> Found(q) in entries;
      var s' := Sched(if fix then s.claims[key(p) := claim] else s.claims, s.jobs + [Job(p, claim)]);
      ScheduleExtendsJobs(key, s', claim, fix, rest);
      ScheduleExtendsJobs(key, s, claim, fix, rest);
      var jobs := ScheduleEntries(key, s', claim, fix, rest).0.jobs;
      assert jobs[|s.jobs|] == Job(p, claim);
    }
  }

  /** What the loop of `run` has collected: the scheduling state, the globs
      that matched nothing, and the errors of the globs that failed. */
  datatype Search = Search(sched: Sched, noMatch: seq<string>, errors: seq<(string, GlobError)>)

  /** One turn of the loop of `run`: run the glob and record its outcome. */
  function SearchStep(key: string -> PathKey, st: Search, fix: bool, glob: string, claim: Claim, expansion: Expansion): (r: Search)
    ensures r.sched == RunGlob(key, st.sched, claim, fix, expansion).0
    ensures RunGlob(key, st.sched, claim, fix, expansion).1.Ok? ==> r.errors == st.errors
    ensures RunGlob(key, st.sched, claim, fix, expansion).1.Err? ==>
      r.errors == st.errors + [(glob, RunGlob(key, st.sched, claim, fix, expansion).1.error)]
  {
    var (s', outcome) := RunGlob(key, st.sched, claim, fix, expansion);
    match outcome
    case Ok(matched) => Search(s', if matched then st.noMatch else st.noMatch + [glob], st.errors)
    case Err(e) => Search(s', st.noMatch, st.errors + [(glob, e)])
  }

  /** The loop of `run` over the configuration entries, in order. A failing
      glob is recorded and the loop goes on with the next one. */
  function SearchFrom(key: string -> PathKey, st: Search, fix: bool, items: Entries, expand: string -> Expansion): (r: Search)
    ensures st.errors <= r.errors
    decreases |items|
  {
    if items == [] then st
    else SearchFrom(key, SearchStep(key, st, fix, items[0].0, items[0].1, expand(items[0].0)), fix, items[1..], expand)
  }

  /** The entries a pattern expands to; none for a bad pattern. */
  function Matches(expansion: Expansion): seq<Entry> {
    if expansion.PatternError? then [] else expansion.entries
  }

  /** A glob fails in check mode: a bad pattern or an unreadable entry. */
  predicate Broken(expansion: Expansion) {
    expansion.PatternError? || EntryError in expansion.entries
  }

  /** In either mode each error the search adds names one of the globs it
      went through, and there is at most one per glob. */
  lemma {:induction false} SearchErrorsFromGlobs(key: string -> PathKey, st: Search, fix: bool, items: Entries, expand: string -> Expansion)
    ensures var r := SearchFrom(key, st, fix, items, expand);
      && |r.errors| <= |st.errors| + |items|
      && forall j :: |st.errors| <= j < |r.errors| ==> exists i :: 0 <= i < |items| && r.errors[j].0 == items[i].0
    decreases |items|
  {
    if items != [] {
      var st' := SearchStep(key, st, fix, items[0].0, items[0].1, expand(items[0].0));
      var rest := items[1..];
      SearchErrorsFromGlobs(key, st', fix, rest, expand);
      var r := SearchFrom(key, st', fix, rest, expand);
      assert SearchFrom(key, st, fix, items, expand) == r;
      forall j | |st.errors| <= j < |r.errors|
        ensures exists i :: 0 <= i < |items| && r.errors[j].0 == items[i].0
      {
        if j < |st'.errors| {
          assert r.errors[j] == st'.errors[j];
          assert r.errors[j].0 == items[0].0;
        } else {
          var i :| 0 <= i < |rest| && r.errors[j].0 == rest[i].0;
          assert rest[i] == items[i + 1];
        }
      }
    }
  }

  /** The error check mode records for one glob, if any. */
  function CheckModeError(glob: string, expansion: Expansion): seq<(string, GlobError)> {
    if expansion.PatternError? then [(glob, BadPattern)]
    else if EntryError in expansion.entries then [(glob, BadEntry)]
    else []
  }

  /** The errors check mode collects: one per broken glob, in order. */
  function CheckModeErrors(items: Entries, expand: string -> Expansion): (r: seq<(string, GlobError)>)
    ensures |r| <= |items|
    ensures r == [] <==> forall i :: 0 <= i < |items| ==> !Broken(expand(items[i].0))
  {
    if items == [] then []
    else
      var rest := items[1..];
      assert forall i :: 0 <= i < |rest| ==> rest[i] == items[i + 1];
      CheckModeError(items[0].0, expand(items[0].0)) + CheckModeErrors(rest, expand)
  }

  /** The jobs check mode schedules: for each glob in order, one per found
      path up to its first unreadable entry. */
  function CheckModeJobs(items: Entries, expand: string -> Expansion): seq<Job> {
    if items == [] then []
    else
      JobsFor(FoundPaths(UpToError(Matches(expand(items[0].0)))), items[0].1)
        + CheckModeJobs(items[1..], expand)
  }

  /** In check mode, every glob is run, a broken one included: the jobs of
      every glob are scheduled, one error is recorded per broken glob, and
      no path is claimed. */
  lemma {:induction false} CheckModeSearch(key: string -> PathKey, st: Search, items: Entries, expand: string -> Expansion)
    ensures var r := SearchFrom(key, st, false, items, expand);
      && r.sched.claims == st.sched.claims
      && r.sched.jobs == st.sched.jobs + CheckModeJobs(items, expand)
      && r.errors == st.errors + CheckModeErrors(items, expand)
    decreases |items|
  {
    if items != [] {
      var (glob, claim) := items[0];
      var st' := SearchStep(key, st, false, glob, claim, expand(glob));
      CheckModeStep(key, st, glob, claim, expand(glob));
      CheckModeSearch(key, st', items[1..], expand);
      AppendAssoc(st.sched.jobs, JobsFor(FoundPaths(UpToError(Matches(expand(glob)))), claim), CheckModeJobs(items[1..], expand));
      AppendAssoc(st.errors, CheckModeError(glob, expand(glob)), CheckModeErrors(items[1..], expand));
    }
  }

  lemma CheckModeStep(key: string -> PathKey, st: Search, glob: string, claim: Claim, expansion: Expansion)
    ensures var r := SearchStep(key, st, false, glob, claim, expansion);
      && r.sched.claims == st.sched.claims
      && r.sched.jobs == st.sched.jobs + JobsFor(FoundPaths(UpToError(Matches(expansion))), claim)
      && r.errors == st.errors + CheckModeError(glob, expansion)
  {
    if expansion.Expanded? {
      assert Matches(expansion) == expansion.entries;
      var sched := ScheduleEntries(key, st.sched, claim, false, expansion.entries);
      assert RunGlob(key, st.sched, claim, false, expansion).0 == sched.0;
      CheckModeSchedules(key, st.sched, claim, expansion.entries);
      ScheduleFails(key, st.sched, claim, false, expansion.entries);
      if EntryError in expansion.entries {
        var i :| 0 <= i < |expansion.entries| && expansion.entries[i] == EntryError;
        assert Fails(key, st.sched.claims, claim, false, expansion.entries[i]);
      }
    } else {
      assert JobsFor(FoundPaths(UpToError(Matches(expansion))), claim) == [];
    }
  }

  /** Every glob of `items` expands cleanly. */
  predicate Clean(items: Entries, expand: string -> Expansion) {
    forall i :: 0 <= i < |items| ==> !Broken(expand(items[i].0))
  }

  /** The files the glob of `item` finds are unclaimed or claimed with its
      pair. */
  ghost predicate FitsClaims(key: string -> PathKey, claims: map<PathKey, Claim>, item: (string, Claim), expand: string -> Expansion) {
    forall p :: Found(p) in Matches(expand(item.0)) && key(p) in claims ==> claims[key(p)] == item.1
  }

  /** Two globs that find a common file, under whatever spellings, carry
      the same pair. */
  ghost predicate Consistent(key: string -> PathKey, a: (string, Claim), b: (string, Claim), expand: string -> Expansion) {
    forall p, q :: Found(p) in Matches(expand(a.0)) && Found(q) in Matches(expand(b.0)) && key(p) == key(q) ==> a.1 == b.1
  }

  /** Some glob of `items` finds `p` and carries `claim`. */
  predicate FoundBy(items: Entries, expand: string -> Expansion, p: string, claim: Claim) {
    exists i :: 0 <= i < |items| && Found(p) in Matches(expand(items[i].0)) && claim == items[i].1
  }

  /** No file is found by two globs with different pairs. */
  ghost predicate NoClash(key: string -> PathKey, items: Entries, expand: string -> Expansion) {
    forall i, j :: 0 <= i < |items| && 0 <= j < |items| ==> Consistent(key, items[i], items[j], expand)
  }

  /** In fix mode the loop of `run` keeps every file claimed once and
      scheduled once and never changes a claim; the jobs scheduled before
      stay in front, and each new job is for a path some glob found, with
      that glob's pair; it records no error exactly when every glob expands
      cleanly, no file is found by two globs with different pairs, and no
      file already claimed is found by a glob with another pair; and
      without an error every file any glob found is claimed. */
  lemma {:induction false} FixModeSearch(key: string -> PathKey, st: Search, items: Entries, expand: string -> Expansion)
    requires ClaimsMatchJobs(key, st.sched)
    ensures var r := SearchFrom(key, st, true, items, expand);
      && ClaimsMatchJobs(key, r.sched)
      && st.sched.jobs <= r.sched.jobs
      && (forall k :: k in st.sched.claims ==> k in r.sched.claims && r.sched.claims[k] == st.sched.claims[k])
      && (forall j :: |st.sched.jobs| <= j < |r.sched.jobs| ==> FoundBy(items, expand, r.sched.jobs[j].path, r.sched.jobs[j].claim))
      && (r.errors == st.errors ==>
            forall i, p :: 0 <= i < |items| && Found(p) in Matches(expand(items[i].0)) ==> key(p) in r.sched.claims)
      && (r.errors == st.errors <==>
        && Clean(items, expand)
        && NoClash(key, items, expand)
        && forall i :: 0 <= i < |items| ==> FitsClaims(key, st.sched.claims, items[i], expand))
    decreases |items|
  {
    if items != [] {
      var item := items[0];
      var rest := items[1..];
      assert forall i :: 0 <= i < |rest| ==> rest[i] == items[i + 1];
      var expansion := expand(item.0);
      var st' := SearchStep(key, st, true, item.0, item.1, expansion);
      var claims := st.sched.claims;
      var claims' := st'.sched.claims;
      FixModeStep(key, st, item, expand);
      FixModeSearch(key, st', rest, expand);
      var r := SearchFrom(key, st', true, rest, expand);
      assert SearchFrom(key, st, true, items, expand) == r;
      NewJobsFound(items, expand, st.sched.jobs, st'.sched.jobs, r.sched.jobs);
      if r.errors == st.errors {
        assert st'.errors == st.errors && r.errors == st'.errors;
        FoundClaimed(key, items, expand, claims', r.sched.claims);
      }
      if st'.errors == st.errors {
        RequirementsAfterStep(key, items, claims, claims', expand);
      } else {
        assert |st.errors| < |st'.errors|;
        assert r.errors != st.errors;
        assert Broken(expand(items[0].0)) || !FitsClaims(key, claims, items[0], expand);
      }
    }
  }

  /** Jobs new after all turns are new after the first turn, for the first
      glob, or new after the later turns, for a later glob. */
  lemma NewJobsFound(items: Entries, expand: string -> Expansion, jobs: seq<Job>, jobs': seq<Job>, last: seq<Job>)
    requires items != []
    requires jobs <= jobs' <= last
    requires forall j :: |jobs| <= j < |jobs'| ==> Found(jobs'[j].path) in Matches(expand(items[0].0)) && jobs'[j].claim == items[0].1
    requires forall j :: |jobs'| <= j < |last| ==> FoundBy(items[1..], expand, last[j].path, last[j].claim)
    ensures forall j :: |jobs| <= j < |last| ==> FoundBy(items, expand, last[j].path, last[j].claim)
  {
    var rest := items[1..];
    forall j | |jobs| <= j < |last|
      ensures FoundBy(items, expand, last[j].path, last[j].claim)
    {
      if j < |jobs'| {
        assert last[j] == jobs'[j];
        assert Found(last[j].path) in Matches(expand(items[0].0)) && last[j].claim == items[0].1;
      } else {
        var i :| 0 <= i < |rest| && Found(last[j].path) in Matches(expand(rest[i].0)) && last[j].claim == rest[i].1;
        assert items[i + 1] == rest[i];
      }
    }
  }

  /** Every file the first glob found is claimed after the first turn, and
      every file a later glob found after the later turns; so all are
      claimed at the end. */
  lemma FoundClaimed(key: string -> PathKey, items: Entries, expand: string -> Expansion, claims': map<PathKey, Claim>, last: map<PathKey, Claim>)
    requires items != []
    requires forall p :: Found(p) in Matches(expand(items[0].0)) ==> key(p) in claims'
    requires forall k :: k in claims' ==> k in last
    requires forall i, p :: 0 <= i < |items[1..]| && Found(p) in Matches(expand(items[1..][i].0)) ==> key(p) in last
    ensures forall i, p :: 0 <= i < |items| && Found(p) in Matches(expand(items[i].0)) ==> key(p) in last
  {
    var rest := items[1..];
    forall i, p | 0 <= i < |items| && Found(p) in Matches(expand(items[i].0))
      ensures key(p) in last
    {
      if i > 0 {
        assert items[i] == rest[i - 1];
      }
    }
  }

  /** The condition for an error-free search, before and after a clean
      first turn. */
  lemma RequirementsAfterStep(key: string -> PathKey, items: Entries, claims: map<PathKey, Claim>, claims': map<PathKey, Claim>, expand: string -> Expansion)
    requires items != []
    requires !Broken(expand(items[0].0)) && FitsClaims(key, claims, items[0], expand)
    requires forall k :: k in claims ==> k in claims' && claims'[k] == claims[k]
    requires forall p :: Found(p) in Matches(expand(items[0].0)) ==> key(p) in claims'
    requires forall k :: k in claims' && k !in claims ==> claims'[k] == items[0].1 && FindsKey(key, Matches(expand(items[0].0)), k)
    ensures
      (&& Clean(items[1..], expand)
       && NoClash(key, items[1..], expand)
       && forall i :: 0 <= i < |items[1..]| ==> FitsClaims(key, claims', items[1..][i], expand))
      <==>
      (&& Clean(items, expand)
       && NoClash(key, items, expand)
       && forall i :: 0 <= i < |items| ==> FitsClaims(key, claims, items[i], expand))
  {
    var item := items[0];
    var rest := items[1..];
    assert forall i :: 0 <= i < |rest| ==> rest[i] == items[i + 1];
    forall b | b in rest
      ensures FitsClaims(key, claims', b, expand) <==> FitsClaims(key, claims, b, expand) && Consistent(key, item, b, expand)
    {
      ClaimsAfter(key, claims, claims', item, b, expand);
    }
    NoClashCons(key, items, expand);
    if && Clean(rest, expand) && NoClash(key, rest, expand)
       && forall i :: 0 <= i < |rest| ==> FitsClaims(key, claims', rest[i], expand)
    {
      forall i | 0 <= i < |items|
        ensures FitsClaims(key, claims, items[i], expand) && !Broken(expand(items[i].0))
      {
        if i > 0 {
          assert items[i] == rest[i - 1];
          assert items[i] in rest;
        }
      }
    }
    if Clean(items, expand) && NoClash(key, items, expand) &&
      forall i :: 0 <= i < |items| ==> FitsClaims(key, claims, items[i], expand)
    {
      forall i | 0 <= i < |rest|
        ensures FitsClaims(key, claims', rest[i], expand)
      {
        assert rest[i] in rest;
        assert Consistent(key, items[0], items[i + 1], expand);
      }
    }
  }

  /** One fix-mode turn: no error exactly when the glob expands cleanly and
      fits the claims; the claims are kept, the new jobs are for paths the
      glob found, and on success the claims grow by the glob's found files,
      claimed with its pair. */
  lemma FixModeStep(key: string -> PathKey, st: Search, item: (string, Claim), expand: string -> Expansion)
    requires ClaimsMatchJobs(key, st.sched)
    ensures var st' := SearchStep(key, st, true, item.0, item.1, expand(item.0));
      && ClaimsMatchJobs(key, st'.sched)
      && st.errors <= st'.errors
      && (st'.errors == st.errors <==> !Broken(expand(item.0)) && FitsClaims(key, st.sched.claims, item, expand))
      && st.sched.jobs <= st'.sched.jobs
      && (forall j :: |st.sched.jobs| <= j < |st'.sched.jobs| ==>
        Found(st'.sched.jobs[j].path) in Matches(expand(item.0)) && st'.sched.jobs[j].claim == item.1)
      && (forall k :: k in st.sched.claims ==> k in st'.sched.claims && st'.sched.claims[k] == st.sched.claims[k])
      && (st'.errors == st.errors ==> forall p :: Found(p) in Matches(expand(item.0)) ==> key(p) in st'.sched.claims)
      && (forall k :: k in st'.sched.claims && k !in st.sched.claims ==>
        st'.sched.claims[k] == item.1 && FindsKey(key, Matches(expand(item.0)), k))
  {
    FixModeStepErrors(key, st, item, expand);
    FixModeStepClaims(key, st, item, expand);
  }

  lemma FixModeStepErrors(key: string -> PathKey, st: Search, item: (string, Claim), expand: string -> Expansion)
    ensures var st' := SearchStep(key, st, true, item.0, item.1, expand(item.0));
      && st.errors <= st'.errors
      && (st'.errors == st.errors <==> !Broken(expand(item.0)) && FitsClaims(key, st.sched.claims, item, expand))
  {
    var expansion := expand(item.0);
    var st' := SearchStep(key, st, true, item.0, item.1, expansion);
    if expansion.Expanded? {
      var entries := expansion.entries;
      assert Matches(expansion) == entries;
      var outcome := RunGlob(key, st.sched, item.1, true, expansion).1;
      if !Broken(expansion) && FitsClaims(key, st.sched.claims, item, expand) {
        forall i | 0 <= i < |entries|
          ensures !Fails(key, st.sched.claims, item.1, true, entries[i])
        {
          assert entries[i] in entries;
        }
        assert outcome.Ok?;
      } else {
        if EntryError in entries {
          var i :| 0 <= i < |entries| && entries[i] == EntryError;
          assert Fails(key, st.sched.claims, item.1, true, entries[i]);
        } else {
          var p :| Found(p) in entries && key(p) in st.sched.claims && st.sched.claims[key(p)] != item.1;
          var i :| 0 <= i < |entries| && entries[i] == Found(p);
          assert Fails(key, st.sched.claims, item.1, true, entries[i]);
        }
        assert outcome.Err?;
        assert |st'.errors| == |st.errors| + 1;
      }
    }
  }

  lemma FixModeStepClaims(key: string -> PathKey, st: Search, item: (string, Claim), expand: string -> Expansion)
    requires ClaimsMatchJobs(key, st.sched)
    ensures var st' := SearchStep(key, st, true, item.0, item.1, expand(item.0));
      && ClaimsMatchJobs(key, st'.sched)
      && st.sched.jobs <= st'.sched.jobs
      && (forall j :: |st.sched.jobs| <= j < |st'.sched.jobs| ==>
        Found(st'.sched.jobs[j].path) in Matches(expand(item.0)) && st'.sched.jobs[j].claim == item.1)
      && (forall k :: k in st.sched.claims ==> k in st'.sched.claims && st'.sched.claims[k] == st.sched.claims[k])
      && (st'.errors == st.errors ==> forall p :: Found(p) in Matches(expand(item.0)) ==> key(p) in st'.sched.claims)
      && (forall k :: k in st'.sched.claims && k !in st.sched.claims ==>
        st'.sched.claims[k] == item.1 && FindsKey(key, Matches(expand(item.0)), k))
  {
    var expansion := expand(item.0);
    if expansion.Expanded? {
      var entries := expansion.entries;
      assert Matches(expansion) == entries;
      var sched := ScheduleEntries(key, st.sched, item.1, true, entries);
      assert RunGlob(key, st.sched, item.1, true, expansion).0 == sched.0;
      ScheduleFails(key, st.sched, item.1, true, entries);
      FixModeSchedules(key, st.sched, item.1, entries);
    }
  }

  /** Once the glob of `item` has claimed its files, another glob fits the
      claims exactly when it fitted them before and agrees with `item`. */
  lemma ClaimsAfter(key: string -> PathKey, claims: map<PathKey, Claim>, claims': map<PathKey, Claim>, item: (string, Claim), b: (string, Claim), expand: string -> Expansion)
    requires FitsClaims(key, claims, item, expand)
    requires forall k :: k in claims ==> k in claims' && claims'[k] == claims[k]
    requires forall p :: Found(p) in Matches(expand(item.0)) ==> key(p) in claims'
    requires forall k :: k in claims' && k !in claims ==> claims'[k] == item.1 && FindsKey(key, Matches(expand(item.0)), k)
    ensures FitsClaims(key, claims', b, expand) <==> FitsClaims(key, claims, b, expand) && Consistent(key, item, b, expand)
  {
    if FitsClaims(key, claims, b, expand) && Consistent(key, item, b, expand) {
      forall q | Found(q) in Matches(expand(b.0)) && key(q) in claims'
        ensures claims'[key(q)] == b.1
      {
        if key(q) !in claims {
          var p :| Found(p) in Matches(expand(item.0)) && key(p) == key(q);
        }
      }
    }
  }

  lemma NoClashCons(key: string -> PathKey, items: Entries, expand: string -> Expansion)
    requires items != []
    ensures NoClash(key, items, expand) <==>
      NoClash(key, items[1..], expand) && forall b :: b in items[1..] ==> Consistent(key, items[0], b, expand)
  {
    var rest := items[1..];
    assert forall i :: 0 <= i < |rest| ==> rest[i] == items[i + 1];
    if NoClash(key, rest, expand) && forall b :: b in rest ==> Consistent(key, items[0], b, expand) {
      forall i, j | 0 <= i < |items| && 0 <= j < |items|
        ensures Consistent(key, items[i], items[j], expand)
      {
        if i > 0 && j > 0 {
          assert Consistent(key, rest[i - 1], rest[j - 1], expand);
        } else if i > 0 {
          assert items[i] in rest;
          assert Consistent(key, items[0], items[i], expand);
        } else if j > 0 {
          assert items[j] in rest;
        }
      }
    }
    if NoClash(key, items, expand) {
      forall b | b in rest
        ensures Consistent(key, items[0], b, expand)
      {
        var j :| 0 <= j < |rest| && rest[j] == b;
        assert Consistent(key, items[0], items[j + 1], expand);
      }
      forall i, j | 0 <= i < |rest| && 0 <= j < |rest|
        ensures Consistent(key, rest[i], rest[j], expand)
      {
        assert Consistent(key, items[i + 1], items[j + 1], expand);
      }
    }
  }

  /** What a job reaches outside the model: the current year, glob
      expansion, `Path::extension`, a file's text (`None` when it cannot be
      read as UTF-8 text) and whether a write to a path succeeds. */
  datatype Env = Env(
    year: U32,
    expand: string -> Expansion,
    extension: string -> Option<string>,
    contents: string -> Option<string>,
    writable: string -> bool)

  /** The comment style `Format::from_path` picks for a path. */
  function FormatOf(env: Env, path: string): Format {
    FromPath(env.extension(path))
  }

  /** `check_file` succeeds on the job's file. */
  predicate CheckPasses(env: Env, job: Job) {
    && env.contents(job.path).Some?
    && CheckFile(FormatOf(env, job.path), Lines(env.contents(job.path).value),
         job.claim.holder, job.claim.license, env.year).Ok?
  }

  /** A finished job: its path, whether it reports success, and the text it
      wrote, if it wrote one. */
  datatype JobResult = JobResult(path: string, ok: bool, written: Option<string>)

  /** A check-mode job: it never writes, and reports success exactly when
      the file is readable, opens with the SPDX line for the job's licence,
      and its second line is a copyright line naming the job's holder and
      ending at the current year. */
  function CheckJob(env: Env, job: Job): (r: JobResult)
    ensures r.path == job.path && r.written.None?
    ensures r.ok <==> CheckPasses(env, job)
    ensures r.ok <==>
      && env.contents(job.path).Some?
      && var f := FormatOf(env, job.path);
         var ls := Lines(env.contents(job.path).value);
         && |ls| >= 2
         && ls[0] == LicensePrefix(f) + job.claim.license
         && CopyrightPrefix(f) <= ls[1]
         && ParseCopyrightInfo(ls[1][|CopyrightPrefix(f)|..]).holder == job.claim.holder
         && ParseCopyrightInfo(ls[1][|CopyrightPrefix(f)|..]).yearEnd == env.year
  {
    JobResult(job.path, CheckPasses(env, job), None)
  }

  /** A fix-mode job: a file that passes the check is left alone; any other
      is rewritten by `fix_file`, and the job reports whether that
      succeeded: the file was read, had at most one license and one
      copyright line, and the write went through. */
  function FixJob(env: Env, job: Job): (r: JobResult)
    ensures r.path == job.path
    ensures CheckPasses(env, job) ==> r.ok && r.written.None?
    ensures !CheckPasses(env, job) ==>
      (r.ok <==>
        && env.contents(job.path).Some?
        && CountLicenseLines(FormatOf(env, job.path), Lines(env.contents(job.path).value)) <= 1
        && CountCopyrightLines(FormatOf(env, job.path), Lines(env.contents(job.path).value)) <= 1
        && env.writable(job.path))
    ensures r.written.Some? <==> !CheckPasses(env, job) && r.ok
    ensures r.written.Some? ==>
      r.written.value == FixedText(FormatOf(env, job.path), Lines(env.contents(job.path).value),
        job.claim.holder, job.claim.license, env.year)
  {
    if CheckPasses(env, job) then JobResult(job.path, true, None)
    else
      match env.contents(job.path)
      case None => JobResult(job.path, false, None)
      case Some(text) =>
        match FixFile(FormatOf(env, job.path), Lines(text), job.claim.holder, job.claim.license, env.year)
        case Err(_) => JobResult(job.path, false, None)
        case Ok(out) =>
          if env.writable(job.path) then JobResult(job.path, true, Some(out))
          else JobResult(job.path, false, None)
  }

  /** A file a check job passes is one a fix job leaves alone and reports
      as fine, and a fix job that neither writes nor fails saw a file the
      check job passes. */
  lemma CheckJobAgreesWithFixJob(env: Env, job: Job)
    ensures CheckJob(env, job).ok <==> FixJob(env, job) == JobResult(job.path, true, None)
  {
  }

  function RunJob(env: Env, fix: bool, job: Job): JobResult {
    if fix then FixJob(env, job) else CheckJob(env, job)
  }

  /** The environment after a job's write: the file now holds the text. */
  function AfterWrite(env: Env, path: string, text: string): Env {
    env.(contents := q => if q == path then Some(text) else env.contents(q))
  }

  /** Running a fix-mode job again on the file it rewrote leaves the file
      alone exactly when the original copyright start year was not after
      the current year; otherwise the new notice still fails the check and
      the file is rewritten again. (`fix_file` itself would add a blank line
      on every run; only the check before it keeps a fixed file stable.) */
  lemma FixJobSettles(env: Env, job: Job)
    requires LineSafe(job.claim.holder) && LineSafe(job.claim.license)
    ensures FixJob(env, job).written.Some? ==>
      var f := FormatOf(env, job.path);
      var again := FixJob(AfterWrite(env, job.path, FixJob(env, job).written.value), job);
      again == JobResult(job.path, true, None) <==>
        StartYear(f, Lines(env.contents(job.path).value), env.year) <= env.year
  {
    if FixJob(env, job).written.Some? {
      var f := FormatOf(env, job.path);
      var lines := Lines(env.contents(job.path).value);
      FixedFileChecks(f, lines, job.claim.holder, job.claim.license, env.year);
    }
  }


  /** The number of failed jobs, counted as results arrive. */
  function Tally(results: seq<bool>): (failed: nat)
    ensures failed <= |results|
  {
    if results == [] then 0
    else Tally(results[..|results| - 1]) + (if results[|results| - 1] then 0 else 1)
  }

  /** The count is the number of false results, whatever order the jobs
      finish in. */
  lemma {:induction false} TallyCountsFailures(results: seq<bool>)
    ensures Tally(results) == multiset(results)[false]
  {
    if results != [] {
      var init := results[..|results| - 1];
      TallyCountsFailures(init);
      assert results == init + [results[|results| - 1]];
      assert multiset(results) == multiset(init) + multiset{results[|results| - 1]};
    }
  }

  lemma TallyOrderFree(a: seq<bool>, b: seq<bool>)
    requires multiset(a) == multiset(b)
    ensures Tally(a) == Tally(b)
  {
    TallyCountsFailures(a);
    TallyCountsFailures(b);
  }

  /** No job failed exactly when every job reported success. */
  lemma {:induction false} TallyZero(results: seq<bool>)
    ensures Tally(results) == 0 <==> forall i :: 0 <= i < |results| ==> results[i]
  {
    if results != [] {
      var init := results[..|results| - 1];
      TallyZero(init);
      assert forall i :: 0 <= i < |init| ==> init[i] == results[i];
    }
  }

  datatype RunError = SearchFailed(errors: seq<(string, GlobError)>) | IssuesFound(failed: nat, total: nat)

  /** The loop of `run` from an empty state. */
  function Searched(env: Env, fix: bool, items: Entries): Search {
    SearchFrom(Components, Search(Sched(map[], []), [], []), fix, items, env.expand)
  }

  /** Each scheduled job's report, in scheduling order. */
  function Reports(env: Env, fix: bool, jobs: seq<Job>): (r: seq<bool>)
    ensures |r| == |jobs|
    ensures forall i :: 0 <= i < |jobs| ==> r[i] == RunJob(env, fix, jobs[i]).ok
  {
    seq(|jobs|, i requires 0 <= i < |jobs| => RunJob(env, fix, jobs[i]).ok)
  }

  /** `run`: any glob error fails the run before a job result is looked at;
      otherwise the run succeeds exactly when every job reports success,
      and else reports how many of how many jobs failed. */
  function Run(env: Env, fix: bool, items: Entries): (r: Result<nat, RunError>)
    ensures Searched(env, fix, items).errors != [] ==> r == Err(SearchFailed(Searched(env, fix, items).errors))
    ensures Searched(env, fix, items).errors == [] ==>
      var jobs := Searched(env, fix, items).sched.jobs;
      && (r.Ok? <==> forall i :: 0 <= i < |jobs| ==> RunJob(env, fix, jobs[i]).ok)
      && (r.Ok? ==> r.value == |jobs|)
      && (r.Err? ==> r.error == IssuesFound(multiset(Reports(env, fix, jobs))[false], |jobs|))
  {
    var search := Searched(env, fix, items);
    if search.errors != [] then Err(SearchFailed(search.errors))
    else
      var jobs := search.sched.jobs;
      var reports := Reports(env, fix, jobs);
      var failed := Tally(reports);
      TallyZero(reports);
      TallyCountsFailures(reports);
      if failed != 0 then Err(IssuesFound(failed, |jobs|)) else Ok(|jobs|)
  }

  /** In check mode the search fails exactly when some glob is broken, and
      then lists one error per broken glob; every matched path is checked,
      repeats included. */
  lemma CheckModeRun(env: Env, items: Entries)
    ensures Searched(env, false, items).errors == CheckModeErrors(items, env.expand)
    ensures Searched(env, false, items).sched.jobs == CheckModeJobs(items, env.expand)
  {
    CheckModeSearch(Components, Search(Sched(map[], []), [], []), items, env.expand);
  }

  /** When no two globs finding a file disagree, a fix-mode state that
      claims every found file and whose every job is for a path some glob
      found has a job for every found file with the pair of every glob
      that found it. */
  lemma JobsCoverFinds(key: string -> PathKey, sched: Sched, items: Entries, expand: string -> Expansion)
    requires ClaimsMatchJobs(key, sched)
    requires NoClash(key, items, expand)
    requires forall j :: 0 <= j < |sched.jobs| ==> FoundBy(items, expand, sched.jobs[j].path, sched.jobs[j].claim)
    requires forall i, p :: 0 <= i < |items| && Found(p) in Matches(expand(items[i].0)) ==> key(p) in sched.claims
    ensures forall i, p :: 0 <= i < |items| && Found(p) in Matches(expand(items[i].0)) ==>
      exists j :: 0 <= j < |sched.jobs| && key(sched.jobs[j].path) == key(p) && sched.jobs[j].claim == items[i].1
  {
    forall i, p | 0 <= i < |items| && Found(p) in Matches(expand(items[i].0))
      ensures exists j :: 0 <= j < |sched.jobs| && key(sched.jobs[j].path) == key(p) && sched.jobs[j].claim == items[i].1
    {
      JobCoversFind(key, sched, items, expand, i, p);
    }
  }

  lemma JobCoversFind(key: string -> PathKey, sched: Sched, items: Entries, expand: string -> Expansion, i: int, p: string)
    requires ClaimsMatchJobs(key, sched)
    requires NoClash(key, items, expand)
    requires forall j :: 0 <= j < |sched.jobs| ==> FoundBy(items, expand, sched.jobs[j].path, sched.jobs[j].claim)
    requires 0 <= i < |items| && Found(p) in Matches(expand(items[i].0)) && key(p) in sched.claims
    ensures exists j :: 0 <= j < |sched.jobs| && key(sched.jobs[j].path) == key(p) && sched.jobs[j].claim == items[i].1
  {
    var jobs := sched.jobs;
    assert key(p) in JobKeys(key, jobs);
    var j :| 0 <= j < |jobs| && key(jobs[j].path) == key(p);
    assert FoundBy(items, expand, jobs[j].path, jobs[j].claim);
    var k :| 0 <= k < |items| && Found(jobs[j].path) in Matches(expand(items[k].0)) && jobs[j].claim == items[k].1;
    assert Consistent(key, items[k], items[i], expand);
  }

  /** In fix mode the search succeeds exactly when every glob expands
      cleanly and no file is found by two globs with different pairs,
      files being compared as `PathBuf` does; each file is scheduled at
      most once, with the pair that claimed it; every job is for a path
      some glob found, with that glob's pair; and without an error every
      file any glob found is scheduled, with the pair of every glob that
      found it. */
  lemma FixModeRun(env: Env, items: Entries)
    ensures Searched(env, true, items).errors == [] <==> Clean(items, env.expand) && NoClash(Components, items, env.expand)
    ensures ClaimsMatchJobs(Components, Searched(env, true, items).sched)
    ensures var jobs := Searched(env, true, items).sched.jobs;
      forall j :: 0 <= j < |jobs| ==> FoundBy(items, env.expand, jobs[j].path, jobs[j].claim)
    ensures var jobs := Searched(env, true, items).sched.jobs;
      Searched(env, true, items).errors == [] ==>
        forall i, p :: 0 <= i < |items| && Found(p) in Matches(env.expand(items[i].0)) ==>
          exists j :: 0 <= j < |jobs| && Components(jobs[j].path) == Components(p) && jobs[j].claim == items[i].1
  {
    var st := Search(Sched(map[], []), [], []);
    assert JobKeys(Components, st.sched.jobs) == {};
    FixModeSearch(Components, st, items, env.expand);
    var r := Searched(env, true, items);
    if r.errors == [] {
      JobsCoverFinds(Components, r.sched, items, env.expand);
    }
  }

  /** Two spellings of one file claimed with different pairs are a
      conflict: `dir//name` and `dir/name` are the same `PathBuf` key. */
  lemma RespelledFileConflicts(env: Env, dir: string, name: string, g: string, h: string, a: Claim, b: Claim)
    requires a != b
    requires env.expand(g) == Expanded([Found(dir + "/" + ("" + "/" + name))])
    requires env.expand(h) == Expanded([Found(dir + "/" + name)])
    ensures Searched(env, true, [(g, a), (h, b)]).errors != []
  {
    var items := [(g, a), (h, b)];
    var p := dir + "/" + ("" + "/" + name);
    var q := dir + "/" + name;
    FixModeRun(env, items);
    EmptyOrDotIgnored(dir, "", name);
    assert Found(p) in Matches(env.expand(items[0].0));
    assert Found(q) in Matches(env.expand(items[1].0));
    assert !Consistent(Components, items[0], items[1], env.expand);
  }
}

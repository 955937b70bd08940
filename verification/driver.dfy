/** The top level, `main` (Proj4.java:44-66), over an abstract environment:
    for each command-line address in turn, make its directory, save the page,
    extract its references and save each of them; a failure anywhere ends the
    work on that address (one `try` covers it all) and turns the exit code to
    "other error", and the next address is still processed. */
module Driver {
  import opened Outcomes
  import opened JavaStrings
  import opened Extract
  import opened Fetch
  import opened DirName

  /** `exitCodes`, in declaration order. */
  datatype ExitCode = Normal | UsageErr | OtherErr | MkdirErr

  /** `ordinal()`: the position in the declaration, the process exit status. */
  function Ordinal(e: ExitCode): (n: nat)
    ensures n < 4
    ensures n == 0 <==> e == Normal
    ensures n == 1 <==> e == UsageErr
    ensures n == 2 <==> e == OtherErr
  {
    match e
    case Normal => 0
    case UsageErr => 1
    case OtherErr => 2
    case MkdirErr => 3
  }

  /** What the program does to the outside world. */
  datatype Event =
    | MakeDirectory(name: String)
    /** One `saveResource` call, attempted whether or not it succeeds. */
    | Save(plan: Plan)

  /** The events of processing one address and whether it threw. */
  datatype Report = Report(events: seq<Event>, failed: bool)

  /** The plans of saving each reference into `dir`, resolved against `page`. */
  function AssetPlans(dir: String, refs: seq<String>, page: String): (plans: seq<Plan>)
    ensures |plans| == |refs|
    ensures forall k :: 0 <= k < |refs| ==> plans[k] == PlanSave(dir, refs[k], page)
  {
    seq(|refs|, k requires 0 <= k < |refs| => PlanSave(dir, refs[k], page))
  }

  /** The asset loop `for (String s: srcUrls) saveResource(directory, s, urlString)`
      over the plans of the references: they are carried out in order and the
      first failure ends the loop; the assets' results are discarded. */
  function SaveAll(plans: seq<Plan>, env: Environment): (r: Report)
    ensures |r.events| <= |plans|
    ensures forall k :: 0 <= k < |r.events| ==> r.events[k] == Save(plans[k])
    ensures !r.failed ==> |r.events| == |plans|
  {
    if |plans| == 0 then Report([], false)
    else
      match Perform(plans[0], env)
      case Err(_) => Report([Save(plans[0])], true)
      case Ok(_) =>
        var rest := SaveAll(plans[1..], env);
        var events := [Save(plans[0])] + rest.events;
        assert forall k :: 1 <= k < |events| ==> events[k] == rest.events[k - 1];
        Report(events, rest.failed)
  }

  /** The asset loop stops at the first failure: every attempt before the
      last succeeded, the loop fails exactly when some plan's transfer fails,
      and then the last attempt is a failing one. */
  lemma {:induction false} SaveAllStops(plans: seq<Plan>, env: Environment)
    ensures var r := SaveAll(plans, env);
      && (forall k :: 0 <= k < |r.events| - 1 ==> env(plans[k]).Fetched?)
      && (r.failed <==> exists k :: 0 <= k < |plans| && env(plans[k]).Failed?)
      && (r.failed ==> |r.events| > 0 && env(plans[|r.events| - 1]).Failed?)
  {
    SaveAllAttempts(plans, env);
    SaveAllClean(plans, env);
  }

  /** Every attempt but the last succeeded, and the loop failed exactly when
      the last attempt did. */
  lemma {:induction false} SaveAllAttempts(plans: seq<Plan>, env: Environment)
    ensures var r := SaveAll(plans, env);
      && (forall k :: 0 <= k < |r.events| - 1 ==> env(plans[k]).Fetched?)
      && (r.failed <==> |r.events| > 0 && env(plans[|r.events| - 1]).Failed?)
    decreases |plans|
  {
    if |plans| > 0 {
      var r := SaveAll(plans, env);
      if env(plans[0]).Fetched? {
        var tail := plans[1..];
        var rest := SaveAll(tail, env);
        SaveAllAttempts(tail, env);
        assert Perform(plans[0], env).Ok?;
        assert r == Report([Save(plans[0])] + rest.events, rest.failed);
        assert forall k :: 1 <= k < |plans| ==> tail[k - 1] == plans[k];
      } else {
        assert r == Report([Save(plans[0])], true);
      }
    }
  }

  /** A loop that did not fail met no failing transfer. */
  lemma {:induction false} SaveAllClean(plans: seq<Plan>, env: Environment)
    ensures !SaveAll(plans, env).failed ==> forall k :: 0 <= k < |plans| ==> env(plans[k]).Fetched?
    decreases |plans|
  {
    if |plans| > 0 && env(plans[0]).Fetched? {
      var tail := plans[1..];
      SaveAllClean(tail, env);
      assert Perform(plans[0], env).Ok?;
      assert SaveAll(plans, env).failed == SaveAll(tail, env).failed;
      assert forall k :: 1 <= k < |plans| ==> tail[k - 1] == plans[k];
    }
  }

  /** The plan of the root fetch of `url` into `dir`. */
  function RootPlan(dir: String, url: String): Plan
  {
    PlanSave(dir, url, [])
  }

  /** The body of the `try` for one command-line address: `mkdir(urlString)`
      names the directory, then the rest runs in it. */
  function ProcessAddress(url: String, env: Environment): Report
  {
    ProcessInto(DirectoryName(url), url, env)
  }

  /** The `try` body once `mkdir` has named the directory `dir`: make it,
      `saveResource(directory, urlString, EMPTY_STRING)`, `getSourceUrls` of
      the returned body, then the asset loop. */
  function ProcessInto(dir: String, url: String, env: Environment): Report
  {
    var start := [MakeDirectory(dir), Save(RootPlan(dir, url))];
    match Perform(RootPlan(dir, url), env)
    case Err(_) => Report(start, true)
    case Ok(contents) =>
      match GetSourceUrls(contents.value)
      case Err(_) => Report(start, true)
      case Ok(refs) =>
        var assets := SaveAll(AssetPlans(dir, refs, url), env);
        Report(start + assets.events, assets.failed)
  }

  /** Processing one address whose directory is `dir`: the directory is made
      first, the page is saved next, then each extracted reference is saved
      into the same directory, in order. The address fails when the page
      cannot be saved, when extraction throws, or when some reference cannot
      be saved; work stops at the first failure. */
  lemma {:induction false} ProcessIntoSpec(dir: String, url: String, env: Environment)
    ensures var r := ProcessInto(dir, url, env);
      && |r.events| >= 2
      && r.events[0] == MakeDirectory(dir)
      && r.events[1] == Save(RootPlan(dir, url))
    ensures var root := RootPlan(dir, url);
      env(root).Failed? || GetSourceUrls(env(root).body).Err? ==>
      ProcessInto(dir, url, env).failed && |ProcessInto(dir, url, env).events| == 2
    ensures var root := RootPlan(dir, url);
      env(root).Fetched? && GetSourceUrls(env(root).body).Ok? ==>
      var r := ProcessInto(dir, url, env);
      var plans := AssetPlans(dir, GetSourceUrls(env(root).body).value, url);
      && |r.events| <= 2 + |plans|
      && (forall k :: 2 <= k < |r.events| ==> r.events[k] == Save(plans[k - 2]))
      && (r.failed <==> exists k :: 0 <= k < |plans| && env(plans[k]).Failed?)
      && (!r.failed ==> |r.events| == 2 + |plans|)
  {
    ProcessIntoStart(dir, url, env);
    var root := RootPlan(dir, url);
    if env(root).Fetched? && GetSourceUrls(env(root).body).Ok? {
      AssetsAfterRoot(dir, url, env, GetSourceUrls(env(root).body).value);
    }
  }

  /** After a root save whose body yields `refs`, the address's remaining
      events are the asset loop over `refs`, and it fails exactly when one of
      their transfers fails. */
  lemma {:induction false} AssetsAfterRoot(dir: String, url: String, env: Environment, refs: seq<String>)
    requires env(RootPlan(dir, url)).Fetched? && GetSourceUrls(env(RootPlan(dir, url)).body) == Ok(refs)
    ensures var r := ProcessInto(dir, url, env);
      var plans := AssetPlans(dir, refs, url);
      && |r.events| <= 2 + |plans|
      && (forall k :: 2 <= k < |r.events| ==> r.events[k] == Save(plans[k - 2]))
      && (r.failed <==> exists k :: 0 <= k < |plans| && env(plans[k]).Failed?)
      && (!r.failed ==> |r.events| == 2 + |plans|)
  {
    var start := [MakeDirectory(dir), Save(RootPlan(dir, url))];
    var plans := AssetPlans(dir, refs, url);
    var assets := SaveAll(plans, env);
    AssetPhase(dir, url, env, refs);
    AssetEvents(start, plans, env);
    var r := ProcessInto(dir, url, env);
    assert r.events == start + assets.events && r.failed == assets.failed;
    assert |start| == 2;
  }

  /** An address's events start with its directory and its root save, and a
      failed root fetch or extraction ends them there, as a failure. */
  lemma {:induction false} ProcessIntoStart(dir: String, url: String, env: Environment)
    ensures var r := ProcessInto(dir, url, env);
      && |r.events| >= 2
      && r.events[0] == MakeDirectory(dir)
      && r.events[1] == Save(RootPlan(dir, url))
    ensures var root := RootPlan(dir, url);
      env(root).Failed? || GetSourceUrls(env(root).body).Err? ==>
      ProcessInto(dir, url, env).failed && |ProcessInto(dir, url, env).events| == 2
  {
    var root := RootPlan(dir, url);
    assert root.returnsBody;
    if env(root).Fetched? {
      assert Perform(root, env) == Ok(Some(env(root).body));
    }
  }

  /** The asset loop's events placed after `start`: one save per plan, in
      order, all of them unless a transfer fails. */
  lemma {:induction false} AssetEvents(start: seq<Event>, plans: seq<Plan>, env: Environment)
    ensures var assets := SaveAll(plans, env);
      var events := start + assets.events;
      && |events| <= |start| + |plans|
      && (forall k :: |start| <= k < |events| ==> events[k] == Save(plans[k - |start|]))
      && (assets.failed <==> exists k :: 0 <= k < |plans| && env(plans[k]).Failed?)
      && (!assets.failed ==> |events| == |start| + |plans|)
  {
    var assets := SaveAll(plans, env);
    var events := start + assets.events;
    forall k | |start| <= k < |events|
      ensures events[k] == Save(plans[k - |start|])
    {
      assert events[k] == assets.events[k - |start|];
    }
    SaveAllStops(plans, env);
  }

  /** The address's events once its references `refs` are extracted: the
      directory, the page, then the asset loop's events. */
  lemma {:induction false} AssetPhase(dir: String, url: String, env: Environment, refs: seq<String>)
    requires env(RootPlan(dir, url)).Fetched? && GetSourceUrls(env(RootPlan(dir, url)).body) == Ok(refs)
    ensures var assets := SaveAll(AssetPlans(dir, refs, url), env);
      ProcessInto(dir, url, env)
        == Report([MakeDirectory(dir), Save(RootPlan(dir, url))] + assets.events, assets.failed)
  {
    var root := RootPlan(dir, url);
    assert root.returnsBody;
    assert Perform(root, env) == Ok(Some(env(root).body));
  }

  /** The exit code and the events of a whole run. */
  datatype Run = Run(code: ExitCode, events: seq<Event>)

  /** Every block of events, one after the other. */
  function Concat(blocks: seq<seq<Event>>): seq<Event>
  {
    if |blocks| == 0 then [] else blocks[0] + Concat(blocks[1..])
  }

  /** The events of each report, in order. */
  function EventsOf(reports: seq<Report>): (b: seq<seq<Event>>)
    ensures |b| == |reports|
    ensures forall i :: 0 <= i < |reports| ==> b[i] == reports[i].events
  {
    seq(|reports|, i requires 0 <= i < |reports| => reports[i].events)
  }

  /** The loop `for (String urlString: args)` over what each address's `try`
      did, starting from exit code `code`: every address's events happen,
      whatever happened to the earlier ones, and a failure sets the code to
      "other error". */
  function Loop(reports: seq<Report>, code: ExitCode): (r: Run)
    ensures r.code == (if exists i :: 0 <= i < |reports| && reports[i].failed then OtherErr else code)
    ensures r.events == Concat(EventsOf(reports))
  {
    if |reports| == 0 then Run(code, [])
    else
      var rest := Loop(reports[1..], if reports[0].failed then OtherErr else code);
      assert EventsOf(reports) == [reports[0].events] + EventsOf(reports[1..]);
      assert (exists i :: 0 <= i < |reports| && reports[i].failed) <==>
        reports[0].failed || exists i :: 0 <= i < |reports[1..]| && reports[1..][i].failed
      by {
        if exists i :: 0 <= i < |reports| && reports[i].failed {
          var i :| 0 <= i < |reports| && reports[i].failed;
          if i > 0 {
            assert reports[1..][i - 1] == reports[i];
          }
        }
      }
      Run(rest.code, reports[0].events + rest.events)
  }

  /** What processing each address does, in argument order. */
  function Reports(args: seq<String>, env: Environment): (rs: seq<Report>)
    ensures |rs| == |args|
    ensures forall i :: 0 <= i < |args| ==> rs[i] == ProcessAddress(args[i], env)
  {
    seq(|args|, i requires 0 <= i < |args| => ProcessAddress(args[i], env))
  }

  /** Some address of `args` fails. */
  predicate SomeAddressFails(args: seq<String>, env: Environment)
  {
    exists i :: 0 <= i < |args| && ProcessAddress(args[i], env).failed
  }

  /** `main(args)`: usage error with no arguments, otherwise normal unless
      some address failed; gives the code passed to `System.exit` and the
      events in order, each address's in full. */
  function Main(args: seq<String>, env: Environment): (r: Run)
    ensures Ordinal(r.code) == (if |args| == 0 then 1 else if SomeAddressFails(args, env) then 2 else 0)
  {
    var reports := Reports(args, env);
    assert SomeAddressFails(args, env) <==> exists i :: 0 <= i < |reports| && reports[i].failed;
    Loop(reports, if |args| == 0 then UsageErr else Normal)
  }

  /** Directories are made one per address, each before anything is saved
      for that address: the first event of every address's block makes its
      directory and the second saves the address itself. */
  lemma {:induction false} DirectoryBeforeWrites(args: seq<String>, env: Environment, i: nat)
    requires i < |args|
    ensures var before := Concat(EventsOf(Reports(args[..i], env)));
      && |Main(args, env).events| >= |before| + 2
      && Main(args, env).events[|before|] == MakeDirectory(DirectoryName(args[i]))
      && Main(args, env).events[|before| + 1] == Save(RootPlan(DirectoryName(args[i]), args[i]))
  {
    var reports := Reports(args, env);
    var blocks := EventsOf(reports);
    var before, block, after := Concat(blocks[..i]), blocks[i], Concat(blocks[i + 1..]);
    ReportsPrefix(args, env, i);
    EventsOfPrefix(reports, i);
    ConcatSplit(blocks, i);
    ProcessIntoStart(DirectoryName(args[i]), args[i], env);
    InMiddle(before, block, after, 0);
    InMiddle(before, block, after, 1);
  }

  /** The middle part of a three-way concatenation starts where the first
      part ends. */
  lemma {:induction false} InMiddle(before: seq<Event>, block: seq<Event>, after: seq<Event>, j: nat)
    requires j < |block|
    ensures |before| + j < |before + block + after|
    ensures (before + block + after)[|before| + j] == block[j]
  {
    assert (before + block + after)[|before| + j] == (before + block)[|before| + j];
  }

  /** The reports of the first `i` addresses are the first `i` reports. */
  lemma {:induction false} ReportsPrefix(args: seq<String>, env: Environment, i: nat)
    requires i <= |args|
    ensures Reports(args[..i], env) == Reports(args, env)[..i]
  {
    var head, all := Reports(args[..i], env), Reports(args, env);
    forall k | 0 <= k < i
      ensures head[k] == all[k]
    {
      assert args[..i][k] == args[k];
    }
  }

  /** The events of the first `i` reports are the first `i` blocks. */
  lemma {:induction false} EventsOfPrefix(reports: seq<Report>, i: nat)
    requires i <= |reports|
    ensures EventsOf(reports[..i]) == EventsOf(reports)[..i]
  {
    var head, all := EventsOf(reports[..i]), EventsOf(reports);
    forall k | 0 <= k < i
      ensures head[k] == all[k]
    {
      assert reports[..i][k] == reports[k];
    }
  }

  /** Cutting the blocks at `i`: what precedes block `i` is the concatenation
      of the blocks before it. */
  lemma {:induction false} ConcatSplit(blocks: seq<seq<Event>>, i: nat)
    requires i < |blocks|
    ensures Concat(blocks) == Concat(blocks[..i]) + blocks[i] + Concat(blocks[i + 1..])
  {
    if i == 0 {
      assert blocks[..0] == [];
    } else {
      ConcatSplit(blocks[1..], i - 1);
      assert blocks[1..][..i - 1] == blocks[..i][1..];
      assert blocks[1..][i - 1] == blocks[i];
      assert blocks[1..][i..] == blocks[i + 1..];
    }
  }
}

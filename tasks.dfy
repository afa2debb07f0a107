/**
 * The task registry of Gruntfile.js: the `serve`, `test` and `build`
 * tasks that map a target to a list of tasks to queue, the
 * `concurrent:debug` group, and the alias tasks. A task reference is a
 * string `name` or `name:target`; grunt splits it at each colon and hands
 * the first field after the name to the task as its target.
 */
module Tasks {
  import opened Wrappers

  // ---------------------------------------------------------------------
  // Task references
  // ---------------------------------------------------------------------

  /** The fields of `s` between colons (grunt's `split(':')`). */
  function SplitColon(s: string): (r: seq<string>)
    ensures |r| >= 1
    ensures forall k :: 0 <= k < |r| ==> ':' !in r[k]
    decreases |s|
  {
    if s == [] then [""]
    else
      var rest := SplitColon(s[1..]);
      if s[0] == ':' then [""] + rest else [[s[0]] + rest[0]] + rest[1..]
  }

  /** The fields joined back with colons. */
  function JoinColon(parts: seq<string>): string
    requires |parts| >= 1
    decreases |parts|
  {
    if |parts| == 1 then parts[0] else parts[0] + ":" + JoinColon(parts[1..])
  }

  /** Splitting loses nothing: joining the fields gives the reference back. */
  lemma {:induction false} JoinSplit(s: string)
    ensures JoinColon(SplitColon(s)) == s
    decreases |s|
  {
    if s != [] {
      var rest := SplitColon(s[1..]);
      JoinSplit(s[1..]);
      if s[0] == ':' {
        assert SplitColon(s) == [""] + rest;
        assert ([""] + rest)[1..] == rest;
        assert s == ":" + s[1..];
      } else {
        var r := SplitColon(s);
        assert r[0] == [s[0]] + rest[0] && r[1..] == rest[1..];
        assert s == [s[0]] + s[1..];
        if |rest| > 1 {
          assert JoinColon(r) == [s[0]] + (rest[0] + ":" + JoinColon(rest[1..]));
        }
      }
    }
  }

  lemma {:induction false} SplitPlain(w: string)
    requires ':' !in w
    ensures SplitColon(w) == [w]
    decreases |w|
  {
    if w != [] {
      SplitPlain(w[1..]);
      assert [w[0]] + w[1..] == w;
    }
  }

  lemma {:induction false} SplitCons(w: string, t: string)
    requires ':' !in w
    ensures SplitColon(w + ":" + t) == [w] + SplitColon(t)
    decreases |w|
  {
    if w == [] {
      assert w + ":" + t == [':'] + t;
      assert (w + ":" + t)[1..] == t;
    } else {
      assert (w + ":" + t)[1..] == w[1..] + ":" + t;
      SplitCons(w[1..], t);
      assert [w[0]] + w[1..] == w;
    }
  }

  /** Colon-free fields survive a join and a split unchanged. */
  lemma {:induction false} SplitJoin(parts: seq<string>)
    requires |parts| >= 1 && forall k :: 0 <= k < |parts| ==> ':' !in parts[k]
    ensures SplitColon(JoinColon(parts)) == parts
    decreases |parts|
  {
    if |parts| == 1 {
      SplitPlain(parts[0]);
    } else {
      SplitJoin(parts[1..]);
      SplitCons(parts[0], JoinColon(parts[1..]));
      assert parts == [parts[0]] + parts[1..];
    }
  }

  /** A task reference: the task's name and the target it passes, if any. */
  datatype TaskRef = TaskRef(name: string, target: Option<string>)

  /** A reference without a target, `name`. */
  function Task(name: string): TaskRef
  {
    TaskRef(name, None)
  }

  /** A reference with a target, `name:target`. */
  function On(name: string, target: string): TaskRef
  {
    TaskRef(name, Some(target))
  }

  /** The reference as grunt reads it: the first field names the task, the second, if any, is its target. */
  function Parse(s: string): (t: TaskRef)
    ensures ':' !in t.name && (t.target.Some? ==> ':' !in t.target.value)
  {
    var parts := SplitColon(s);
    TaskRef(parts[0], if |parts| > 1 then Some(parts[1]) else None)
  }

  /** The reference written as a string. */
  function Render(t: TaskRef): string
  {
    if t.target.Some? then t.name + ":" + t.target.value else t.name
  }

  /** Parsing a written reference gives it back. */
  lemma ParseRender(t: TaskRef)
    requires ':' !in t.name && (t.target.Some? ==> ':' !in t.target.value)
    ensures Parse(Render(t)) == t
  {
    if t.target.Some? {
      SplitJoin([t.name, t.target.value]);
      assert JoinColon([t.name, t.target.value]) == Render(t);
    } else {
      SplitPlain(t.name);
    }
  }

  /** Writing a parsed reference with at most one colon gives the string back. */
  lemma RenderParse(s: string)
    requires |SplitColon(s)| <= 2
    ensures Render(Parse(s)) == s
  {
    JoinSplit(s);
  }

  /**
   * `target || d`: an absent target and the empty target both select the
   * default key.
   */
  function DefaultKey(target: Option<string>, d: string): (k: string)
    ensures (target.None? || target.value == []) ==> k == d
    ensures (target.Some? && target.value != []) ==> k == target.value
  {
    if target.Some? && target.value != [] then target.value else d
  }

  // ---------------------------------------------------------------------
  // The task tables
  // ---------------------------------------------------------------------

  /** The table inside the `serve` task. */
  function ServeTable(key: string): Option<seq<TaskRef>>
  {
    if key == "debug" then Some([On("env", "dev"), On("concurrent", "debug")])
    else if key == "dev" then
      Some([On("build", "dev"), On("env", "dev"), On("express", "dev"), On("node-inspector", "liveEdit"), Task("watch")])
    else if key == "liveEdit" then
      Some([On("build", "dev"), On("env", "dev"), On("express", "dev"), On("node-inspector", "liveEdit"), Task("watch")])
    else None
  }

  /** `serve`: the list for the target, `dev` by default; none for a key the table lacks. */
  function Serve(target: Option<string>): (r: Option<seq<TaskRef>>)
    ensures r.Some? <==> DefaultKey(target, "dev") in {"debug", "dev", "liveEdit"}
  {
    ServeTable(DefaultKey(target, "dev"))
  }

  /** The table inside the `test` task. */
  function TestTable(key: string): Option<seq<TaskRef>>
  {
    if key == "server" then Some([On("env", "dev"), Task("mochaTest")])
    else if key == "client" then Some([On("env", "dev"), Task("karma")])
    else if key == "e2e" then
      Some([On("express", "prod"), On("wait", "test"), On("protractor", "e2e"), On("wait", "test"),
            Task("trimJsonOutput"), Task("checkTestFailed")])
    else if key == "e2e_ci" then Some([])
    else if key == "dflt" then Some([On("test", "server"), On("test", "client")])
    else None
  }

  /** `test`: the list for the target, `dflt` by default; none for a key the table lacks. */
  function Test(target: Option<string>): (r: Option<seq<TaskRef>>)
    ensures r.Some? <==> DefaultKey(target, "dflt") in {"server", "client", "e2e", "e2e_ci", "dflt"}
  {
    TestTable(DefaultKey(target, "dflt"))
  }

  /** The seven steps `build` appends for a production target, in order. */
  const ProductionSteps: seq<TaskRef> :=
    [Task("ngAnnotate"), Task("exorcise"), Task("html2js"), On("copy", "dist"), Task("config-prod"),
     Task("cssmin"), Task("uglify")]

  /** The six steps every build starts with. */
  function BaseTasks(key: string): (r: seq<TaskRef>)
    ensures |r| == 6 && r[0] == On("clean", key)
  {
    [On("clean", key), Task("less"), Task("autoprefixer"), On("copy", "html"), On("copy", "dev"), Task("browserify")]
  }

  /** A development target: no production steps. */
  predicate IsDevTarget(key: string)
  {
    key == "dev" || key == "liveEdit"
  }

  /** The list `build` queues for a target. */
  function BuildTasks(target: Option<string>): (r: seq<TaskRef>)
    ensures var key := DefaultKey(target, "dev");
      |r| >= 6 && r[..6] == BaseTasks(key) &&
      (IsDevTarget(key) ==> |r| == 6) &&
      (!IsDevTarget(key) ==> |r| == 13 && r[6..] == ProductionSteps)
  {
    var key := DefaultKey(target, "dev");
    BaseTasks(key) + if IsDevTarget(key) then [] else ProductionSteps
  }

  /** The `build` task: the base list, then the production steps pushed one by one unless the target is a development one. */
  method Build(target: Option<string>) returns (tasks: seq<TaskRef>)
    ensures tasks == BuildTasks(target)
  {
    var key := if target.Some? && target.value != [] then target.value else "dev";
    tasks := [On("clean", key), Task("less"), Task("autoprefixer"), On("copy", "html"), On("copy", "dev"), Task("browserify")];
    if key != "dev" && key != "liveEdit" {
      tasks := tasks + [Task("ngAnnotate")];
      tasks := tasks + [Task("exorcise")];
      tasks := tasks + [Task("html2js")];
      tasks := tasks + [On("copy", "dist")];
      tasks := tasks + [Task("config-prod")];
      tasks := tasks + [Task("cssmin")];
      tasks := tasks + [Task("uglify")];
    }
  }

  /** The members of a `concurrent` group; only `debug` is configured. */
  function ConcurrentGroup(group: string): (r: Option<seq<TaskRef>>)
    ensures r.Some? <==> group == "debug"
  {
    if group == "debug" then Some([On("nodemon", "debug"), On("node-inspector", "custom")]) else None
  }

  /** The alias tasks, each a fixed list. */
  function Alias(name: string): (r: Option<seq<TaskRef>>)
    ensures r.Some? <==> name in {"start", "dist", "dev", "default", "liveEdit"}
  {
    if name == "start" then Some([On("env", "dev"), On("express", "dev"), Task("watch")])
    else if name == "dist" then Some([On("build", "dist")])
    else if name == "dev" then Some([On("build", "dev")])
    else if name == "default" then Some([On("build", "dev")])
    else if name == "liveEdit" then Some([On("serve", "liveEdit")])
    else None
  }

  // ---------------------------------------------------------------------
  // Full expansion
  // ---------------------------------------------------------------------

  /** What running a task does to the queue. */
  datatype Step =
    | Leaf                         // a task that does its work itself
    | Expands(tasks: seq<TaskRef>)  // a task that queues these tasks
    | Missing                      // a table task given a key its table lacks

  /** The names of the tasks that queue other tasks. */
  const Expanding: set<string> := {"serve", "test", "build", "start", "dist", "dev", "default", "liveEdit"}

  function FromTable(r: Option<seq<TaskRef>>): Step
  {
    if r.Some? then Expands(r.value) else Missing
  }

  /** The step a task takes; every name outside the expanding tasks does its own work. */
  function StepOf(t: TaskRef): (r: Step)
    ensures t.name !in Expanding <==> r == Leaf
  {
    if t.name == "serve" then FromTable(Serve(t.target))
    else if t.name == "test" then FromTable(Test(t.target))
    else if t.name == "build" then Expands(BuildTasks(t.target))
    else if Alias(t.name).Some? then Expands(Alias(t.name).value) // whatever the target
    else Leaf
  }

  /** A measure that every expansion lowers. */
  function Rank(t: TaskRef): nat
  {
    if t.name == "liveEdit" then 3
    else if t.name in {"serve", "dist", "dev", "default"} then 2
    else if t.name == "test" then (if DefaultKey(t.target, "dflt") == "dflt" then 2 else 1)
    else if t.name in {"build", "start"} then 1
    else 0
  }

  /** Every list a task queues is made of tasks of lower rank, so expansion ends. */
  lemma ExpansionDecreases(t: TaskRef)
    requires StepOf(t).Expands?
    ensures forall u <- StepOf(t).tasks :: Rank(u) < Rank(t)
  {
    if t.name == "serve" {
      ServeRanks(DefaultKey(t.target, "dev"));
    } else if t.name == "test" {
      TestRanks(DefaultKey(t.target, "dflt"));
    } else if t.name == "build" {
      BuildRanks(t.target);
    }
  }

  lemma ServeRanks(key: string)
    requires ServeTable(key).Some?
    ensures forall u <- ServeTable(key).value :: Rank(u) <= 1
  {
  }

  lemma TestRanks(key: string)
    requires TestTable(key).Some?
    ensures forall u <- TestTable(key).value :: Rank(u) < (if key == "dflt" then 2 else 1)
  {
    if key == "e2e" {
      E2eRanks();
    }
  }

  lemma E2eRanks()
    ensures forall u <- TestTable("e2e").value :: Rank(u) == 0
  {
    RankZero(On("express", "prod"));
    RankZero(On("wait", "test"));
    RankZero(On("protractor", "e2e"));
    RankZero(Task("trimJsonOutput"));
    RankZero(Task("checkTestFailed"));
  }

  lemma RankZero(t: TaskRef)
    ensures Rank(t) == 0 <==> t.name !in Expanding
  {
  }

  lemma BaseRanks(key: string)
    ensures forall u <- BaseTasks(key) :: Rank(u) == 0
  {
  }

  lemma ProductionRanks()
    ensures forall u <- ProductionSteps :: Rank(u) == 0
  {
  }

  lemma BuildRanks(target: Option<string>)
    ensures forall u <- BuildTasks(target) :: Rank(u) == 0
  {
    BaseRanks(DefaultKey(target, "dev"));
    ProductionRanks();
  }

  /**
   * The tasks a reference finally runs once every queued list has been
   * expanded in turn; `None` when some table task meets a key its table
   * lacks.
   */
  function FullExpand(t: TaskRef): (r: Option<seq<TaskRef>>)
    ensures r.Some? ==> forall u <- r.value :: StepOf(u) == Leaf
    decreases Rank(t), 1, 0
  {
    match StepOf(t)
    case Leaf => Some([t])
    case Missing => None
    case Expands(ts) =>
      ExpansionDecreases(t);
      FullExpandAll(ts, Rank(t))
  }

  /** The full expansions of a list, concatenated in order. */
  function FullExpandAll(ts: seq<TaskRef>, bound: nat): (r: Option<seq<TaskRef>>)
    requires forall u <- ts :: Rank(u) < bound
    ensures r.Some? ==> forall u <- r.value :: StepOf(u) == Leaf
    ensures r.Some? <==> forall k :: 0 <= k < |ts| ==> FullExpand(ts[k]).Some?
    decreases bound, 0, |ts|
  {
    if ts == [] then Some([])
    else
      var head := FullExpand(ts[0]);
      var tail := FullExpandAll(ts[1..], bound);
      assert forall k :: 1 <= k < |ts| ==> ts[1..][k - 1] == ts[k];
      if head.Some? && tail.Some? then Some(head.value + tail.value) else None
  }

  /** A task that does its own work expands to itself. */
  lemma LeafExpandsToItself(t: TaskRef)
    requires t.name !in Expanding
    ensures FullExpand(t) == Some([t])
  {
  }

  /** A list of leaves expands to itself. */
  lemma {:induction false} LeavesExpandToThemselves(ts: seq<TaskRef>, bound: nat)
    requires forall u <- ts :: u.name !in Expanding
    requires bound > 0
    ensures FullExpandAll(ts, bound) == Some(ts)
    decreases |ts|
  {
    if ts != [] {
      LeafExpandsToItself(ts[0]);
      LeavesExpandToThemselves(ts[1..], bound);
      assert ts == [ts[0]] + ts[1..];
    }
  }

  // ---------------------------------------------------------------------
  // Properties of the tables
  // ---------------------------------------------------------------------

  /** `serve` with no target is `serve:dev`; `dev` and `liveEdit` queue the same list, which starts by building for development. */
  lemma ServeDefaults()
    ensures Serve(None) == Serve(Some("")) == Serve(Some("dev"))
    ensures Serve(Some("dev")) == Serve(Some("liveEdit"))
    ensures Serve(Some("dev")).Some? && Serve(Some("dev")).value[0] == On("build", "dev")
  {
  }

  /** `serve:debug` runs the environment setup and the debug group, and builds nothing. */
  lemma ServeDebug()
    ensures Serve(Some("debug")) == Some([On("env", "dev"), On("concurrent", "debug")])
    ensures forall u <- Serve(Some("debug")).value :: u.name != "build"
    ensures ConcurrentGroup("debug") == Some([On("nodemon", "debug"), On("node-inspector", "custom")])
  {
  }

  /** `test` with no target runs the server and client suites. */
  lemma TestDefault()
    ensures Test(None) == Test(Some("")) == Some([On("test", "server"), On("test", "client")])
  {
  }

  /** A two-element list expands to the concatenation of the two expansions. */
  lemma ExpandPair(x: TaskRef, y: TaskRef, ex: seq<TaskRef>, ey: seq<TaskRef>, bound: nat)
    requires Rank(x) < bound && Rank(y) < bound
    requires FullExpand(x) == Some(ex) && FullExpand(y) == Some(ey)
    ensures FullExpandAll([x, y], bound) == Some(ex + ey)
  {
    assert [y][1..] == [];
    assert FullExpandAll([], bound) == Some([]);
    assert ey + [] == ey;
    assert FullExpandAll([y], bound) == Some(ey);
    assert [x, y][1..] == [y];
  }

  /** The server suite sets the environment, then runs the server tests. */
  lemma ServerSuite()
    ensures FullExpand(On("test", "server")) == Some([On("env", "dev"), Task("mochaTest")])
  {
    LeavesExpandToThemselves([On("env", "dev"), Task("mochaTest")], 1);
  }

  /** The client suite sets the environment, then runs the browser unit tests. */
  lemma ClientSuite()
    ensures FullExpand(On("test", "client")) == Some([On("env", "dev"), Task("karma")])
  {
    LeavesExpandToThemselves([On("env", "dev"), Task("karma")], 1);
  }

  /** Fully expanded, the default test run sets the environment before each suite. */
  lemma TestFullExpansion()
    ensures FullExpand(Task("test")) == Some([On("env", "dev"), Task("mochaTest"), On("env", "dev"), Task("karma")])
  {
    var server, client := [On("env", "dev"), Task("mochaTest")], [On("env", "dev"), Task("karma")];
    ServerSuite();
    ClientSuite();
    TestDefault();
    ExpandPair(On("test", "server"), On("test", "client"), server, client, 2);
    assert StepOf(Task("test")) == Expands([On("test", "server"), On("test", "client")]);
    assert server + client == [On("env", "dev"), Task("mochaTest"), On("env", "dev"), Task("karma")];
  }

  /** The end-to-end run trims and checks the report last, after the browser tests; the CI variant runs nothing. */
  lemma TestEndToEnd()
    ensures var ts := Test(Some("e2e")).value;
      |ts| == 6 && ts[2] == On("protractor", "e2e") && ts[4] == Task("trimJsonOutput") && ts[5] == Task("checkTestFailed")
    ensures Test(Some("e2e_ci")) == Some([])
  {
  }

  /** A key outside the five table keys queues no list, so its reference expands to nothing. */
  lemma TestUnknownKey(key: string)
    requires key != [] && key !in {"server", "client", "e2e", "e2e_ci", "dflt"}
    ensures Test(Some(key)).None?
    ensures FullExpand(On("test", key)).None?
  {
  }

  /** `build` with no target is `build:dev`, and every build starts with the base list. */
  lemma BuildDefaults(target: Option<string>)
    ensures BuildTasks(None) == BuildTasks(Some("")) == BuildTasks(Some("dev"))
    ensures BaseTasks(DefaultKey(target, "dev")) <= BuildTasks(target)
  {
  }

  /** A build queues only tasks that do their own work, so it fully expands to its own list. */
  lemma BuildFullExpansion(target: Option<string>)
    ensures FullExpand(TaskRef("build", target)) == Some(BuildTasks(target))
  {
    var ts := BuildTasks(target);
    BuildRanks(target);
    forall u <- ts ensures u.name !in Expanding { RankZero(u); }
    LeavesExpandToThemselves(ts, 1);
    var b := TaskRef("build", target);
    assert StepOf(b) == Expands(ts) && Rank(b) == 1;
  }

  /** Plain `grunt` runs the development build and nothing more. */
  lemma DefaultFullExpansion()
    ensures FullExpand(Task("default")) == Some(BuildTasks(Some("dev")))
    ensures |FullExpand(Task("default")).value| == 6
  {
    BuildFullExpansion(Some("dev"));
    var dev := BuildTasks(Some("dev"));
    assert [On("build", "dev")][1..] == [];
    assert dev + [] == dev;
  }

  /** Six tasks for a development target, thirteen ending in the production steps for any other. */
  lemma BuildLength(target: Option<string>)
    ensures IsDevTarget(DefaultKey(target, "dev")) <==> |BuildTasks(target)| == 6
    ensures !IsDevTarget(DefaultKey(target, "dev")) <==> |BuildTasks(target)| == 13
    ensures BuildTasks(Some("dist")) == BaseTasks("dist") + ProductionSteps
  {
  }

  /** The aliases: `default` and `dev` build for development, `dist` for production, `liveEdit` serves for live editing. */
  lemma Aliases()
    ensures Alias("default") == Alias("dev") == Some([On("build", "dev")])
    ensures Alias("dist") == Some([On("build", "dist")])
    ensures Alias("liveEdit") == Some([On("serve", "liveEdit")])
    ensures Alias("start") == Some([On("env", "dev"), On("express", "dev"), Task("watch")])
  {
  }

  /** A colon-free name and target written with a colon read back as that reference. */
  lemma ParseOn(name: string, target: string)
    requires ':' !in name && ':' !in target
    ensures Parse(name + ":" + target) == On(name, target)
  {
    ParseRender(On(name, target));
  }

  /** A plain name reads back as a reference without a target. */
  lemma ParsePlain(name: string)
    requires ':' !in name
    ensures Parse(name) == Task(name)
  {
    SplitPlain(name);
  }
}

/** The checkpoint upgrader: which migrations a checkpoint needs, and the loop
    that applies them in rounds of ready ones. */
module Upgrader {

  /** Tags are only compared for equality, so numbers serve for their names. */
  type Tag = nat

  /** A migration: an upgrader adds its tag, a downgrader removes it. */
  datatype Migration = Migration(upgrades: bool, depends: set<Tag>)

  /** Upgrader.by_tag; tag_set and untag_set are the tags of either kind. */
  type Registry = map<Tag, Migration>

  function TagSet(reg: Registry): set<Tag> { set t | t in reg && reg[t].upgrades }
  function UntagSet(reg: Registry): set<Tag> { set t | t in reg && !reg[t].upgrades }

  /** load_all accepts only dependencies on known tags. */
  ghost predicate Audited(reg: Registry) {
    forall t :: t in reg ==> reg[t].depends <= reg.Keys
  }

  predicate Ready(reg: Registry, t: Tag, tags: set<Tag>)
    requires t in reg
  {
    reg[t].depends <= tags
  }

  function ToApply(reg: Registry, tags: set<Tag>): set<Tag> {
    (TagSet(reg) - tags) + (UntagSet(reg) * tags)
  }

  function ReadySet(reg: Registry, todo: set<Tag>, tags: set<Tag>): set<Tag>
    requires todo <= reg.Keys
  {
    set t | t in todo && Ready(reg, t, tags)
  }

  /** The tags after a set of migrations, in whatever order. */
  function After(reg: Registry, tags: set<Tag>, run: set<Tag>): set<Tag> {
    tags + run * TagSet(reg) - run * UntagSet(reg)
  }

  datatype Outcome = Done(tags: set<Tag>) | Stuck(left: set<Tag>, tags: set<Tag>)

  /** The rounds of process_file. */
  function Rounds(reg: Registry, tags: set<Tag>, todo: set<Tag>): Outcome
    requires todo <= reg.Keys
    decreases |todo|
  {
    if todo == {} then Done(tags)
    else
      var ready := ReadySet(reg, todo, tags);
      if ready == {} then Stuck(todo, tags)
      else
        Shrinks(todo, ready);
        Rounds(reg, After(reg, tags, ready), todo - ready)
  }

  lemma Shrinks(a: set<Tag>, b: set<Tag>)
    requires b <= a && b != {}
    ensures |a - b| < |a|
  {
    assert a == (a - b) + b;
  }

  // ----- the result

  /** A completed run ends with all upgrades added and all downgrades removed,
      whatever the dependencies were. */
  lemma {:induction false} DoneResult(reg: Registry, tags: set<Tag>, todo: set<Tag>)
    requires todo <= reg.Keys && Rounds(reg, tags, todo).Done?
    ensures Rounds(reg, tags, todo).tags == After(reg, tags, todo)
    decreases |todo|
  {
    if todo != {} {
      var ready := ReadySet(reg, todo, tags);
      Shrinks(todo, ready);
      DoneResult(reg, After(reg, tags, ready), todo - ready);
    }
  }

  lemma FinalTags(reg: Registry, tags: set<Tag>)
    requires Rounds(reg, tags, ToApply(reg, tags)).Done?
    ensures Rounds(reg, tags, ToApply(reg, tags)).tags == tags + TagSet(reg) - UntagSet(reg)
  {
    DoneResult(reg, tags, ToApply(reg, tags));
  }

  /** A second run finds nothing to do. */
  lemma SecondRunIdle(reg: Registry, tags: set<Tag>)
    requires Rounds(reg, tags, ToApply(reg, tags)).Done?
    ensures var tags' := Rounds(reg, tags, ToApply(reg, tags)).tags;
            && ToApply(reg, tags') == {}
            && Rounds(reg, tags', ToApply(reg, tags')) == Done(tags')
  {
    FinalTags(reg, tags);
  }

  // ----- when a run of upgraders completes

  /** A cycle of dependencies among the tags of `todo`. */
  ghost predicate Cycle(reg: Registry, todo: set<Tag>, c: seq<Tag>) {
    && c != [] && (forall i :: 0 <= i < |c| ==> c[i] in todo && c[i] in reg)
    && (forall i :: 0 <= i < |c| - 1 ==> c[i + 1] in reg[c[i]].depends)
    && c[0] in reg[c[|c| - 1]].depends
  }

  /** Only upgraders are left, and none of them has been applied. */
  ghost predicate UpgradersOnly(reg: Registry, tags: set<Tag>, todo: set<Tag>) {
    && todo <= TagSet(reg) && todo !! tags
    && Audited(reg) && (forall t :: t in reg ==> t in tags || t in todo)
  }

  lemma RoundKeepsUpgradersOnly(reg: Registry, tags: set<Tag>, todo: set<Tag>)
    requires UpgradersOnly(reg, tags, todo)
    ensures var ready := ReadySet(reg, todo, tags);
            UpgradersOnly(reg, After(reg, tags, ready), todo - ready)
  {
  }

  /** A member of a cycle never becomes ready. */
  lemma {:induction false} CycleBlocks(reg: Registry, tags: set<Tag>, todo: set<Tag>, c: seq<Tag>)
    requires UpgradersOnly(reg, tags, todo) && Cycle(reg, todo, c)
    ensures Rounds(reg, tags, todo).Stuck?
    decreases |todo|
  {
    var ready := ReadySet(reg, todo, tags);
    forall i | 0 <= i < |c| ensures c[i] !in ready {
      var next := if i < |c| - 1 then c[i + 1] else c[0];
      assert next in reg[c[i]].depends && next !in tags;
    }
    if ready != {} {
      Shrinks(todo, ready);
      RoundKeepsUpgradersOnly(reg, tags, todo);
      CycleBlocks(reg, After(reg, tags, ready), todo - ready, c);
    }
  }

  lemma {:induction false} DistinctFits(p: seq<Tag>, s: set<Tag>)
    requires forall i, j :: 0 <= i < j < |p| ==> p[i] != p[j]
    requires forall i :: 0 <= i < |p| ==> p[i] in s
    ensures |p| <= |s|
  {
    if p != [] {
      var x := p[|p| - 1];
      DistinctFits(p[..|p| - 1], s - {x});
    }
  }

  /** A dependency of t is itself still to be applied. */
  ghost predicate Waits(reg: Registry, todo: set<Tag>, t: Tag)
    requires t in reg
  {
    exists d :: d in reg[t].depends && d in todo
  }

  /** Distinct tags of `todo`, each waiting for the next. */
  ghost predicate WaitPath(reg: Registry, todo: set<Tag>, p: seq<Tag>) {
    && p != [] && (forall i :: 0 <= i < |p| ==> p[i] in todo && p[i] in reg)
    && (forall i, j :: 0 <= i < j < |p| ==> p[i] != p[j])
    && (forall i :: 0 <= i < |p| - 1 ==> p[i + 1] in reg[p[i]].depends)
  }

  lemma PathClosesCycle(reg: Registry, todo: set<Tag>, p: seq<Tag>, k: nat)
    requires WaitPath(reg, todo, p) && k < |p| && p[k] in reg[p[|p| - 1]].depends
    ensures Cycle(reg, todo, p[k..])
  {
    var c := p[k..];
    assert forall i :: 0 <= i < |c| ==> c[i] == p[k + i];
    assert c[|c| - 1] == p[|p| - 1];
  }

  lemma PathExtends(reg: Registry, todo: set<Tag>, p: seq<Tag>, d: Tag)
    requires WaitPath(reg, todo, p) && d in todo && d in reg && d !in p && d in reg[p[|p| - 1]].depends
    ensures WaitPath(reg, todo, p + [d])
  {
  }

  /** Where everything waits for something that waits too, following the waits
      runs into a cycle. */
  lemma {:induction false} WaitsFindCycle(reg: Registry, todo: set<Tag>, p: seq<Tag>) returns (c: seq<Tag>)
    requires todo <= reg.Keys
    requires forall t {:trigger Waits(reg, todo, t)} :: t in todo ==> Waits(reg, todo, t)
    requires WaitPath(reg, todo, p)
    ensures Cycle(reg, todo, c)
    decreases |todo| - |p|
  {
    assert Waits(reg, todo, p[|p| - 1]);
    var d :| d in reg[p[|p| - 1]].depends && d in todo;
    if d in p {
      var k :| 0 <= k < |p| && p[k] == d;
      PathClosesCycle(reg, todo, p, k);
      c := p[k..];
    } else {
      PathExtends(reg, todo, p, d);
      DistinctFits(p + [d], todo);
      c := WaitsFindCycle(reg, todo, p + [d]);
    }
  }

  lemma NoneReadyAllWait(reg: Registry, tags: set<Tag>, todo: set<Tag>)
    requires UpgradersOnly(reg, tags, todo) && ReadySet(reg, todo, tags) == {}
    ensures forall t {:trigger Waits(reg, todo, t)} :: t in todo ==> Waits(reg, todo, t)
  {
    forall t | t in todo ensures Waits(reg, todo, t) {
      assert t !in ReadySet(reg, todo, tags) && !Ready(reg, t, tags);
      var d :| d in reg[t].depends && d !in tags;
    }
  }

  lemma {:induction false} StuckHasCycle(reg: Registry, tags: set<Tag>, todo: set<Tag>) returns (c: seq<Tag>)
    requires UpgradersOnly(reg, tags, todo) && Rounds(reg, tags, todo).Stuck?
    ensures Cycle(reg, todo, c)
    decreases |todo|
  {
    var ready := ReadySet(reg, todo, tags);
    if ready == {} {
      NoneReadyAllWait(reg, tags, todo);
      var t :| t in todo;
      c := WaitsFindCycle(reg, todo, [t]);
    } else {
      Shrinks(todo, ready);
      RoundKeepsUpgradersOnly(reg, tags, todo);
      c := StuckHasCycle(reg, After(reg, tags, ready), todo - ready);
    }
  }

  /** Main result for scheduling: with upgraders only and audited dependencies,
      the loop aborts exactly when the tags to apply contain a cycle. */
  lemma AbortsExactlyOnCycle(reg: Registry, tags: set<Tag>)
    requires Audited(reg) && UntagSet(reg) == {}
    ensures Rounds(reg, tags, ToApply(reg, tags)).Stuck? <==>
            exists c :: Cycle(reg, ToApply(reg, tags), c)
  {
    var todo := ToApply(reg, tags);
    assert forall t :: t in reg ==> t in TagSet(reg) || t in UntagSet(reg);
    if Rounds(reg, tags, todo).Stuck? {
      var c := StuckHasCycle(reg, tags, todo);
    }
    if exists c :: Cycle(reg, todo, c) {
      var c :| Cycle(reg, todo, c);
      CycleBlocks(reg, tags, todo, c);
    }
  }

  // ----- when any run completes

  /** An upgrade is due exactly while its tag is missing, a downgrade exactly
      while its tag is there. */
  ghost predicate Tidy(reg: Registry, tags: set<Tag>, todo: set<Tag>) {
    && todo <= reg.Keys
    && forall t :: t in reg ==> (t in todo <==> if reg[t].upgrades then t !in tags else t in tags)
  }

  lemma RoundKeepsTidy(reg: Registry, tags: set<Tag>, todo: set<Tag>)
    requires Tidy(reg, tags, todo)
    ensures var ready := ReadySet(reg, todo, tags); Tidy(reg, After(reg, tags, ready), todo - ready)
  {
  }

  /** An upgrade that t waits for. */
  predicate WaitsFor(reg: Registry, todo: set<Tag>, t: Tag, u: Tag)
    requires t in reg
  {
    u in reg[t].depends && u in todo && u in reg && reg[u].upgrades
  }

  /** Depth of a migration: the longest chain of upgrades that must run before
      it. */
  ghost predicate Deep(reg: Registry, todo: set<Tag>, depth: map<Tag, nat>, t: Tag)
    requires t in reg && t in todo && depth.Keys == todo
  {
    && (forall u :: WaitsFor(reg, todo, t, u) ==> depth[u] < depth[t])
    && (depth[t] > 0 ==> exists u :: WaitsFor(reg, todo, t, u) && depth[u] + 1 == depth[t])
  }

  /** What else t depends on: an unknown tag must be there, and a tag with a
      downgrader must be there and not be removed at a smaller depth. */
  ghost predicate InTime(reg: Registry, tags: set<Tag>, todo: set<Tag>, depth: map<Tag, nat>, t: Tag)
    requires t in reg && t in todo && depth.Keys == todo
  {
    forall d :: d in reg[t].depends ==>
      && (d !in reg ==> d in tags)
      && (d in reg && !reg[d].upgrades ==> d in todo && depth[t] <= depth[d])
  }

  ghost predicate Schedule(reg: Registry, tags: set<Tag>, todo: set<Tag>, depth: map<Tag, nat>) {
    && todo <= reg.Keys && depth.Keys == todo
    && forall t :: t in todo ==> Deep(reg, todo, depth, t) && InTime(reg, tags, todo, depth, t)
  }

  /** The migrations of depth zero are the ready ones. */
  lemma ZeroIsReady(reg: Registry, tags: set<Tag>, todo: set<Tag>, depth: map<Tag, nat>, t: Tag)
    requires Tidy(reg, tags, todo) && Schedule(reg, tags, todo, depth) && t in todo
    ensures t in ReadySet(reg, todo, tags) <==> depth[t] == 0
  {
    assert Deep(reg, todo, depth, t) && InTime(reg, tags, todo, depth, t);
    if depth[t] == 0 {
      forall d | d in reg[t].depends ensures d in tags {
        if d in reg && reg[d].upgrades && d !in tags {
          assert WaitsFor(reg, todo, t, d);
        }
      }
    } else {
      var u :| WaitsFor(reg, todo, t, u) && depth[u] + 1 == depth[t];
      assert u in reg[t].depends && u !in tags;
    }
  }

  lemma {:induction false} ZeroExists(reg: Registry, tags: set<Tag>, todo: set<Tag>, depth: map<Tag, nat>, t: Tag)
    returns (z: Tag)
    requires Schedule(reg, tags, todo, depth) && t in todo
    ensures z in todo && depth[z] == 0
    decreases depth[t]
  {
    if depth[t] == 0 {
      z := t;
    } else {
      assert Deep(reg, todo, depth, t);
      var u :| WaitsFor(reg, todo, t, u) && depth[u] + 1 == depth[t];
      z := ZeroExists(reg, tags, todo, depth, u);
    }
  }

  lemma ReadyLevel(reg: Registry, tags: set<Tag>, todo: set<Tag>, depth: map<Tag, nat>)
    requires Tidy(reg, tags, todo) && Schedule(reg, tags, todo, depth)
    ensures forall t :: t in todo ==> (t in ReadySet(reg, todo, tags) <==> depth[t] == 0)
  {
    forall t | t in todo ensures t in ReadySet(reg, todo, tags) <==> depth[t] == 0 {
      ZeroIsReady(reg, tags, todo, depth, t);
    }
  }

  /** One round takes one level off the schedule. */
  lemma ScheduleShrinks(reg: Registry, tags: set<Tag>, todo: set<Tag>, depth: map<Tag, nat>, ready: set<Tag>,
                        depth': map<Tag, nat>)
    requires Schedule(reg, tags, todo, depth) && ready <= todo && depth'.Keys == todo - ready
    requires forall t :: t in todo ==> (t in ready <==> depth[t] == 0)
    requires forall t :: t in todo - ready ==> depth'[t] + 1 == depth[t]
    ensures Schedule(reg, After(reg, tags, ready), todo - ready, depth')
  {
    var rest := todo - ready;
    forall t | t in rest
      ensures Deep(reg, rest, depth', t) && InTime(reg, After(reg, tags, ready), rest, depth', t)
    {
      assert Deep(reg, todo, depth, t) && InTime(reg, tags, todo, depth, t);
      LevelDrops(reg, tags, todo, depth, ready, depth', t);
    }
  }

  lemma LevelDrops(reg: Registry, tags: set<Tag>, todo: set<Tag>, depth: map<Tag, nat>, ready: set<Tag>,
                   depth': map<Tag, nat>, t: Tag)
    requires todo <= reg.Keys && depth.Keys == todo && depth'.Keys == todo - ready && t in todo - ready
    requires Deep(reg, todo, depth, t) && InTime(reg, tags, todo, depth, t)
    requires forall u :: u in todo ==> (u in ready <==> depth[u] == 0)
    requires forall u :: u in todo - ready ==> depth'[u] + 1 == depth[u]
    ensures Deep(reg, todo - ready, depth', t)
    ensures InTime(reg, After(reg, tags, ready), todo - ready, depth', t)
  {
    var rest := todo - ready;
    forall u: Tag | WaitsFor(reg, rest, t, u) ensures depth'[u] < depth'[t] {
      assert WaitsFor(reg, todo, t, u);
    }
    if depth'[t] > 0 {
      var u :| WaitsFor(reg, todo, t, u) && depth[u] + 1 == depth[t];
      assert WaitsFor(reg, rest, t, u) && depth'[u] + 1 == depth'[t];
    }
  }

  lemma NextSchedule(reg: Registry, tags: set<Tag>, todo: set<Tag>, depth: map<Tag, nat>)
    returns (depth': map<Tag, nat>)
    requires Tidy(reg, tags, todo) && Schedule(reg, tags, todo, depth) && todo != {}
    ensures var ready := ReadySet(reg, todo, tags);
            && ready != {} && Tidy(reg, After(reg, tags, ready), todo - ready)
            && Schedule(reg, After(reg, tags, ready), todo - ready, depth')
  {
    var ready := ReadySet(reg, todo, tags);
    var t :| t in todo;
    var z := ZeroExists(reg, tags, todo, depth, t);
    ReadyLevel(reg, tags, todo, depth);
    RoundKeepsTidy(reg, tags, todo);
    depth' := map t | t in todo - ready :: depth[t] - 1;
    ScheduleShrinks(reg, tags, todo, depth, ready, depth');
  }

  lemma {:induction false} ScheduleCompletes(reg: Registry, tags: set<Tag>, todo: set<Tag>, depth: map<Tag, nat>)
    requires Tidy(reg, tags, todo) && Schedule(reg, tags, todo, depth)
    ensures Rounds(reg, tags, todo).Done?
    decreases |todo|
  {
    if todo != {} {
      var ready := ReadySet(reg, todo, tags);
      var depth' := NextSchedule(reg, tags, todo, depth);
      Shrinks(todo, ready);
      ScheduleCompletes(reg, After(reg, tags, ready), todo - ready, depth');
    }
  }

  /** A round in front of a schedule adds a level to it. */
  lemma ScheduleGrows(reg: Registry, tags: set<Tag>, todo: set<Tag>, depth': map<Tag, nat>, t: Tag)
    requires Tidy(reg, tags, todo) && t in todo
    requires var ready := ReadySet(reg, todo, tags); Schedule(reg, After(reg, tags, ready), todo - ready, depth')
    ensures var ready := ReadySet(reg, todo, tags);
            var depth := map u | u in todo :: if u in ready then 0 else depth'[u] + 1;
            Deep(reg, todo, depth, t) && InTime(reg, tags, todo, depth, t)
  {
    var ready := ReadySet(reg, todo, tags);
    var rest := todo - ready;
    var depth := map u | u in todo :: if u in ready then 0 else depth'[u] + 1;
    if t in ready {
      assert Ready(reg, t, tags);
    } else {
      assert Deep(reg, rest, depth', t) && InTime(reg, After(reg, tags, ready), rest, depth', t);
      forall u: Tag | WaitsFor(reg, todo, t, u) ensures depth[u] < depth[t] {
        assert u !in ready ==> WaitsFor(reg, rest, t, u);
      }
      if depth'[t] > 0 {
        var u :| WaitsFor(reg, rest, t, u) && depth'[u] + 1 == depth'[t];
        assert WaitsFor(reg, todo, t, u) && depth[u] + 1 == depth[t];
      } else {
        MissingDependency(reg, tags, todo, depth', t);
        var u :| WaitsFor(reg, todo, t, u) && u in ready;
        assert depth[u] + 1 == depth[t];
      }
    }
  }

  /** A migration of the second round waits for one of the first. */
  lemma MissingDependency(reg: Registry, tags: set<Tag>, todo: set<Tag>, depth': map<Tag, nat>, t: Tag)
    requires Tidy(reg, tags, todo) && t in todo && t !in ReadySet(reg, todo, tags)
    requires var ready := ReadySet(reg, todo, tags);
             && depth'.Keys == todo - ready && depth'[t] == 0
             && Deep(reg, todo - ready, depth', t) && InTime(reg, After(reg, tags, ready), todo - ready, depth', t)
    ensures exists u :: WaitsFor(reg, todo, t, u) && u in ReadySet(reg, todo, tags)
  {
    var ready := ReadySet(reg, todo, tags);
    assert !Ready(reg, t, tags);
    var d :| d in reg[t].depends && d !in tags;
    assert d in reg && reg[d].upgrades;
    assert WaitsFor(reg, todo, t, d);
    assert !WaitsFor(reg, todo - ready, t, d);
  }

  lemma {:induction false} CompletedSchedule(reg: Registry, tags: set<Tag>, todo: set<Tag>)
    returns (depth: map<Tag, nat>)
    requires Tidy(reg, tags, todo) && Rounds(reg, tags, todo).Done?
    ensures Schedule(reg, tags, todo, depth)
    decreases |todo|
  {
    if todo == {} {
      depth := map[];
    } else {
      var ready := ReadySet(reg, todo, tags);
      Shrinks(todo, ready);
      RoundKeepsTidy(reg, tags, todo);
      var depth' := CompletedSchedule(reg, After(reg, tags, ready), todo - ready);
      depth := map u | u in todo :: if u in ready then 0 else depth'[u] + 1;
      forall t | t in todo ensures Deep(reg, todo, depth, t) && InTime(reg, tags, todo, depth, t) {
        ScheduleGrows(reg, tags, todo, depth', t);
      }
    }
  }

  /** Main result for all registries, with downgraders and whatever dependencies:
      the loop completes exactly when every migration has a depth and none
      depends on a tag that is missing for good or removed at a smaller depth. */
  lemma CompletesExactly(reg: Registry, tags: set<Tag>)
    ensures Rounds(reg, tags, ToApply(reg, tags)).Done? <==>
            exists depth :: Schedule(reg, tags, ToApply(reg, tags), depth)
  {
    var todo := ToApply(reg, tags);
    assert Tidy(reg, tags, todo);
    if Rounds(reg, tags, todo).Done? {
      var depth := CompletedSchedule(reg, tags, todo);
    }
    if exists depth :: Schedule(reg, tags, todo, depth) {
      var depth :| Schedule(reg, tags, todo, depth);
      ScheduleCompletes(reg, tags, todo, depth);
    }
  }

  /** A downgrade that is ready too early: it needs nothing and goes in the first
      round, together with the upgrade that the third migration waits for. */
  const TRIO: Registry := map[0 := Migration(false, {}), 1 := Migration(true, {}), 2 := Migration(true, {0, 1})]

  lemma TrioReady()
    ensures ReadySet(TRIO, {0, 1, 2}, {0}) == {0, 1}
  {
    assert Ready(TRIO, 0, {0}) && Ready(TRIO, 1, {0});
    assert !Ready(TRIO, 2, {0}) by { assert 1 in TRIO[2].depends; }
  }

  lemma TrioTags()
    ensures TagSet(TRIO) == {1, 2} && UntagSet(TRIO) == {0}
  {
  }

  /** Without any cycle the run aborts. */
  lemma EarlyRemovalAborts()
    ensures Rounds(TRIO, {0}, ToApply(TRIO, {0})).Stuck?
  {
    var todo: set<Tag> := {0, 1, 2};
    TrioTags();
    TrioReady();
    assert ToApply(TRIO, {0}) == todo;
    Shrinks(todo, {0, 1});
    RemovedDependencyBlocks(TRIO, After(TRIO, {0}, {0, 1}), todo - {0, 1}, 2, 0);
  }

  // ----- the orders a run may take

  ghost function Elems(log: seq<Tag>): set<Tag> { set t | t in log }

  lemma ElemsConcat(a: seq<Tag>, b: seq<Tag>)
    ensures Elems(a + b) == Elems(a) + Elems(b)
  {
  }

  ghost predicate Lists(log: seq<Tag>, s: set<Tag>) {
    Elems(log) == s && |log| == |s|
  }

  /** The logs of completed runs: round after round, the ready migrations of a
      round in any order. */
  ghost predicate Logs(reg: Registry, tags: set<Tag>, todo: set<Tag>, log: seq<Tag>)
    requires todo <= reg.Keys
    decreases |todo|
  {
    if todo == {} then log == []
    else
      var ready := ReadySet(reg, todo, tags);
      && ready != {} && |ready| <= |log| && Lists(log[..|ready|], ready)
      && (Shrinks(todo, ready); Logs(reg, After(reg, tags, ready), todo - ready, log[|ready|..]))
  }

  lemma LogsCons(reg: Registry, tags: set<Tag>, todo: set<Tag>, round: seq<Tag>, log: seq<Tag>)
    requires todo <= reg.Keys && todo != {}
    requires var ready := ReadySet(reg, todo, tags);
             ready != {} && Lists(round, ready) && Logs(reg, After(reg, tags, ready), todo - ready, log)
    ensures Logs(reg, tags, todo, round + log)
  {
    var all := round + log;
    assert all[..|round|] == round && all[|round|..] == log;
  }

  lemma ListsCons(t: Tag, rest: seq<Tag>, s: set<Tag>)
    requires t in s && Lists(rest, s - {t})
    ensures Lists([t] + rest, s)
  {
    ElemsConcat([t], rest);
    assert Elems([t]) == {t};
  }

  lemma {:induction false} Listing(s: set<Tag>) returns (log: seq<Tag>)
    ensures Lists(log, s)
    decreases |s|
  {
    if s == {} {
      log := [];
    } else {
      var t :| t in s;
      var rest := Listing(s - {t});
      ListsCons(t, rest, s);
      log := [t] + rest;
    }
  }

  lemma {:induction false} SomeLog(reg: Registry, tags: set<Tag>, todo: set<Tag>) returns (log: seq<Tag>)
    requires todo <= reg.Keys && Rounds(reg, tags, todo).Done?
    ensures Logs(reg, tags, todo, log)
    decreases |todo|
  {
    log := [];
    if todo != {} {
      var ready := ReadySet(reg, todo, tags);
      Shrinks(todo, ready);
      var round := Listing(ready);
      log := SomeLog(reg, After(reg, tags, ready), todo - ready);
      LogsCons(reg, tags, todo, round, log);
      log := round + log;
    }
  }

  lemma {:induction false} LogCovers(reg: Registry, tags: set<Tag>, todo: set<Tag>, log: seq<Tag>)
    requires todo <= reg.Keys && Logs(reg, tags, todo, log)
    ensures Lists(log, todo)
    decreases |todo|
  {
    if todo != {} {
      var ready := ReadySet(reg, todo, tags);
      Shrinks(todo, ready);
      LogCovers(reg, After(reg, tags, ready), todo - ready, log[|ready|..]);
      assert log == log[..|ready|] + log[|ready|..];
      ListsConcat(log[..|ready|], ready, log[|ready|..], todo);
    }
  }

  lemma ListsConcat(a: seq<Tag>, s: set<Tag>, b: seq<Tag>, all: set<Tag>)
    requires Lists(a, s) && Lists(b, all - s) && s <= all
    ensures Lists(a + b, all)
  {
    ElemsConcat(a, b);
    assert s + (all - s) == all;
  }

  // ----- dependencies on tags that are to be removed

  /** The documented meaning of such a dependency: the tag, if it was there, has
      been removed by the time the migration runs. */
  ghost predicate WaitsForRemovals(reg: Registry, tags: set<Tag>, log: seq<Tag>) {
    forall i, d :: 0 <= i < |log| && log[i] in reg && d in reg[log[i]].depends && d in UntagSet(reg) && d in tags ==>
      d in log[..i]
  }

  /** A ready migration can go first. */
  lemma ReadyFirst(reg: Registry, tags: set<Tag>, todo: set<Tag>, t: Tag) returns (log: seq<Tag>)
    requires todo <= reg.Keys && Rounds(reg, tags, todo).Done? && t in ReadySet(reg, todo, tags)
    ensures Logs(reg, tags, todo, log) && log != [] && log[0] == t
  {
    var ready := ReadySet(reg, todo, tags);
    Shrinks(todo, ready);
    var others := Listing(ready - {t});
    var later := SomeLog(reg, After(reg, tags, ready), todo - ready);
    ListsCons(t, others, ready);
    LogsCons(reg, tags, todo, [t] + others, later);
    log := [t] + others + later;
  }

  /** In a run that completes, a migration that depends on a tag with a
      downgrader does not come in a later round than the removal. */
  lemma RemovalNotEarlier(reg: Registry, tags: set<Tag>, todo: set<Tag>, t: Tag, d: Tag)
    requires todo <= reg.Keys && Rounds(reg, tags, todo).Done?
    requires t in todo && d in reg[t].depends && d in UntagSet(reg)
    ensures var ready := ReadySet(reg, todo, tags);
            if t in ready then d in tags
            else ready != {} && d !in ready && Rounds(reg, After(reg, tags, ready), todo - ready).Done?
  {
    var ready := ReadySet(reg, todo, tags);
    if t in ready {
      assert Ready(reg, t, tags);
    } else if d in ready {
      Shrinks(todo, ready);
      RemovedDependencyBlocks(reg, After(reg, tags, ready), todo - ready, t, d);
      assert false;
    }
  }

  lemma Prepended(round: seq<Tag>, later: seq<Tag>, k: nat, t: Tag, d: Tag)
    requires k < |later| && later[k] == t && d !in later[..k] && d !in round
    ensures var log := round + later;
            var i := |round| + k;
            i < |log| && log[i] == t && d !in log[..i]
  {
    assert (round + later)[..|round| + k] == round + later[..k];
  }

  /** A migration that depends on a tag with a downgrader can always come before
      the removal. */
  lemma {:induction false} ContraryLog(reg: Registry, tags: set<Tag>, todo: set<Tag>, t: Tag, d: Tag)
    returns (log: seq<Tag>, i: nat)
    requires todo <= reg.Keys && Rounds(reg, tags, todo).Done?
    requires t in todo && d in reg[t].depends && d in UntagSet(reg)
    ensures Logs(reg, tags, todo, log) && d in tags
    ensures i < |log| && log[i] == t && d !in log[..i]
    decreases |todo|
  {
    var ready := ReadySet(reg, todo, tags);
    RemovalNotEarlier(reg, tags, todo, t, d);
    if t in ready {
      log := ReadyFirst(reg, tags, todo, t);
      i := 0;
    } else {
      Shrinks(todo, ready);
      var later, k := ContraryLog(reg, After(reg, tags, ready), todo - ready, t, d);
      log, i := RoundBefore(reg, tags, todo, t, d, later, k);
    }
  }

  lemma RoundBefore(reg: Registry, tags: set<Tag>, todo: set<Tag>, t: Tag, d: Tag, later: seq<Tag>, k: nat)
    returns (log: seq<Tag>, i: nat)
    requires todo <= reg.Keys && todo != {}
    requires var ready := ReadySet(reg, todo, tags);
             ready != {} && d !in ready && Logs(reg, After(reg, tags, ready), todo - ready, later)
    requires k < |later| && later[k] == t && d !in later[..k]
    ensures Logs(reg, tags, todo, log)
    ensures i < |log| && log[i] == t && d !in log[..i]
  {
    var round := Listing(ReadySet(reg, todo, tags));
    LogsCons(reg, tags, todo, round, later);
    assert d !in Elems(round);
    Prepended(round, later, k, t, d);
    log, i := round + later, |round| + k;
  }

  /** The code asks for the tag to be present instead.  So all runs that complete
      have the documented meaning, whatever order the rounds are visited in,
      exactly when no migration to apply depends on a tag with a downgrader. */
  lemma RemovalOrderExactly(reg: Registry, tags: set<Tag>, todo: set<Tag>)
    requires todo <= reg.Keys && Rounds(reg, tags, todo).Done?
    ensures (forall log :: Logs(reg, tags, todo, log) ==> WaitsForRemovals(reg, tags, log)) <==>
            forall t :: t in todo ==> reg[t].depends !! UntagSet(reg)
  {
    if forall t :: t in todo ==> reg[t].depends !! UntagSet(reg) {
      forall log | Logs(reg, tags, todo, log) ensures WaitsForRemovals(reg, tags, log) {
        LogCovers(reg, tags, todo, log);
        assert forall i :: 0 <= i < |log| ==> log[i] in Elems(log);
      }
    } else {
      var t :| t in todo && !(reg[t].depends !! UntagSet(reg));
      var d :| d in reg[t].depends && d in UntagSet(reg);
      var log, i := ContraryLog(reg, tags, todo, t, d);
      assert !WaitsForRemovals(reg, tags, log);
    }
  }

  /** A downgrade and an upgrade that depends on its tag. */
  const PAIR: Registry := map[0 := Migration(false, {}), 1 := Migration(true, {0})]

  lemma PairRun()
    ensures ToApply(PAIR, {0}) == {0, 1} && ReadySet(PAIR, {0, 1}, {0}) == {0, 1}
    ensures After(PAIR, {0}, {0, 1}) == {1} && Rounds(PAIR, {0}, {0, 1}) == Done({1})
  {
    var todo: set<Tag> := {0, 1};
    assert ToApply(PAIR, {0}) == todo && ReadySet(PAIR, todo, {0}) == todo && After(PAIR, {0}, todo) == {1};
    assert todo - todo == {};
  }

  lemma PairLog(log: seq<Tag>)
    requires Lists(log, {0, 1})
    ensures Logs(PAIR, {0}, {0, 1}, log)
  {
    var todo: set<Tag> := {0, 1};
    PairRun();
    assert todo - todo == {} && log + [] == log;
    LogsCons(PAIR, {0}, todo, log, []);
  }

  /** A single run may have the documented meaning by luck: here downgrade and
      upgrade are ready together, and the order of the visit decides. */
  lemma OrderDecides()
    ensures Rounds(PAIR, {0}, ToApply(PAIR, {0})) == Done({1})
    ensures Logs(PAIR, {0}, {0, 1}, [0, 1]) && WaitsForRemovals(PAIR, {0}, [0, 1])
    ensures Logs(PAIR, {0}, {0, 1}, [1, 0]) && !WaitsForRemovals(PAIR, {0}, [1, 0])
  {
    PairRun();
    assert Lists([0, 1], {0, 1}) && Lists([1, 0], {0, 1});
    PairLog([0, 1]);
    PairLog([1, 0]);
    PairOrders([0, 1], [1, 0]);
  }

  lemma PairOrders(a: seq<Tag>, b: seq<Tag>)
    requires a == [0, 1] && b == [1, 0]
    ensures WaitsForRemovals(PAIR, {0}, a) && !WaitsForRemovals(PAIR, {0}, b)
  {
    assert a[..1] == [0] && a[..0] == [];
    assert b[..0] == [] && b[0] == 1 && 0 in PAIR[1].depends && 0 in UntagSet(PAIR);
  }

  /** Once the tag has been removed, a migration that depends on it is never
      ready: the run aborts. */
  lemma {:induction false} RemovedDependencyBlocks(reg: Registry, tags: set<Tag>, todo: set<Tag>, t: Tag, d: Tag)
    requires todo <= reg.Keys && t in todo
    requires d in reg[t].depends && d in UntagSet(reg) && d !in tags && d !in todo
    ensures Rounds(reg, tags, todo).Stuck?
    decreases |todo|
  {
    var ready := ReadySet(reg, todo, tags);
    assert t !in ready;
    if ready != {} {
      Shrinks(todo, ready);
      RemovedDependencyBlocks(reg, After(reg, tags, ready), todo - ready, t, d);
    }
  }

  // ----- the loop in place

  /** Migrations run in this order, each once, and each after everything it
      depends on. */
  ghost predicate InDependencyOrder(reg: Registry, tags: set<Tag>, log: seq<Tag>) {
    && (forall i, j :: 0 <= i < j < |log| ==> log[i] != log[j])
    && (forall i :: 0 <= i < |log| ==> log[i] in reg && reg[log[i]].depends <= tags + Elems(log[..i]))
  }

  lemma OrderExtends(reg: Registry, tags0: set<Tag>, log: seq<Tag>, t: Tag)
    requires InDependencyOrder(reg, tags0, log) && t in reg && t !in log
    requires reg[t].depends <= tags0 + Elems(log)
    ensures InDependencyOrder(reg, tags0, log + [t])
  {
    var l := log + [t];
    forall i | 0 <= i < |l| ensures l[i] in reg && reg[l[i]].depends <= tags0 + Elems(l[..i]) {
      if i < |log| {
        assert l[i] == log[i] && l[..i] == log[..i];
      } else {
        assert l[..i] == log;
      }
    }
  }

  lemma AfterOneMore(reg: Registry, tags: set<Tag>, run: set<Tag>, t: Tag)
    requires t in reg && t !in run
    requires t in UntagSet(reg) ==> t in tags
    ensures reg[t].upgrades ==> After(reg, tags, run + {t}) == After(reg, tags, run) + {t}
    ensures !reg[t].upgrades ==> && t in After(reg, tags, run)
                                 && After(reg, tags, run + {t}) == After(reg, tags, run) - {t}
  {
  }

  /** What the log of a run of upgraders satisfies. */
  ghost predicate Logged(reg: Registry, start: set<Tag>, tags: set<Tag>, log: seq<Tag>) {
    UntagSet(reg) == {} ==> tags <= start + Elems(log) && InDependencyOrder(reg, start, log)
  }

  lemma LoggedOneMore(reg: Registry, start: set<Tag>, tags: set<Tag>, log: seq<Tag>, t: Tag)
    requires Logged(reg, start, tags, log) && t in reg && t !in log
    requires UntagSet(reg) == {} ==> reg[t].depends <= tags
    ensures Elems(log + [t]) == Elems(log) + {t}
    ensures reg[t].upgrades ==> Logged(reg, start, tags + {t}, log + [t])
    ensures !reg[t].upgrades ==> Logged(reg, start, tags - {t}, log + [t])
  {
    assert Elems(log + [t]) == Elems(log) + {t};
    if UntagSet(reg) == {} {
      OrderExtends(reg, start, log, t);
    }
  }

  /** Upgrader.update: one migration on its own does to the tags what a round of
      it alone means.  Removing a tag never fails, because a downgrader is applied
      only to a tag that is present. */
  method Update(reg: Registry, t: Tag, tags: set<Tag>) returns (tags': set<Tag>)
    requires t in reg && (!reg[t].upgrades ==> t in tags)
    ensures tags' == After(reg, tags, {t})
  {
    tags' := if reg[t].upgrades then tags + {t} else tags - {t};
  }

  /** After the migrations of `run` have been applied within a round. */
  ghost predicate MidRound(reg: Registry, start: set<Tag>, tags0: set<Tag>, log0: seq<Tag>, run: set<Tag>,
                           tags: set<Tag>, log: seq<Tag>) {
    && tags == After(reg, tags0, run)
    && log0 <= log && Lists(log[|log0|..], run)
    && Elems(log) == Elems(log0) + run
    && Logged(reg, start, tags, log)
  }

  lemma MidRoundStart(reg: Registry, start: set<Tag>, tags0: set<Tag>, log0: seq<Tag>)
    requires Logged(reg, start, tags0, log0)
    ensures MidRound(reg, start, tags0, log0, {}, tags0, log0)
  {
    assert After(reg, tags0, {}) == tags0;
  }

  lemma PickOne(ready: set<Tag>, run: set<Tag>, rest: set<Tag>, t: Tag)
    requires run + rest == ready && run !! rest && t in rest
    ensures t in ready && t !in run
    ensures (run + {t}) + (rest - {t}) == ready && (run + {t}) !! (rest - {t}) && |rest - {t}| < |rest|
  {
  }

  lemma MidRoundStep(reg: Registry, start: set<Tag>, tags0: set<Tag>, log0: seq<Tag>, run: set<Tag>,
                     tags: set<Tag>, log: seq<Tag>, t: Tag)
    requires MidRound(reg, start, tags0, log0, run, tags, log)
    requires t in reg && Ready(reg, t, tags0) && t !in run && t !in Elems(log0)
    requires t in UntagSet(reg) ==> t in tags0
    ensures !reg[t].upgrades ==> t in tags
    ensures MidRound(reg, start, tags0, log0, run + {t}, After(reg, tags, {t}), log + [t])
  {
    AfterOneMore(reg, tags0, run, t);
    assert After(reg, tags, {t}) == if reg[t].upgrades then tags + {t} else tags - {t};
    assert t !in Elems(log);
    LoggedOneMore(reg, start, tags, log, t);
    var round := log[|log0|..];
    assert (log + [t])[|log0|..] == round + [t];
    ElemsConcat(round, [t]);
    assert Elems([t]) == {t};
  }

  /** One round: apply the ready migrations, in any order.  A downgrade finds its
      tag present, because nothing else of the round removes it, so removing it
      does not fail. */
  method ApplyRound(reg: Registry, tags0: set<Tag>, ready: set<Tag>, log0: seq<Tag>, ghost start: set<Tag>)
    returns (tags: set<Tag>, log: seq<Tag>)
    requires ready <= reg.Keys && ready * UntagSet(reg) <= tags0 && ready !! Elems(log0)
    requires forall t :: t in ready ==> Ready(reg, t, tags0)
    requires Logged(reg, start, tags0, log0)
    ensures tags == After(reg, tags0, ready)
    ensures log0 <= log && Lists(log[|log0|..], ready) && Elems(log) == Elems(log0) + ready
    ensures Logged(reg, start, tags, log)
  {
    tags, log := tags0, log0;
    var rest := ready;
    ghost var run: set<Tag> := {};
    MidRoundStart(reg, start, tags0, log0);
    while rest != {}
      invariant run + rest == ready && run !! rest
      invariant MidRound(reg, start, tags0, log0, run, tags, log)
      decreases |rest|
    {
      var t :| t in rest;
      PickOne(ready, run, rest, t);
      assert Ready(reg, t, tags0);
      MidRoundStep(reg, start, tags0, log0, run, tags, log, t);
      tags := Update(reg, t, tags);
      log := log + [t];
      run := run + {t};
      rest := rest - {t};
    }
    assert run == ready;
  }

  lemma RoundKeepsPresent(reg: Registry, tags: set<Tag>, todo: set<Tag>, ready: set<Tag>)
    requires todo * UntagSet(reg) <= tags && ready <= todo
    ensures (todo - ready) * UntagSet(reg) <= After(reg, tags, ready)
  {
  }

  /** Between rounds: `run` has been applied, `todo` is left of `all`. */
  ghost predicate MidFile(reg: Registry, tags0: set<Tag>, all: set<Tag>, run: set<Tag>, todo: set<Tag>,
                          tags: set<Tag>, log: seq<Tag>) {
    && run + todo == all && all <= reg.Keys && run !! todo
    && todo * UntagSet(reg) <= tags
    && Elems(log) == run
    && Logged(reg, tags0, tags, log)
  }

  lemma MidFileStep(reg: Registry, tags0: set<Tag>, all: set<Tag>, run: set<Tag>, todo: set<Tag>,
                    tags: set<Tag>, log: seq<Tag>, ready: set<Tag>, log': seq<Tag>)
    requires MidFile(reg, tags0, all, run, todo, tags, log) && ready <= todo
    requires Elems(log') == Elems(log) + ready && Logged(reg, tags0, After(reg, tags, ready), log')
    ensures MidFile(reg, tags0, all, run + ready, todo - ready, After(reg, tags, ready), log')
  {
    RoundKeepsPresent(reg, tags, todo, ready);
    assert run !! ready;
  }

  /** Whatever completes what is left completes a log of the whole file. */
  ghost predicate Leads(reg: Registry, tags0: set<Tag>, all: set<Tag>, tags: set<Tag>, todo: set<Tag>, log: seq<Tag>)
    requires all <= reg.Keys && todo <= reg.Keys
  {
    forall rest :: Logs(reg, tags, todo, rest) ==> Logs(reg, tags0, all, log + rest)
  }

  lemma LeadsStart(reg: Registry, tags: set<Tag>, todo: set<Tag>)
    requires todo <= reg.Keys
    ensures Leads(reg, tags, todo, tags, todo, [])
  {
    assert forall rest: seq<Tag> :: [] + rest == rest;
  }

  lemma LeadsHome(reg: Registry, tags0: set<Tag>, all: set<Tag>, tags: set<Tag>, log: seq<Tag>)
    requires all <= reg.Keys && Leads(reg, tags0, all, tags, {}, log)
    ensures Logs(reg, tags0, all, log) && Lists(log, all)
  {
    assert Logs(reg, tags, {}, []) && log + [] == log;
    LogCovers(reg, tags0, all, log);
  }

  lemma LeadsOn(reg: Registry, tags0: set<Tag>, all: set<Tag>, tags: set<Tag>, todo: set<Tag>, log: seq<Tag>,
                log': seq<Tag>)
    requires all <= reg.Keys && todo <= reg.Keys && todo != {} && Leads(reg, tags0, all, tags, todo, log)
    requires var ready := ReadySet(reg, todo, tags);
             ready != {} && log <= log' && Lists(log'[|log|..], ready)
    ensures var ready := ReadySet(reg, todo, tags);
            Leads(reg, tags0, all, After(reg, tags, ready), todo - ready, log')
  {
    var ready, round := ReadySet(reg, todo, tags), log'[|log|..];
    forall rest | Logs(reg, After(reg, tags, ready), todo - ready, rest)
      ensures Logs(reg, tags0, all, log' + rest)
    {
      LogsCons(reg, tags, todo, round, rest);
      assert log + (round + rest) == log' + rest;
    }
  }

  /** process_file, from the tags of the checkpoint to its new tags. */
  method ProcessFile(reg: Registry, tags0: set<Tag>) returns (r: Outcome, log: seq<Tag>)
    ensures r == Rounds(reg, tags0, ToApply(reg, tags0))
    ensures r.Done? ==> Lists(log, ToApply(reg, tags0)) && Logs(reg, tags0, ToApply(reg, tags0), log)
    ensures r.Stuck? ==> Elems(log) == ToApply(reg, tags0) - r.left
    ensures UntagSet(reg) == {} ==> InDependencyOrder(reg, tags0, log)
  {
    var tags := tags0;
    var todo := ToApply(reg, tags0);
    ghost var all, run: set<Tag> := todo, {};
    log := [];
    LeadsStart(reg, tags, todo);
    while todo != {}
      invariant MidFile(reg, tags0, all, run, todo, tags, log)
      invariant todo <= reg.Keys && Leads(reg, tags0, all, tags, todo, log)
      invariant Rounds(reg, tags0, all) == Rounds(reg, tags, todo)
      decreases |todo|
    {
      var ready := ReadySet(reg, todo, tags);
      if ready == {} {
        assert all - todo == run;
        return Stuck(todo, tags), log;
      }
      Shrinks(todo, ready);
      var tags', log' := ApplyRound(reg, tags, ready, log, tags0);
      MidFileStep(reg, tags0, all, run, todo, tags, log, ready, log');
      LeadsOn(reg, tags0, all, tags, todo, log, log');
      tags, log := tags', log';
      run := run + ready;
      todo := todo - ready;
    }
    LeadsHome(reg, tags0, all, tags, log);
    r := Done(tags);
  }

  // ----- loading

  /** A migration file: its dependencies and the tags that depend on it. */
  datatype Decl = Decl(upgrades: bool, depends: set<Tag>, fwd: set<Tag>)

  function AsMigrations(decls: map<Tag, Decl>): Registry {
    map t | t in decls :: Migration(decls[t].upgrades, decls[t].depends)
  }

  /** Dependencies of t after the files outside `rest` have been visited. */
  function ResolvedBut(decls: map<Tag, Decl>, rest: set<Tag>, t: Tag): set<Tag>
    requires t in decls
  {
    decls[t].depends + set u | u in decls && u !in rest && t in decls[u].fwd
  }

  ghost predicate Partly(decls: map<Tag, Decl>, rest: set<Tag>, reg: Registry) {
    && reg.Keys == decls.Keys
    && forall t :: t in decls ==> reg[t] == Migration(decls[t].upgrades, ResolvedBut(decls, rest, t))
  }

  lemma ResolvedOneMore(decls: map<Tag, Decl>, rest: set<Tag>, u: Tag, t: Tag)
    requires t in decls && u in decls && u in rest
    ensures ResolvedBut(decls, rest - {u}, t) ==
            ResolvedBut(decls, rest, t) + (if t in decls[u].fwd then {u} else {})
  {
  }

  function Visit(decls: map<Tag, Decl>, reg: Registry, u: Tag): Registry
    requires u in decls
  {
    map t | t in reg :: if t in decls[u].fwd then reg[t].(depends := reg[t].depends + {u}) else reg[t]
  }

  lemma VisitKeepsPartly(decls: map<Tag, Decl>, rest: set<Tag>, reg: Registry, u: Tag)
    requires Partly(decls, rest, reg) && u in decls && u in rest
    ensures Partly(decls, rest - {u}, Visit(decls, reg, u))
  {
    var reg' := Visit(decls, reg, u);
    forall t | t in decls
      ensures reg'[t] == Migration(decls[t].upgrades, ResolvedBut(decls, rest - {u}, t))
    {
      ResolvedOneMore(decls, rest, u, t);
    }
  }

  /** Every tag that the file of t mentions has a file of its own. */
  predicate Known(decls: map<Tag, Decl>, t: Tag)
    requires t in decls
  {
    decls[t].depends <= decls.Keys && decls[t].fwd <= decls.Keys
  }

  lemma ResolvedKnown(decls: map<Tag, Decl>, rest: set<Tag>, t: Tag)
    requires t in decls
    ensures ResolvedBut(decls, rest, t) <= decls.Keys <==> decls[t].depends <= decls.Keys
  {
    if decls[t].depends <= decls.Keys {
      assert forall u :: u in ResolvedBut(decls, rest, t) ==> u in decls.Keys;
    } else {
      var d :| d in decls[t].depends && d !in decls.Keys;
      assert d in ResolvedBut(decls, rest, t);
    }
  }

  lemma AllKnownAudited(decls: map<Tag, Decl>, reg: Registry)
    requires Partly(decls, {}, reg) && forall t {:trigger Known(decls, t)} :: t in decls ==> Known(decls, t)
    ensures Audited(reg)
  {
    forall t | t in reg ensures reg[t].depends <= reg.Keys {
      assert Known(decls, t);
      ResolvedKnown(decls, {}, t);
    }
  }

  ghost predicate KnownBut(decls: map<Tag, Decl>, rest: set<Tag>) {
    forall t {:trigger Known(decls, t)} :: t in decls && t !in rest ==> Known(decls, t)
  }

  lemma KnownOneMore(decls: map<Tag, Decl>, rest: set<Tag>, u: Tag)
    requires KnownBut(decls, rest) && u in rest && u in decls && Known(decls, u)
    ensures KnownBut(decls, rest - {u}) && |rest - {u}| < |rest|
  {
  }

  /** The second half of load_all: turn forward dependencies around, and refuse
      dependencies on unknown tags, visiting the files in any order. */
  method ResolveAll(decls: map<Tag, Decl>) returns (ok: bool, reg: Registry)
    ensures ok <==> forall t {:trigger Known(decls, t)} :: t in decls ==> Known(decls, t)
    ensures ok ==> Audited(reg) && reg.Keys == decls.Keys
    ensures ok ==> forall t :: t in decls ==> reg[t].upgrades == decls[t].upgrades
    ensures ok ==> forall t, d :: t in decls ==>
                     (d in reg[t].depends <==> d in decls[t].depends || (d in decls && t in decls[d].fwd))
  {
    reg := AsMigrations(decls);
    var rest := decls.Keys;
    assert Partly(decls, rest, reg);
    while rest != {}
      invariant rest <= decls.Keys && Partly(decls, rest, reg)
      invariant KnownBut(decls, rest)
      decreases |rest|
    {
      var u :| u in rest;
      if !(decls[u].fwd <= decls.Keys) {
        assert !Known(decls, u);
        return false, reg;
      }
      VisitKeepsPartly(decls, rest, reg, u);
      ResolvedKnown(decls, rest - {u}, u);
      reg := Visit(decls, reg, u);
      if !(reg[u].depends <= decls.Keys) {
        assert !Known(decls, u);
        return false, reg;
      }
      KnownOneMore(decls, rest, u);
      rest := rest - {u};
    }
    AllKnownAudited(decls, reg);
    ok := true;
  }
}

/** The schedule reconciler: a state machine over the schedules of a Temporal cluster. */
module Schedules {
  import opened Wrappers
  import opened Names

  const OWNER_MEMO := "owner"

  /** One entry of a worker's schedule file. */
  datatype Schedule = Schedule(id: string, workflow: string, taskQueue: string, cron: string, args: seq<string>, note: string)

  datatype Action = Action(id: string, workflow: string, args: seq<string>, taskQueue: string)
  datatype State = State(note: string, paused: bool)

  /** A memo field: an encoded string, or a payload that does not decode into one. */
  datatype Payload = Text(value: string) | Undecodable
  datatype Memo = NoMemo | Fields(fields: map<string, Payload>)

  /** A schedule in the cluster; policy stands for everything an update copies unread. */
  datatype Entry = Entry(cron: seq<string>, action: Action, state: Option<State>, policy: string, memo: Memo)

  const DEFAULT_POLICY := ""

  type Cluster = map<string, Entry>

  // ---- the schedule file ----

  datatype FileError = MissingField(index: nat) | RepeatedId(index: nat)

  predicate IsComplete(s: Schedule) {
    s.id != "" && s.workflow != "" && s.taskQueue != "" && s.cron != ""
  }

  predicate IdsDiffer(file: seq<Schedule>) {
    forall i, j :: 0 <= i < j < |file| ==> file[i].id != file[j].id
  }

  predicate IsValidFile(file: seq<Schedule>) {
    (forall i :: 0 <= i < |file| ==> IsComplete(file[i])) && IdsDiffer(file)
  }

  function Ids(want: seq<Schedule>): set<string> {
    set k | 0 <= k < |want| :: want[k].id
  }

  /** A file is accepted exactly when it is valid; otherwise the error names the first bad entry. */
  method ParseSchedules(file: seq<Schedule>) returns (r: Result<seq<Schedule>, FileError>)
    ensures r.Ok? <==> IsValidFile(file)
    ensures r.Ok? ==> r.value == file
    ensures r.Err? ==> r.error.index < |file| && IsValidFile(file[..r.error.index])
    ensures r.Err? ==> (r.error.MissingField? <==> !IsComplete(file[r.error.index]))
    ensures r.Err? && r.error.RepeatedId? ==> file[r.error.index].id in Ids(file[..r.error.index])
  {
    var seen: set<string> := {};
    for i := 0 to |file|
      invariant seen == Ids(file[..i]) && IsValidFile(file[..i])
    {
      var s := file[i];
      if s.id == "" || s.workflow == "" || s.taskQueue == "" || s.cron == "" {
        return Err(MissingField(i));
      }
      if s.id in seen {
        var k :| 0 <= k < i && file[k].id == s.id;
        return Err(RepeatedId(i));
      }
      forall k | 0 <= k < i ensures file[k].id != s.id {
        assert file[..i][k].id in Ids(file[..i]);
      }
      seen := seen + {s.id};
      assert file[..i + 1] == file[..i] + [s];
      IdsOfSnoc(file[..i], s);
    }
    assert file[..|file|] == file;
    r := Ok(file);
  }

  lemma IdsOfSnoc(want: seq<Schedule>, s: Schedule)
    ensures Ids(want + [s]) == Ids(want) + {s.id}
  {
    forall id ensures id in Ids(want + [s]) <==> id in Ids(want) + {s.id} {
      if id in Ids(want) {
        var k :| 0 <= k < |want| && want[k].id == id;
        assert (want + [s])[k].id == id;
      }
      assert (want + [s])[|want|] == s;
    }
  }

  // ---- one schedule ----

  function ActionOf(s: Schedule): Action {
    Action(s.id + "-run", s.workflow, s.args, s.taskQueue)
  }

  function Created(owner: string, s: Schedule): Entry {
    Entry([s.cron], ActionOf(s), Some(State(s.note, false)), DEFAULT_POLICY, Fields(map[OWNER_MEMO := Text(owner)]))
  }

  /** The update function: new spec, action and note; paused state, policy and memo as they were. */
  function Updated(e: Entry, s: Schedule): Entry {
    var state := if e.state.None? then State("", false) else e.state.value;
    e.(cron := [s.cron], action := ActionOf(s), state := Some(state.(note := s.note)))
  }

  function MemoOwner(e: Entry): string {
    match e.memo
    case NoMemo => ""
    case Fields(fields) =>
      if OWNER_MEMO !in fields then ""
      else match fields[OWNER_MEMO]
        case Text(owner) => owner
        case Undecodable => ""
  }

  /** The schedule runs what its entry of the file says, by the entry's cron and under its note. */
  predicate Carries(u: Entry, s: Schedule) {
    && u.cron == [s.cron]
    && u.action.id == s.id + "-run" && u.action.workflow == s.workflow
    && u.action.args == s.args && u.action.taskQueue == s.taskQueue
    && u.state.Some? && u.state.value.note == s.note
  }

  /** What an update leaves as it was. */
  predicate Keeps(e: Entry, u: Entry) {
    && (u.state.Some? && u.state.value.paused <==> e.state.Some? && e.state.value.paused)
    && u.policy == e.policy && u.memo == e.memo
  }

  /** A created schedule runs, has the cluster's own policy and carries its owner in the memo. */
  predicate IsFresh(u: Entry, owner: string) {
    && u.state.Some? && !u.state.value.paused && u.policy == ""
    && u.memo == Fields(map["owner" := Text(owner)])
  }

  /** What the entry s makes of the cluster's schedule with its id: u. */
  predicate Becomes(m: Cluster, owner: string, s: Schedule, u: Entry) {
    Carries(u, s) && if s.id in m then Keeps(m[s.id], u) else IsFresh(u, owner)
  }

  /** Nothing else becomes of it. */
  lemma BecomesExactly(m: Cluster, owner: string, s: Schedule, u: Entry)
    ensures Becomes(m, owner, s, u) <==> u == if s.id in m then Updated(m[s.id], s) else Created(owner, s)
  {
  }

  /** The owner of a schedule is the text under the key `owner` of its memo. */
  lemma MemoOwnerIs(e: Entry, owner: string)
    ensures owner != "" ==>
      (MemoOwner(e) == owner <==> e.memo.Fields? && "owner" in e.memo.fields && e.memo.fields["owner"] == Text(owner))
  {
  }

  // ---- what a reconcile is for ----

  /** The last entry of the list with the id. */
  function LastFor(want: seq<Schedule>, id: string): (s: Schedule)
    requires id in Ids(want)
    ensures s in want && s.id == id
  {
    var last := want[|want| - 1];
    if last.id == id then last
    else
      assert want == want[..|want| - 1] + [last];
      IdsOfSnoc(want[..|want| - 1], last);
      LastFor(want[..|want| - 1], id)
  }

  predicate IsOwned(m: Cluster, owner: string, id: string) {
    id in m && MemoOwner(m[id]) == owner
  }

  /** The entry a wanted schedule ends up with. */
  function Wanted(m: Cluster, owner: string, want: seq<Schedule>, id: string): Entry
    requires id in Ids(want)
  {
    if id in m then Updated(m[id], LastFor(want, id)) else Created(owner, LastFor(want, id))
  }

  /** The cluster g is what reconciling m promises: every wanted id as wanted, every other schedule
      of the owner gone, everything else as it was. */
  ghost predicate IsReconciled(m: Cluster, owner: string, want: seq<Schedule>, g: Cluster) {
    forall id :: ReconciledAt(m, owner, want, g, id)
  }

  ghost predicate ReconciledAt(m: Cluster, owner: string, want: seq<Schedule>, g: Cluster, id: string) {
    if id in Ids(want) then id in g && g[id] == Wanted(m, owner, want, id)
    else if IsOwned(m, owner, id) then id !in g
    else SameAt(m, g, id)
  }

  predicate SameAt(m: Cluster, g: Cluster, id: string) {
    (id in g <==> id in m) && (id in m ==> g[id] == m[id])
  }

  /** What a reconcile promises at an id: the last entry of the file with the id takes effect, another schedule of the
      owner is gone, and everything else is as it was. */
  ghost predicate FulfilledAt(m: Cluster, owner: string, want: seq<Schedule>, g: Cluster, id: string) {
    if exists k :: IsLastWith(want, k, id) then
      id in g && forall k :: IsLastWith(want, k, id) ==> Becomes(m, owner, want[k], g[id])
    else if id in m && MemoOwner(m[id]) == owner then id !in g
    else (id in g <==> id in m) && (id in m ==> g[id] == m[id])
  }

  predicate IsLastWith(want: seq<Schedule>, k: int, id: string) {
    0 <= k < |want| && want[k].id == id && forall j :: k < j < |want| ==> want[j].id != id
  }

  lemma {:induction false} LastForIs(want: seq<Schedule>, k: int, id: string)
    requires IsLastWith(want, k, id)
    ensures id in Ids(want) && LastFor(want, id) == want[k]
    decreases |want|
  {
    assert want[k].id in Ids(want);
    if k < |want| - 1 {
      var rest := want[..|want| - 1];
      LastForIs(rest, k, id);
      assert want[|want| - 1].id != id;
    }
  }

  lemma {:induction false} WantedHasLast(want: seq<Schedule>, id: string) returns (k: int)
    requires id in Ids(want)
    ensures IsLastWith(want, k, id)
    decreases |want|
  {
    var last := |want| - 1;
    if want[last].id == id {
      k := last;
    } else {
      var i :| 0 <= i < |want| && want[i].id == id;
      assert want[..last][i].id == id;
      k := WantedHasLast(want[..last], id);
    }
  }

  lemma FulfilledIff(m: Cluster, owner: string, want: seq<Schedule>, g: Cluster, id: string)
    ensures FulfilledAt(m, owner, want, g, id) <==> ReconciledAt(m, owner, want, g, id)
  {
    hide Becomes, MemoOwner, Updated, Created, LastFor;
    if id in Ids(want) {
      var k := WantedHasLast(want, id);
      forall j | IsLastWith(want, j, id) ensures want[j] == LastFor(want, id) {
        LastForIs(want, j, id);
      }
      if id in g {
        BecomesExactly(m, owner, want[k], g[id]);
      }
    } else {
      forall k | 0 <= k < |want| ensures want[k].id != id {
        assert want[k].id in Ids(want);
      }
    }
  }

  // ---- the steps of a run ----

  function ApplyOne(m: Cluster, owner: string, s: Schedule): Cluster {
    m[s.id := if s.id in m then Updated(m[s.id], s) else Created(owner, s)]
  }

  function ApplyAll(m: Cluster, owner: string, want: seq<Schedule>): Cluster {
    if want == [] then m else ApplyOne(ApplyAll(m, owner, want[..|want| - 1]), owner, want[|want| - 1])
  }

  function Prunable(m: Cluster, owner: string, named: set<string>): (ids: set<string>)
    ensures ids <= m.Keys
  {
    set id | id in m && id !in named && MemoOwner(m[id]) == owner
  }

  /** The state after the first i schedules were applied and, once all are, after the deletions in d. */
  ghost predicate IsStage(m: Cluster, owner: string, want: seq<Schedule>, st: Cluster, i: nat, d: set<string>) {
    && i <= |want| && (i < |want| ==> d == {})
    && d <= Prunable(ApplyAll(m, owner, want), owner, Ids(want))
    && st == ApplyAll(m, owner, want[..i]) - d
  }

  /** A state that some prefix of a run's calls leaves behind. */
  ghost predicate IsIntermediate(m: Cluster, owner: string, want: seq<Schedule>, st: Cluster) {
    exists i: nat, d: set<string> :: IsStage(m, owner, want, st, i, d)
  }

  datatype CreateResult = CreatedNow | AlreadyRunning | CreateFailed

  /** The cluster behind its client. `allowed` calls get through before every later one fails, so a run can break off
      after any prefix of its calls. With `lands`, a call that fails has taken effect all the same: its answer was lost. */
  class Client {
    var schedules: Cluster
    var allowed: nat
    const lands: bool

    constructor (m: Cluster, calls: nat, lands: bool)
      ensures schedules == m && allowed == calls && this.lands == lands
    {
      schedules, allowed, this.lands := m, calls, lands;
    }

    method Create(id: string, e: Entry) returns (r: CreateResult)
      modifies this
      ensures r == if old(allowed) == 0 then CreateFailed else if id in old(schedules) then AlreadyRunning else CreatedNow
      ensures allowed == if old(allowed) == 0 then 0 else old(allowed) - 1
      ensures schedules == if id !in old(schedules) && (r == CreatedNow || lands) then old(schedules)[id := e] else old(schedules)
    {
      r := if allowed == 0 then CreateFailed else if id in schedules then AlreadyRunning else CreatedNow;
      if allowed > 0 {
        allowed := allowed - 1;
      }
      if id !in schedules && (r == CreatedNow || lands) {
        schedules := schedules[id := e];
      }
    }

    /** Spends one call. */
    method Answer() returns (ok: bool)
      modifies this`allowed
      ensures ok <==> old(allowed) > 0
      ensures allowed == if ok then old(allowed) - 1 else 0
    {
      ok := allowed > 0;
      if ok {
        allowed := allowed - 1;
      }
    }

    method Update(s: Schedule) returns (ok: bool)
      requires s.id in schedules
      modifies this
      ensures ok <==> old(allowed) > 0
      ensures allowed == if ok then old(allowed) - 1 else 0
      ensures schedules == if ok || lands then old(schedules)[s.id := Updated(old(schedules)[s.id], s)] else old(schedules)
    {
      ok := Answer();
      if ok || lands {
        schedules := schedules[s.id := Updated(schedules[s.id], s)];
      }
    }

    /** The ids in the cluster at the time of the call, in some order. */
    method List() returns (ok: bool, ids: seq<string>)
      modifies this`allowed
      ensures ok <==> old(allowed) > 0
      ensures allowed == if ok then old(allowed) - 1 else 0
      ensures ok ==> |ids| == |schedules| && Members(ids) == schedules.Keys
    {
      hide Members;
      ids := [];
      ok := Answer();
      if !ok {
        return;
      }
      var rest := schedules.Keys;
      assert Members(ids) == schedules.Keys - rest by { MembersOfNothing(); }
      while rest != {}
        invariant allowed == old(allowed) - 1
        invariant rest <= schedules.Keys && Members(ids) == schedules.Keys - rest && |ids| + |rest| == |schedules|
        decreases rest
      {
        var id :| id in rest;
        assert rest == (rest - {id}) + {id};
        MembersOfSnoc(ids, id);
        rest := rest - {id};
        ids := ids + [id];
      }
      assert schedules.Keys - rest == schedules.Keys;
    }

    method Delete(id: string) returns (ok: bool)
      modifies this
      ensures ok <==> old(allowed) > 0
      ensures allowed == if ok then old(allowed) - 1 else 0
      ensures schedules == if ok || lands then old(schedules) - {id} else old(schedules)
    {
      ok := Answer();
      if ok || lands {
        schedules := schedules - {id};
      }
    }
  }

  /** One entry has taken effect, and nothing else has changed. */
  ghost predicate IsApplied(m: Cluster, owner: string, s: Schedule, g: Cluster) {
    && s.id in g && Becomes(m, owner, s, g[s.id])
    && forall id :: id != s.id ==> SameAt(m, g, id)
  }

  lemma ApplyOneIs(m: Cluster, owner: string, s: Schedule, g: Cluster)
    ensures IsApplied(m, owner, s, g) <==> g == ApplyOne(m, owner, s)
  {
    hide Becomes, Updated, Created;
    if s.id in g {
      BecomesExactly(m, owner, s, g[s.id]);
    }
    if IsApplied(m, owner, s, g) {
      var h := ApplyOne(m, owner, s);
      forall id ensures (id in g <==> id in h) && (id in g ==> g[id] == h[id]) {
        assert id != s.id ==> SameAt(m, g, id);
      }
      assert g == h;
    }
  }

  method Apply(sc: Client, owner: string, s: Schedule) returns (ok: bool)
    modifies sc
    ensures IsApplied(old(sc.schedules), owner, s, sc.schedules) || (!ok && sc.schedules == old(sc.schedules))
    ensures ok ==> sc.schedules == ApplyOne(old(sc.schedules), owner, s)
    ensures !ok ==> sc.schedules == old(sc.schedules) || sc.schedules == ApplyOne(old(sc.schedules), owner, s)
    ensures !ok ==> old(sc.allowed) < 2
    ensures ok ==> sc.allowed + 2 >= old(sc.allowed)
  {
    hide Created, Updated, IsApplied;
    ApplyOneIs(sc.schedules, owner, s, ApplyOne(sc.schedules, owner, s));
    var r := sc.Create(s.id, Created(owner, s));
    if r == CreatedNow {
      return true;
    }
    if r != AlreadyRunning {
      return false;
    }
    ok := sc.Update(s);
  }

  /** The cluster after the prunable schedules among the seen ids are deleted. */
  function Pruned(m: Cluster, owner: string, named: set<string>, seen: set<string>): Cluster {
    m - Prunable(m, owner, named) * seen
  }

  /** Wherever it breaks off, the prunable ones among the ids seen are gone and nothing else; on success every id was
      seen. */
  method Prune(sc: Client, owner: string, named: set<string>) returns (ok: bool, ghost seen: set<string>)
    modifies sc
    ensures sc.schedules == Pruned(old(sc.schedules), owner, named, seen)
    ensures ok ==> seen == old(sc.schedules).Keys
    ensures old(sc.allowed) > 2 * |old(sc.schedules)| ==> ok
  {
    hide Pruned, MemoOwner, Members;
    ghost var entries := sc.schedules;
    var memos := sc.schedules;
    seen := {};
    PrunedNothing(entries, owner, named);
    var listed, ids := sc.List();
    if !listed {
      return false, seen;
    }
    assert ids[..0] == [];
    MembersOfNothing();
    for i := 0 to |ids|
      invariant seen == Members(ids[..i])
      invariant sc.schedules == Pruned(entries, owner, named, seen)
      invariant old(sc.allowed) > 2 * |ids| ==> sc.allowed >= 2 * (|ids| - i)
    {
      var fetched := sc.Answer();
      if !fetched {
        return false, seen;
      }
      MembersAt(ids, i);
      PruneStep(entries, owner, named, seen, ids[i]);
      if ids[i] in named || MemoOwner(memos[ids[i]]) != owner {
        seen := seen + {ids[i]};
        continue;
      }
      var gone := sc.Delete(ids[i]);
      if gone || sc.lands {
        seen := seen + {ids[i]};
      }
      if !gone {
        return false, seen;
      }
    }
    assert ids[..|ids|] == ids;
    ok := true;
  }

  lemma PrunedNothing(m: Cluster, owner: string, named: set<string>)
    ensures Pruned(m, owner, named, {}) == m
  {
    hide Prunable;
    assert Prunable(m, owner, named) * {} == {};
  }

  lemma PruneStep(m: Cluster, owner: string, named: set<string>, seen: set<string>, id: string)
    requires id in m
    ensures Pruned(m, owner, named, seen + {id}) ==
            if id !in named && MemoOwner(m[id]) == owner then Pruned(m, owner, named, seen) - {id}
            else Pruned(m, owner, named, seen)
  {
    hide MemoOwner, Prunable;
    var p := Prunable(m, owner, named);
    PrunableIs(m, owner, named, id);
    assert p * (seen + {id}) == p * seen + if id in p then {id} else {};
    assert m - p * seen - {id} == m - (p * seen + {id});
    assert p * seen + {} == p * seen;
  }

  lemma PrunableIs(m: Cluster, owner: string, named: set<string>, id: string)
    requires id in m
    ensures id in Prunable(m, owner, named) <==> id !in named && MemoOwner(m[id]) == owner
  {
  }

  /** A run on a cluster: wherever it breaks off it leaves an intermediate state, on success the
      cluster is reconciled, and with enough calls allowed it succeeds. */
  method ReconcileSchedules(sc: Client, owner: string, want: seq<Schedule>) returns (ok: bool)
    modifies sc
    ensures IsIntermediate(old(sc.schedules), owner, want, sc.schedules)
    ensures ok ==> IsReconciled(old(sc.schedules), owner, want, sc.schedules)
    ensures ok ==> forall id :: FulfilledAt(old(sc.schedules), owner, want, sc.schedules, id)
    ensures old(sc.allowed) > 4 * |want| + 2 * |old(sc.schedules)| ==> ok
  {
    hide ApplyOne, IsApplied, Updated, ReconciledAt, FulfilledAt, Prunable;
    ghost var m := sc.schedules;
    var named: set<string> := {};
    assert want[..0] == [];
    for i := 0 to |want|
      invariant named == Ids(want[..i])
      invariant sc.schedules == ApplyAll(m, owner, want[..i])
      invariant sc.allowed + 2 * i >= old(sc.allowed)
    {
      assert want[..i + 1] == want[..i] + [want[i]];
      IdsOfSnoc(want[..i], want[i]);
      named := named + {want[i].id};
      ok := Apply(sc, owner, want[i]);
      if !ok {
        StageAfterApplies(m, owner, want, i);
        StageAfterApplies(m, owner, want, i + 1);
        return;
      }
    }
    assert want[..|want|] == want;
    AppliedSize(m, owner, want);
    ghost var applied, seen := sc.schedules, {};
    ok, seen := Prune(sc, owner, named);
    ghost var deleted := Prunable(applied, owner, named) * seen;
    assert IsStage(m, owner, want, sc.schedules, |want|, deleted);
    if ok {
      assert deleted == Prunable(applied, owner, named);
      LastStageIsReconciled(m, owner, want);
      forall id ensures FulfilledAt(m, owner, want, sc.schedules, id) {
        FulfilledIff(m, owner, want, sc.schedules, id);
      }
    }
  }

  lemma StageAfterApplies(m: Cluster, owner: string, want: seq<Schedule>, i: nat)
    requires i <= |want|
    ensures IsIntermediate(m, owner, want, ApplyAll(m, owner, want[..i]))
  {
    hide ApplyAll, Prunable;
    assert IsStage(m, owner, want, ApplyAll(m, owner, want[..i]), i, {});
  }

  lemma {:induction false} AppliedSize(m: Cluster, owner: string, want: seq<Schedule>)
    ensures |ApplyAll(m, owner, want)| <= |m| + |want|
    decreases |want|
  {
    if want != [] {
      var p := ApplyAll(m, owner, want[..|want| - 1]);
      AppliedSize(m, owner, want[..|want| - 1]);
      var id := want[|want| - 1].id;
      assert ApplyAll(m, owner, want).Keys == p.Keys + {id};
      assert |p.Keys + {id}| <= |p.Keys| + 1;
    }
  }

  // ---- what a run has done at each id ----

  /** Updating twice is updating with the later schedule, and creating then updating is creating. */
  lemma LaterUpdateWins(e: Entry, owner: string, s: Schedule, t: Schedule)
    ensures Updated(Updated(e, s), t) == Updated(e, t)
    ensures Updated(Created(owner, s), t) == Created(owner, t)
  {
  }

  lemma {:induction false} AppliedAt(m: Cluster, owner: string, want: seq<Schedule>, id: string)
    ensures var st := ApplyAll(m, owner, want);
      if id in Ids(want) then id in st && st[id] == Wanted(m, owner, want, id) else SameAt(m, st, id)
    decreases |want|
  {
    hide Updated, Created;
    if want != [] {
      var p, last := want[..|want| - 1], want[|want| - 1];
      assert want == p + [last];
      IdsOfSnoc(p, last);
      AppliedAt(m, owner, p, id);
      if id == last.id && id in Ids(p) {
        if id in m {
          LaterUpdateWins(m[id], owner, LastFor(p, id), last);
        } else {
          LaterUpdateWins(Created(owner, last), owner, LastFor(p, id), last);
        }
      }
    }
  }

  lemma LastStageIsReconciled(m: Cluster, owner: string, want: seq<Schedule>)
    ensures var applied := ApplyAll(m, owner, want);
      IsReconciled(m, owner, want, applied - Prunable(applied, owner, Ids(want)))
  {
    hide Updated, Created, ApplyAll, Wanted;
    forall id { AppliedAt(m, owner, want, id); }
  }

  /** The reconciled cluster is unique. */
  lemma ReconciledIsUnique(m: Cluster, owner: string, want: seq<Schedule>, g: Cluster, h: Cluster)
    requires IsReconciled(m, owner, want, g) && IsReconciled(m, owner, want, h)
    ensures g == h
  {
    hide Wanted, IsOwned;
    forall id ensures (id in g <==> id in h) && (id in g ==> g[id] == h[id]) {
      assert ReconciledAt(m, owner, want, g, id) && ReconciledAt(m, owner, want, h, id);
    }
  }

  /** What a run may have done so far at an id. */
  lemma IntermediateAt(m: Cluster, owner: string, want: seq<Schedule>, st: Cluster, id: string)
    requires IsIntermediate(m, owner, want, st)
    ensures SameAt(m, st, id)
      || (id !in Ids(want) && IsOwned(m, owner, id) && id !in st)
      || (id in Ids(want) && id in st
          && exists s :: s in want && s.id == id && st[id] == if id in m then Updated(m[id], s) else Created(owner, s))
  {
    hide Updated, Created, ApplyAll;
    var i: nat, d: set<string> :| IsStage(m, owner, want, st, i, d);
    AppliedAt(m, owner, want[..i], id);
    AppliedAt(m, owner, want, id);
    if id in Ids(want[..i]) {
      IdsOfPrefix(want, i, id);
      assert LastFor(want[..i], id) in want;
    }
  }

  lemma IdsOfPrefix(want: seq<Schedule>, i: nat, id: string)
    requires i <= |want| && id in Ids(want[..i])
    ensures id in Ids(want)
  {
    var k :| 0 <= k < i && want[..i][k].id == id;
    assert want[k].id == id;
  }

  /** At every step, a schedule that is neither wanted nor the owner's is untouched, a wanted one is as it was or as one
      of its entries in the file makes it, and so keeps its paused state, its policy and its memo if it existed. */
  lemma EveryStepIsSafe(m: Cluster, owner: string, want: seq<Schedule>, st: Cluster, id: string)
    requires IsIntermediate(m, owner, want, st)
    ensures id !in Ids(want) && !IsOwned(m, owner, id) ==> SameAt(m, st, id)
    ensures id in Ids(want) ==>
      SameAt(m, st, id) || (id in st && exists s :: s in want && s.id == id && Becomes(m, owner, s, st[id]))
    ensures id in Ids(want) && id in m ==> id in st && Keeps(m[id], st[id])
  {
    hide Updated, Created, Becomes;
    IntermediateAt(m, owner, want, st, id);
    if id in Ids(want) && !SameAt(m, st, id) {
      var s :| s in want && s.id == id && st[id] == if id in m then Updated(m[id], s) else Created(owner, s);
      BecomesExactly(m, owner, s, st[id]);
      if id in m {
        UpdateKeeps(m[id], s);
      }
    }
  }

  lemma UpdateKeeps(e: Entry, s: Schedule)
    ensures var u := Updated(e, s);
      Carries(u, s) && Keeps(e, u) && MemoOwner(u) == MemoOwner(e)
  {
  }

  /** Crash and rerun: from any state a broken run leaves, a full run ends where a full run from the
      start ends. */
  lemma RerunReachesSameState(m: Cluster, owner: string, want: seq<Schedule>, st: Cluster, g: Cluster)
    requires IsIntermediate(m, owner, want, st)
    ensures IsReconciled(st, owner, want, g) <==> IsReconciled(m, owner, want, g)
  {
    hide ReconciledAt, IsIntermediate;
    forall id ensures ReconciledAt(st, owner, want, g, id) <==> ReconciledAt(m, owner, want, g, id) {
      RerunAt(m, owner, want, st, g, id);
    }
  }

  lemma RerunAt(m: Cluster, owner: string, want: seq<Schedule>, st: Cluster, g: Cluster, id: string)
    requires IsIntermediate(m, owner, want, st)
    ensures ReconciledAt(st, owner, want, g, id) <==> ReconciledAt(m, owner, want, g, id)
  {
    hide Updated, Created, IsIntermediate;
    IntermediateAt(m, owner, want, st, id);
    if id in Ids(want) && !SameAt(m, st, id) {
      if id in m {
        var s :| st[id] == Updated(m[id], s);
        LaterUpdateWins(m[id], owner, s, LastFor(want, id));
      } else {
        var s :| st[id] == Created(owner, s);
        LaterUpdateWins(st[id], owner, s, LastFor(want, id));
      }
    }
  }

  /** Reconciling a reconciled cluster changes nothing. */
  lemma ReconcileIsIdempotent(m: Cluster, owner: string, want: seq<Schedule>, g: Cluster)
    requires IsReconciled(m, owner, want, g)
    ensures IsReconciled(g, owner, want, g)
  {
    hide IsReconciled, ApplyAll, Prunable;
    var applied := ApplyAll(m, owner, want);
    assert want[..|want|] == want;
    var last := applied - Prunable(applied, owner, Ids(want));
    assert IsStage(m, owner, want, last, |want|, Prunable(applied, owner, Ids(want)));
    LastStageIsReconciled(m, owner, want);
    ReconciledIsUnique(m, owner, want, g, last);
    RerunReachesSameState(m, owner, want, g, g);
  }

  /** With the ids of the file distinct, each entry of the file is what its id ends up with. */
  lemma EachEntryTakesEffect(m: Cluster, owner: string, want: seq<Schedule>, g: Cluster, k: nat)
    requires IdsDiffer(want) && k < |want| && IsReconciled(m, owner, want, g)
    ensures var s := want[k];
      && s.id in g && Carries(g[s.id], s)
      && (if s.id in m then Keeps(m[s.id], g[s.id]) else IsFresh(g[s.id], owner))
      && MemoOwner(g[s.id]) == if s.id in m then MemoOwner(m[s.id]) else owner
  {
    hide Updated, Carries, Keeps;
    var s := want[k];
    assert s.id in Ids(want);
    var last := LastFor(want, s.id);
    var j :| 0 <= j < |want| && want[j] == last;
    assert j == k && ReconciledAt(m, owner, want, g, s.id);
    if s.id in m {
      UpdateKeeps(m[s.id], s);
    } else {
      BecomesExactly(m, owner, s, g[s.id]);
    }
  }

  // ---- dropping an entry ----

  /** An entry that is added and later dropped is deleted exactly when its id was new or already the owner's: a reconcile
      takes over the schedule of another owner without taking over its memo. */
  lemma DroppedIsDeletedIff(m: Cluster, owner: string, want: seq<Schedule>, g: Cluster, later: seq<Schedule>, h: Cluster,
                            id: string)
    requires IsReconciled(m, owner, want, g) && IsReconciled(g, owner, later, h)
    requires id in Ids(want) && id !in Ids(later)
    ensures id !in h <==> id !in m || IsOwned(m, owner, id)
  {
    hide Updated;
    assert ReconciledAt(m, owner, want, g, id) && ReconciledAt(g, owner, later, h, id);
    if id in m {
      UpdateKeeps(m[id], LastFor(want, id));
    }
  }

  // ---- the owner key ----

  predicate IsUnmarked(e: Entry) {
    e.memo == NoMemo || OWNER_MEMO !in e.memo.fields
  }

  ghost predicate KeepsUnmarked(owner: string) {
    forall m: Cluster, want, g, id ::
      IsReconciled(m, owner, want, g) && id in m && IsUnmarked(m[id]) && id !in Ids(want) ==> SameAt(m, g, id)
  }

  /** A reconcile never deletes a schedule without the owner key, provided the owner is not empty. */
  lemma UnmarkedSurviveIffOwnerNamed(owner: string)
    ensures KeepsUnmarked(owner) <==> owner != ""
  {
    if owner == "" {
      var e := Entry([], Action("", "", [], ""), None, DEFAULT_POLICY, NoMemo);
      var m: Cluster := map["x" := e];
      assert IsOwned(m, "", "x");
      var want: seq<Schedule>, g: Cluster := [], map[];
      assert IsReconciled(m, "", want, g);
      assert "x" in m && IsUnmarked(m["x"]) && "x" !in Ids(want) && !SameAt(m, g, "x");
    } else {
      forall m: Cluster, want, g, id | IsReconciled(m, owner, want, g) && id in m && IsUnmarked(m[id]) && id !in Ids(want)
        ensures SameAt(m, g, id)
      {
        assert ReconciledAt(m, owner, want, g, id) && !IsOwned(m, owner, id);
      }
    }
  }

  // ---- two workers ----

  /** The fleet of one worker neither wants nor holds by name what the other wants. */
  ghost predicate AreSeparate(m: Cluster, o1: string, w1: seq<Schedule>, o2: string, w2: seq<Schedule>) {
    && o1 != o2 && Ids(w1) !! Ids(w2)
    && (forall id :: id in Ids(w1) ==> !IsOwned(m, o2, id))
    && (forall id :: id in Ids(w2) ==> !IsOwned(m, o1, id))
  }

  lemma OwnersCommuteAt(m: Cluster, o1: string, w1: seq<Schedule>, o2: string, w2: seq<Schedule>, a: Cluster, b: Cluster, id: string)
    requires AreSeparate(m, o1, w1, o2, w2) && ReconciledAt(m, o1, w1, a, id) && ReconciledAt(a, o2, w2, b, id)
    ensures if id in Ids(w1) then id in b && b[id] == Wanted(m, o1, w1, id)
            else if id in Ids(w2) then id in b && b[id] == Wanted(m, o2, w2, id)
            else if IsOwned(m, o1, id) || IsOwned(m, o2, id) then id !in b
            else SameAt(m, b, id)
  {
    hide Updated;
    if id in Ids(w1) && id in m {
      UpdateKeeps(m[id], LastFor(w1, id));
    }
  }

  /** Two workers with separate fleets can reconcile in either order. */
  lemma OwnersCommute(m: Cluster, o1: string, w1: seq<Schedule>, o2: string, w2: seq<Schedule>,
                      a: Cluster, b: Cluster, a': Cluster, b': Cluster)
    requires AreSeparate(m, o1, w1, o2, w2)
    requires IsReconciled(m, o1, w1, a) && IsReconciled(a, o2, w2, b)
    requires IsReconciled(m, o2, w2, a') && IsReconciled(a', o1, w1, b')
    ensures b == b'
  {
    hide AreSeparate, ReconciledAt, Wanted, IsOwned;
    assert AreSeparate(m, o2, w2, o1, w1) && Ids(w1) !! Ids(w2) by { SeparateIsSymmetric(m, o1, w1, o2, w2); }
    forall id ensures (id in b <==> id in b') && (id in b ==> b[id] == b'[id]) {
      OwnersCommuteAt(m, o1, w1, o2, w2, a, b, id);
      OwnersCommuteAt(m, o2, w2, o1, w1, a', b', id);
    }
  }

  lemma SeparateIsSymmetric(m: Cluster, o1: string, w1: seq<Schedule>, o2: string, w2: seq<Schedule>)
    requires AreSeparate(m, o1, w1, o2, w2)
    ensures AreSeparate(m, o2, w2, o1, w1) && Ids(w1) !! Ids(w2)
  {
  }
}

/** The live policy and its provenance in crates/inspector/src/lib.rs: two locks, two writers. */
module PolicyState {
  import opened Wrappers

  /** What the proofs look at of a policy: which one it is, and whether it pauses the agent. */
  datatype Config = Config(name: string, paused: bool)

  datatype Source = Local | Central
  datatype Provenance = Provenance(source: Source, version: nat, localOverride: bool)

  /** Which write put the effective policy in place (history, not stored by the program). */
  datatype Origin = Startup | LocalEdit(version: nat) | Synced(version: nat)

  /** The provenance that tells the truth about a policy of this origin. */
  function Describe(origin: Origin): Provenance {
    match origin
    case Startup => Provenance(Local, 0, false)
    case LocalEdit(v) => Provenance(Local, v, true)
    case Synced(v) => Provenance(Central, v, false)
  }

  // ----- each call as one atomic step -----

  class Inspector {
    var policy: Config
    var provenance: Provenance
    ghost var origin: Origin

    ghost predicate Agree()
      reads this
    {
      provenance == Describe(origin)
    }

    constructor (config: Config)
      ensures Agree() && policy == config && provenance == Provenance(Local, 0, false)
    {
      policy := config;
      provenance := Provenance(Local, 0, false);
      origin := Startup;
    }

    method ApplyLocalPolicyEdit(newConfig: Config)
      requires Agree()
      modifies this
      ensures Agree() && policy == newConfig
      ensures provenance == Provenance(Local, old(provenance.version) + 1, true)
    {
      var nextVersion := provenance.version + 1;
      policy := newConfig;
      origin := LocalEdit(nextVersion);
      provenance := Provenance(Local, nextVersion, true);
    }

    /** `overwroteOverride` is the logged warning: a live local edit was just superseded. */
    method ApplySyncedPolicy(newConfig: Config, version: nat) returns (overwroteOverride: bool)
      requires Agree()
      modifies this
      ensures Agree() && policy == newConfig && provenance == Provenance(Central, version, false)
      ensures overwroteOverride <==> old(origin).LocalEdit?
    {
      overwroteOverride := provenance.localOverride;
      policy := newConfig;
      origin := Synced(version);
      provenance := Provenance(Central, version, false);
    }
  }

  // ----- the same calls at lock granularity -----

  /** A local edit holds the provenance lock throughout and takes the policy lock for one write; edits
      waiting for the lock have no effect, so one slot stands for any number of editing threads. */
  datatype EditStage = NoEdit | EditHolds(config: Config, next: nat) | EditWrote(next: nat)

  /** The sync loop (one thread) reads the provenance, writes the policy and writes the provenance, taking
      each lock only for that access. */
  datatype SyncStage = NoSync | SyncRead(config: Config, version: nat, warns: bool) | SyncWrote(version: nat)

  /** An inspection holds the policy read lock from start to end and consults the policy once, when that pauses the
      agent, or four times. */
  datatype Inspection = Inspection(test: Option<Config>, findings: Option<Config>, action: Option<Config>,
                                   filter: Option<Config>)
  {
    predicate Paused() {
      test.Some? && test.value.paused
    }
  }

  datatype State = State(
    policy: Config, origin: Origin, provenance: Provenance,
    edit: EditStage, sync: SyncStage,
    inspections: map<nat, Inspection>,
    finished: seq<Inspection>)

  datatype Event =
    | EditLocks(config: Config) | EditWritesPolicy | EditWritesProvenance
    | SyncReads(config: Config, version: nat) | SyncWritesPolicy | SyncWritesProvenance
    | InspectStarts(id: nat) | InspectTests(id: nat) | InspectScans(id: nat)
    | InspectEvaluates(id: nat) | InspectFilters(id: nat) | InspectEnds(id: nat)

  function Initial(config: Config): State {
    State(config, Startup, Describe(Startup), NoEdit, NoSync, map[], [])
  }

  predicate Enabled(s: State, e: Event) {
    match e
    case EditLocks(_) => s.edit.NoEdit?
    case EditWritesPolicy => s.edit.EditHolds? && s.inspections == map[]
    case EditWritesProvenance => s.edit.EditWrote?
    case SyncReads(_, _) => s.sync.NoSync? && s.edit.NoEdit?
    case SyncWritesPolicy => s.sync.SyncRead? && s.inspections == map[]
    case SyncWritesProvenance => s.sync.SyncWrote? && s.edit.NoEdit?
    case InspectStarts(id) => id !in s.inspections
    case InspectTests(id) => id in s.inspections && s.inspections[id].test.None?
    case InspectScans(id) => id in s.inspections && s.inspections[id].test.Some? && !s.inspections[id].Paused()
        && s.inspections[id].findings.None?
    case InspectEvaluates(id) => id in s.inspections && s.inspections[id].findings.Some?
        && s.inspections[id].action.None?
    case InspectFilters(id) => id in s.inspections && s.inspections[id].action.Some? && s.inspections[id].filter.None?
    case InspectEnds(id) => id in s.inspections && (s.inspections[id].filter.Some? || s.inspections[id].Paused())
  }

  function Next(s: State, e: Event): State
    requires Enabled(s, e)
  {
    match e
    case EditLocks(config) => s.(edit := EditHolds(config, s.provenance.version + 1))
    case EditWritesPolicy => s.(policy := s.edit.config, origin := LocalEdit(s.edit.next),
        edit := EditWrote(s.edit.next))
    case EditWritesProvenance => s.(provenance := Provenance(Local, s.edit.next, true), edit := NoEdit)
    case SyncReads(config, version) => s.(sync := SyncRead(config, version, s.provenance.localOverride))
    case SyncWritesPolicy => s.(policy := s.sync.config, origin := Synced(s.sync.version),
        sync := SyncWrote(s.sync.version))
    case SyncWritesProvenance => s.(provenance := Provenance(Central, s.sync.version, false), sync := NoSync)
    case InspectStarts(id) => s.(inspections := s.inspections[id := Inspection(None, None, None, None)])
    case InspectTests(id) => s.(inspections := s.inspections[id := s.inspections[id].(test := Some(s.policy))])
    case InspectScans(id) => s.(inspections := s.inspections[id := s.inspections[id].(findings := Some(s.policy))])
    case InspectEvaluates(id) => s.(inspections := s.inspections[id := s.inspections[id].(action := Some(s.policy))])
    case InspectFilters(id) => s.(inspections := s.inspections[id := s.inspections[id].(filter := Some(s.policy))])
    case InspectEnds(id) => s.(inspections := s.inspections - {id}, finished := s.finished + [s.inspections[id]])
  }

  /** The state an interleaving leads to, None when some step of it is blocked by a lock. */
  function Run(config: Config, trace: seq<Event>): Option<State>
    decreases |trace|
  {
    if trace == [] then Some(Initial(config))
    else match Run(config, trace[..|trace| - 1])
      case None => None
      case Some(s) => if Enabled(s, trace[|trace| - 1]) then Some(Next(s, trace[|trace| - 1])) else None
  }

  predicate AtRest(s: State) {
    s.edit.NoEdit? && s.sync.NoSync?
  }

  predicate Agree(s: State) {
    s.provenance == Describe(s.origin)
  }

  // ----- what an interleaving looks like from its events -----

  predicate WritesPolicy(e: Event) {
    e.EditWritesPolicy? || e.SyncWritesPolicy?
  }

  /** The last policy write was an edit's. */
  predicate EditIsLast(trace: seq<Event>)
    decreases |trace|
  {
    trace != []
    && var last := trace[|trace| - 1];
       if WritesPolicy(last) then last.EditWritesPolicy? else EditIsLast(trace[..|trace| - 1])
  }

  /** A sync has written the provenance since the last policy write. */
  predicate SyncStamped(trace: seq<Event>)
    decreases |trace|
  {
    trace != []
    && var last := trace[|trace| - 1];
       !WritesPolicy(last) && (last.SyncWritesProvenance? || SyncStamped(trace[..|trace| - 1]))
  }

  ghost predicate Consistent(trace: seq<Event>, s: State) {
    match (s.sync, s.edit)
    case (SyncWrote(v), EditWrote(n)) =>
      !SyncStamped(trace) && s.origin == if EditIsLast(trace) then LocalEdit(n) else Synced(v)
    case (SyncWrote(v), _) =>
      !SyncStamped(trace) && if EditIsLast(trace) then s.origin.LocalEdit? && Agree(s) else s.origin == Synced(v)
    case (_, EditWrote(n)) => EditIsLast(trace) && !SyncStamped(trace) && s.origin == LocalEdit(n)
    case (_, _) =>
      && (Agree(s) <==> !(EditIsLast(trace) && SyncStamped(trace)))
      && (EditIsLast(trace) ==> s.origin.LocalEdit?)
  }

  lemma {:induction false} Reachable(config: Config, trace: seq<Event>)
    requires Run(config, trace).Some?
    ensures Consistent(trace, Run(config, trace).value)
    decreases |trace|
  {
    if trace != [] {
      Reachable(config, trace[..|trace| - 1]);
    }
  }

  /** At rest, provenance and effective policy agree unless the last policy write was a local edit's and a
      sync wrote the provenance after it. */
  lemma AgreeAtRestIff(config: Config, trace: seq<Event>)
    requires Run(config, trace).Some? && AtRest(Run(config, trace).value)
    ensures Agree(Run(config, trace).value) <==> !(EditIsLast(trace) && SyncStamped(trace))
  {
    Reachable(config, trace);
  }

  /** The edit's policy write at j falls between a sync's policy write and its provenance write at k. */
  predicate Intrudes(trace: seq<Event>, j: nat, k: nat) {
    && j < k < |trace| && trace[j].EditWritesPolicy? && trace[k].SyncWritesProvenance?
    && forall i :: j < i < k ==> !trace[i].SyncWritesPolicy?
  }

  predicate SomeIntrusion(trace: seq<Event>) {
    exists j, k | 0 <= j < k < |trace| :: Intrudes(trace, j, k)
  }

  lemma {:induction false} LastEdit(trace: seq<Event>) returns (j: nat)
    requires EditIsLast(trace)
    ensures j < |trace| && trace[j].EditWritesPolicy?
    ensures forall i :: j < i < |trace| ==> !WritesPolicy(trace[i])
    decreases |trace|
  {
    var n := |trace| - 1;
    if trace[n].EditWritesPolicy? {
      j := n;
    } else {
      j := LastEdit(trace[..n]);
      assert forall i :: j < i < n ==> trace[i] == trace[..n][i];
    }
  }

  /** Seen when a sync stamps the provenance: some edit intrudes exactly when the last policy write is an edit's. */
  lemma IntrusionAtStamp(trace: seq<Event>, k: nat)
    requires k == |trace| - 1 && trace[k].SyncWritesProvenance?
    ensures EditIsLast(trace) <==> exists j :: 0 <= j < k && Intrudes(trace, j, k)
  {
    if EditIsLast(trace) {
      var j := LastEdit(trace);
      assert Intrudes(trace, j, k);
    }
    if j :| 0 <= j < k && Intrudes(trace, j, k) {
      LastEditWrite(trace, j, k);
    }
  }

  /** After an edit's policy write with no sync's policy write behind it, the last policy write is an edit's. */
  lemma {:induction false} LastEditWrite(trace: seq<Event>, j: nat, k: nat)
    requires j <= k == |trace| - 1 && trace[j].EditWritesPolicy?
    requires forall i :: j < i <= k ==> !trace[i].SyncWritesPolicy?
    ensures EditIsLast(trace)
    decreases k
  {
    if !WritesPolicy(trace[k]) {
      LastEditWrite(trace[..k], j, k - 1);
    }
  }

  ghost predicate AlwaysAgrees(config: Config, trace: seq<Event>) {
    forall n :: 0 <= n <= |trace| ==>
      (Run(config, trace[..n]).Some? && AtRest(Run(config, trace[..n]).value) ==> Agree(Run(config, trace[..n]).value))
  }

  lemma {:induction false} PrefixRuns(config: Config, trace: seq<Event>, n: nat)
    requires Run(config, trace).Some? && n <= |trace|
    ensures Run(config, trace[..n]).Some?
    decreases |trace|
  {
    if n == |trace| {
      assert trace[..n] == trace;
    } else {
      PrefixRuns(config, trace[..|trace| - 1], n);
      assert trace[..|trace| - 1][..n] == trace[..n];
    }
  }

  /** A stamp clears the sync and finds no edit holding the lock, so the state behind it is at rest. */
  lemma StampIsAtRest(config: Config, trace: seq<Event>)
    requires Run(config, trace).Some? && trace != [] && trace[|trace| - 1].SyncWritesProvenance?
    ensures AtRest(Run(config, trace).value) && SyncStamped(trace)
  {
  }

  lemma {:induction false} DisagreementHasIntrusion(trace: seq<Event>)
    requires EditIsLast(trace) && SyncStamped(trace)
    ensures SomeIntrusion(trace)
    decreases |trace|
  {
    var k := |trace| - 1;
    if trace[k].SyncWritesProvenance? {
      IntrusionAtStamp(trace, k);
    } else {
      DisagreementHasIntrusion(trace[..k]);
      IntrusionInPrefix(trace, k);
    }
  }

  /** Provenance and effective policy agree at every point of rest of a run exactly when no local edit's
      policy write falls between a sync's policy write and its provenance write. */
  lemma AlwaysAgreesIff(config: Config, trace: seq<Event>)
    requires Run(config, trace).Some?
    ensures AlwaysAgrees(config, trace) <==> !SomeIntrusion(trace)
  {
    hide *;
    if SomeIntrusion(trace) {
      IntrusionShows(config, trace);
    } else {
      NoIntrusionAgrees(config, trace);
    }
  }

  lemma IntrusionShows(config: Config, trace: seq<Event>)
    requires Run(config, trace).Some? && SomeIntrusion(trace)
    ensures !AlwaysAgrees(config, trace)
  {
    hide Run, AtRest, Agree, EditIsLast, SyncStamped;
    var j, k :| 0 <= j < k < |trace| && Intrudes(trace, j, k);
    var upTo := trace[..k + 1];
    PrefixRuns(config, trace, k + 1);
    assert Intrudes(upTo, j, k);
    IntrusionAtStamp(upTo, k);
    StampIsAtRest(config, upTo);
    AgreeAtRestIff(config, upTo);
  }

  lemma NoIntrusionAgrees(config: Config, trace: seq<Event>)
    requires Run(config, trace).Some? && !SomeIntrusion(trace)
    ensures AlwaysAgrees(config, trace)
  {
    hide Run, AtRest, Agree, EditIsLast, SyncStamped;
    forall n | 0 <= n <= |trace| && Run(config, trace[..n]).Some? && AtRest(Run(config, trace[..n]).value)
      ensures Agree(Run(config, trace[..n]).value)
    {
      AgreeAtRestIff(config, trace[..n]);
      if EditIsLast(trace[..n]) && SyncStamped(trace[..n]) {
        DisagreementHasIntrusion(trace[..n]);
        IntrusionInPrefix(trace, n);
      }
    }
  }

  lemma IntrusionInPrefix(trace: seq<Event>, n: nat)
    requires n <= |trace| && SomeIntrusion(trace[..n])
    ensures SomeIntrusion(trace)
  {
    var j, k :| 0 <= j < k < n && Intrudes(trace[..n], j, k);
    assert Intrudes(trace, j, k);
  }

  /** The interleaving that breaks agreement: an edit between the two writes of a sync. */
  lemma EditDuringSyncDisagrees(config: Config, local: Config, central: Config, version: nat)
    ensures var trace := [SyncReads(central, version), SyncWritesPolicy, EditLocks(local), EditWritesPolicy,
            EditWritesProvenance, SyncWritesProvenance];
            && Run(config, trace).Some?
            && var s := Run(config, trace).value;
               AtRest(s) && s.policy == local && s.provenance == Provenance(Central, version, false) && !Agree(s)
  {
    var t1: seq<Event> := [SyncReads(central, version)];
    var t2 := t1 + [SyncWritesPolicy];
    var t3 := t2 + [EditLocks(local)];
    var t4 := t3 + [EditWritesPolicy];
    var t5 := t4 + [EditWritesProvenance];
    var t6 := t5 + [SyncWritesProvenance];
    RunStep(config, [], SyncReads(central, version));
    assert [] + t1 == t1;
    RunStep(config, t1, SyncWritesPolicy);
    RunStep(config, t2, EditLocks(local));
    RunStep(config, t3, EditWritesPolicy);
    RunStep(config, t4, EditWritesProvenance);
    RunStep(config, t5, SyncWritesProvenance);
    assert t6 == [SyncReads(central, version), SyncWritesPolicy, EditLocks(local), EditWritesPolicy,
                  EditWritesProvenance, SyncWritesProvenance];
  }

  lemma RunStep(config: Config, trace: seq<Event>, e: Event)
    requires Run(config, trace).Some? && Enabled(Run(config, trace).value, e)
    ensures Run(config, trace + [e]) == Some(Next(Run(config, trace).value, e))
  {
    assert (trace + [e])[..|trace|] == trace;
  }

  // ----- the warning -----

  /** The provenance tells of a live local override: an edit wrote last, and no sync has stamped over it. */
  predicate OverrideLive(trace: seq<Event>) {
    EditIsLast(trace) && !SyncStamped(trace)
  }

  lemma {:induction false} OriginIs(config: Config, trace: seq<Event>)
    requires Run(config, trace).Some?
    ensures var s := Run(config, trace).value;
            && (s.origin.LocalEdit? <==> EditIsLast(trace))
            && (SyncStamped(trace) ==> !s.provenance.localOverride && !s.edit.EditWrote?)
    decreases |trace|
  {
    if trace != [] {
      OriginIs(config, trace[..|trace| - 1]);
    }
  }

  /** What a sync reads. */
  lemma OverrideAtRest(config: Config, trace: seq<Event>)
    requires Run(config, trace).Some? && AtRest(Run(config, trace).value)
    ensures Run(config, trace).value.provenance.localOverride <==> OverrideLive(trace)
  {
    hide Run, EditIsLast, SyncStamped;
    AgreeAtRestIff(config, trace);
    OriginIs(config, trace);
  }

  /** trace[i] is the read of the sync that writes the policy at k. */
  predicate ReadFor(trace: seq<Event>, i: nat, k: nat) {
    && i < k < |trace| && trace[i].SyncReads? && trace[k].SyncWritesPolicy?
    && forall n :: i < n < k ==> !trace[n].SyncReads?
  }

  predicate SyncWrites(trace: seq<Event>, i: nat, n: nat)
    requires n <= |trace|
  {
    exists m | 0 <= m < n :: i < m && trace[m].SyncWritesPolicy?
  }

  /** Behind the read, the warning stays decided and the policy unwritten until the sync writes it. */
  lemma {:induction false} SyncUnderWay(config: Config, trace: seq<Event>, i: nat, n: nat)
    requires Run(config, trace).Some? && i < n <= |trace| && trace[i].SyncReads?
    requires forall m :: i < m < n ==> !trace[m].SyncReads?
    ensures Run(config, trace[..i]).Some? && AtRest(Run(config, trace[..i]).value)
    ensures Run(config, trace[..n]).Some?
    ensures var sync := Run(config, trace[..n]).value.sync;
            && (sync.SyncRead? ==> sync.warns == Run(config, trace[..i]).value.provenance.localOverride)
            && (sync.SyncRead? <==> !SyncWrites(trace, i, n))
  {
    hide EditIsLast, SyncStamped;
    PrefixRuns(config, trace, i);
    PrefixRuns(config, trace, n);
    LastStep(config, trace, n);
    if n > i + 1 {
      SyncUnderWay(config, trace, i, n - 1);
      WritesStep(trace, i, n);
    }
  }

  lemma WritesStep(trace: seq<Event>, i: nat, n: nat)
    requires i + 1 < n <= |trace|
    ensures SyncWrites(trace, i, n) <==> SyncWrites(trace, i, n - 1) || trace[n - 1].SyncWritesPolicy?
  {
  }

  lemma LastStep(config: Config, trace: seq<Event>, n: nat)
    requires Run(config, trace).Some? && 0 < n <= |trace|
    ensures Run(config, trace[..n - 1]).Some? && Enabled(Run(config, trace[..n - 1]).value, trace[n - 1])
    ensures Run(config, trace[..n]) == Some(Next(Run(config, trace[..n - 1]).value, trace[n - 1]))
  {
    PrefixRuns(config, trace, n);
    assert trace[..n][..n - 1] == trace[..n - 1];
  }

  predicate EditWrites(trace: seq<Event>, i: nat, n: nat)
    requires n <= |trace|
  {
    exists m | 0 <= m < n :: i < m && trace[m].EditWritesPolicy?
  }

  lemma {:induction false} EditIsLastSince(trace: seq<Event>, i: nat, n: nat)
    requires i < n <= |trace| && !WritesPolicy(trace[i]) && !SyncWrites(trace, i, n)
    ensures EditIsLast(trace[..n]) <==> EditIsLast(trace[..i]) || EditWrites(trace, i, n)
  {
    hide SyncStamped;
    assert trace[..n][..n - 1] == trace[..n - 1];
    if n > i + 1 {
      WritesStep(trace, i, n);
      EditIsLastSince(trace, i, n - 1);
      assert EditWrites(trace, i, n) <==> EditWrites(trace, i, n - 1) || trace[n - 1].EditWritesPolicy?;
    }
  }

  /** A sync replaces a local edit without the warning exactly when no override was live at its read, and an edit's
      policy write either falls between its read and its own policy write or was still in force at the read, hidden
      by an earlier sync's stamp. */
  lemma UnwarnedIff(config: Config, trace: seq<Event>, i: nat, k: nat)
    requires Run(config, trace).Some? && ReadFor(trace, i, k)
    ensures Run(config, trace[..k]).Some? && Run(config, trace[..k]).value.sync.SyncRead?
    ensures var s := Run(config, trace[..k]).value;
            s.origin.LocalEdit? && !s.sync.warns
            <==> !OverrideLive(trace[..i]) && (EditWrites(trace, i, k) || EditIsLast(trace[..i]))
  {
    hide Run, EditIsLast, SyncStamped, SyncWrites, EditWrites;
    LastStep(config, trace, k + 1);
    SyncUnderWay(config, trace, i, k);
    OverrideAtRest(config, trace[..i]);
    OriginIs(config, trace[..k]);
    EditIsLastSince(trace, i, k);
  }

  /** An override overwritten unwarned, in a run that never disagrees. */
  lemma EditBehindReadUnwarned(config: Config, local: Config, central: Config, version: nat)
    ensures var trace := [SyncReads(central, version), EditLocks(local), EditWritesPolicy, EditWritesProvenance,
            SyncWritesPolicy];
            && Run(config, trace).Some? && ReadFor(trace, 0, 4) && !SomeIntrusion(trace)
            && var s := Run(config, trace[..4]).value;
               s.policy == local && s.provenance == Provenance(Local, 1, true) && s.sync.SyncRead? && !s.sync.warns
  {
    var t1: seq<Event> := [SyncReads(central, version)];
    var t2 := t1 + [EditLocks(local)];
    var t3 := t2 + [EditWritesPolicy];
    var t4 := t3 + [EditWritesProvenance];
    RunStep(config, [], SyncReads(central, version));
    assert [] + t1 == t1;
    RunStep(config, t1, EditLocks(local));
    RunStep(config, t2, EditWritesPolicy);
    RunStep(config, t3, EditWritesProvenance);
    RunStep(config, t4, SyncWritesPolicy);
    var t5 := t4 + [SyncWritesPolicy];
    assert t5 == [SyncReads(central, version), EditLocks(local), EditWritesPolicy, EditWritesProvenance,
        SyncWritesPolicy];
    assert t5[..4] == t4;
  }

  // ----- inspections -----

  predicate OneSnapshot(i: Inspection, policy: Config) {
    && (i.test.Some? ==> i.test.value == policy)
    && (i.findings.Some? ==> i.findings.value == policy)
    && (i.action.Some? ==> i.action.value == policy)
    && (i.filter.Some? ==> i.filter.value == policy)
    && (i.filter.Some? ==> i.action.Some?) && (i.action.Some? ==> i.findings.Some?)
    && (i.findings.Some? ==> i.test.Some? && !i.Paused())
  }

  ghost predicate Snapshots(s: State) {
    && (forall id :: id in s.inspections ==> OneSnapshot(s.inspections[id], s.policy))
    && (forall i :: 0 <= i < |s.finished| ==>
          var done := s.finished[i];
          done.test.Some? && if done.Paused() then done.findings == done.action == done.filter == None
                             else done.test == done.findings == done.action == done.filter)
  }

  lemma SnapshotsKept(s: State, e: Event)
    requires Snapshots(s) && Enabled(s, e)
    ensures Snapshots(Next(s, e))
  {
  }

  /** Every finished inspection tested for the pause, collected its findings, chose its action and filtered its
      findings under one and the same policy, or found the agent paused and did nothing else, whatever edits and
      syncs ran meanwhile. */
  lemma {:induction false} InspectionsUseOnePolicy(config: Config, trace: seq<Event>)
    requires Run(config, trace).Some?
    ensures Snapshots(Run(config, trace).value)
    decreases |trace|
  {
    if trace != [] {
      InspectionsUseOnePolicy(config, trace[..|trace| - 1]);
      SnapshotsKept(Run(config, trace[..|trace| - 1]).value, trace[|trace| - 1]);
    }
  }
}

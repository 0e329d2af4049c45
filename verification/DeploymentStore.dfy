/** The fenced compare-and-swap store of plugins/docker-app/deployment_persist.go.

    Every operation loads a snapshot of records and fences, changes both maps and
    stores the snapshot back. The store is shown to refine a single map of
    records, and the fencing promises are proved over whole runs of that map. */
module DeploymentStore {

  import opened Encodings
  import opened Strings

  const MAX_APPS := 128

  // body stands for the fields the store only carries along.
  datatype Deployment = Deployment(appId: string, body: string, fencingToken: nat, lease: string, leaseUntil: int)

  datatype Record = Record(version: nat, value: Deployment)

  datatype Snapshot = Snapshot(records: map<string, Record>, fences: map<string, nat>)

  // Go's zero value, which stands for a record that does not exist.
  const NoRecord := Record(0, Deployment("", "", 0, "", 0))

  type Records = map<string, Record>

  function Current(records: Records, id: string): Record {
    if id in records then records[id] else NoRecord
  }

  function Fence(fences: map<string, nat>, id: string): nat {
    if id in fences then fences[id] else 0
  }

  // ------------------------------------------------------------------
  // The specification: one map of versioned records
  // ------------------------------------------------------------------

  datatype Op =
    | Lease(id: string, version: nat, value: Deployment, until: int)
    | Swap(id: string, version: nat, fence: nat, value: Deployment)
    | Remove(id: string, version: nat, fence: nat)

  function LeaseName(fence: nat): string {
    "fence-" + Decimal(fence)
  }

  // The record a successful lease or swap writes.
  function Written(records: Records, op: Op): Record
    requires !op.Remove?
  {
    match op
    case Lease(id, version, value, until) =>
      var token := Current(records, id).value.fencingToken + 1;
      Record(version + 1, Deployment(id, value.body, token, LeaseName(token), until))
    case Swap(id, version, fence, value) =>
      Record(version + 1, Deployment(id, value.body, fence, value.lease, value.leaseUntil))
  }

  predicate Allowed(records: Records, op: Op) {
    var current := Current(records, op.id);
    && current.version == op.version
    && (op.Swap? || op.Remove? ==> current.value.fencingToken == op.fence)
    && (op.Remove? ==> op.id in records)
  }

  function Apply(records: Records, op: Op): Records
    requires Allowed(records, op)
  {
    if op.Remove? then records - {op.id} else records[op.id := Written(records, op)]
  }

  // What an operation that takes effect leaves, field by field.
  ghost predicate Leaves(before: Records, after: Records, op: Op) {
    && (forall id :: id != op.id ==> (id in after <==> id in before))
    && (forall id :: id != op.id && id in before ==> after[id] == before[id])
    && match op
       case Remove(id, _, _) => id !in after
       case Lease(id, version, value, until) =>
         && id in after && after[id].version == version + 1
         && var now := after[id].value;
            && now.appId == id && now.body == value.body && now.leaseUntil == until
            && now.fencingToken == (if id in before then before[id].value.fencingToken else 0) + 1
            && now.lease == "fence-" + Decimal(now.fencingToken)
       case Swap(id, version, fence, value) =>
         && id in after && after[id].version == version + 1
         && var now := after[id].value;
            && now.appId == id && now.body == value.body && now.fencingToken == fence
            && now.lease == value.lease && now.leaseUntil == value.leaseUntil
  }

  // The version is the expected one, 0 for a record that does not exist, and swap
  // and removal also present the current token.
  ghost predicate Accepts(records: Records, op: Op) {
    && op.version == (if op.id in records then records[op.id].version else 0)
    && (op.Remove? ==> op.id in records)
    && (op.Remove? || op.Swap? ==>
          op.fence == if op.id in records then records[op.id].value.fencingToken else 0)
  }

  lemma ApplyMeans(records: Records, op: Op)
    ensures Allowed(records, op) <==> Accepts(records, op)
    ensures Allowed(records, op) ==> Leaves(records, Apply(records, op), op)
  {
  }

  // ------------------------------------------------------------------
  // Whole runs
  // ------------------------------------------------------------------

  ghost predicate IsStep(records: Records, op: Op, took: bool, next: Records) {
    if took then Allowed(records, op) && next == Apply(records, op) else next == records
  }

  // took[k] tells whether ops[k] took effect, whatever its caller was told.
  ghost predicate IsRun(states: seq<Records>, ops: seq<Op>, took: seq<bool>) {
    && |states| == |ops| + 1 && |took| == |ops|
    && forall k :: 0 <= k < |ops| ==> IsStep(states[k], ops[k], took[k], states[k + 1])
  }

  // No operation on the record takes effect from step i up to, not including, j.
  ghost predicate Untouched(ops: seq<Op>, took: seq<bool>, id: string, i: nat, j: nat)
    requires |took| == |ops| && j <= |ops|
  {
    forall k :: i <= k < j && took[k] ==> ops[k].id != id
  }

  lemma {:induction false} UntouchedStays(states: seq<Records>, ops: seq<Op>, took: seq<bool>, id: string, i: nat,
                                          j: nat)
    requires IsRun(states, ops, took) && i <= j <= |ops| && Untouched(ops, took, id, i, j)
    ensures (id in states[j] <==> id in states[i]) && (id in states[i] ==> states[j][id] == states[i][id])
    decreases j
  {
    if i < j {
      UntouchedStays(states, ops, took, id, i, j - 1);
      assert IsStep(states[j - 1], ops[j - 1], took[j - 1], states[j]);
    }
  }

  /** What is read later is what the last operation on the record that took effect
      was given: a lease or a swap leaves the fields of its caller, a removal none. */
  lemma ReadsLastWrite(states: seq<Records>, ops: seq<Op>, took: seq<bool>, i: nat, j: nat)
    requires IsRun(states, ops, took) && i < j <= |ops| && took[i]
    requires Untouched(ops, took, ops[i].id, i + 1, j)
    ensures Accepts(states[i], ops[i]) && Leaves(states[i], states[i + 1], ops[i])
    ensures var op := ops[i];
            && (op.id in states[j] <==> !op.Remove?)
            && (op.id in states[j] ==> states[j][op.id] == states[i + 1][op.id])
  {
    assert IsStep(states[i], ops[i], true, states[i + 1]);
    ApplyMeans(states[i], ops[i]);
    UntouchedStays(states, ops, took, ops[i].id, i + 1, j);
  }

  // No removal of the record that took effect from step i up to, not including, j.
  ghost predicate Lives(ops: seq<Op>, took: seq<bool>, id: string, i: nat, j: nat)
    requires |took| == |ops| && j <= |ops|
  {
    forall k :: i <= k < j && took[k] && ops[k].id == id ==> !ops[k].Remove?
  }

  lemma {:induction false} NothingGoesBack(states: seq<Records>, ops: seq<Op>, took: seq<bool>, id: string, i: nat,
                                           j: nat)
    requires IsRun(states, ops, took) && i <= j <= |ops| && Lives(ops, took, id, i, j)
    ensures Current(states[i], id).version <= Current(states[j], id).version
    ensures Current(states[i], id).value.fencingToken <= Current(states[j], id).value.fencingToken
    decreases j
  {
    if i < j {
      NothingGoesBack(states, ops, took, id, i, j - 1);
      assert IsStep(states[j - 1], ops[j - 1], took[j - 1], states[j]);
    }
  }

  /** Within the life of a record every lease carries a strictly larger token
      than the leases before it. */
  lemma LeaseTokensGrow(states: seq<Records>, ops: seq<Op>, took: seq<bool>, i: nat, j: nat)
    requires IsRun(states, ops, took) && i < j < |ops|
    requires took[i] && took[j] && ops[i].Lease? && ops[j].Lease? && ops[i].id == ops[j].id
    requires Lives(ops, took, ops[i].id, i, j)
    ensures Written(states[i], ops[i]).value.fencingToken < Written(states[j], ops[j]).value.fencingToken
  {
    assert IsStep(states[i], ops[i], true, states[i + 1]);
    NothingGoesBack(states, ops, took, ops[i].id, i + 1, j);
  }

  /** Once a lease was granted, swaps and removals that carry an older token fail
      for the rest of the record's life. */
  lemma OldTokensAreFenced(states: seq<Records>, ops: seq<Op>, took: seq<bool>, i: nat, j: nat)
    requires IsRun(states, ops, took) && i < j < |ops|
    requires took[i] && ops[i].Lease? && ops[j].id == ops[i].id && (ops[j].Swap? || ops[j].Remove?)
    requires Lives(ops, took, ops[i].id, i, j)
    requires ops[j].fence < Written(states[i], ops[i]).value.fencingToken
    ensures !took[j]
  {
    assert IsStep(states[i], ops[i], true, states[i + 1]);
    assert IsStep(states[j], ops[j], took[j], states[j + 1]);
    NothingGoesBack(states, ops, took, ops[i].id, i + 1, j);
  }

  /** Within the life of a record at most one writer wins per version. */
  lemma OneWriterPerVersion(states: seq<Records>, ops: seq<Op>, took: seq<bool>, i: nat, j: nat)
    requires IsRun(states, ops, took) && i < j < |ops|
    requires took[i] && took[j] && ops[i].id == ops[j].id && Lives(ops, took, ops[i].id, i, j)
    ensures ops[i].version < ops[j].version
  {
    assert IsStep(states[i], ops[i], true, states[i + 1]);
    assert IsStep(states[j], ops[j], true, states[j + 1]);
    NothingGoesBack(states, ops, took, ops[i].id, i + 1, j);
  }

  /** The promise ends with the record: after a removal the same versions and
      tokens are handed out again. */
  lemma RemovalRestartsTokens(id: string, value: Deployment)
    ensures var ops := [Lease(id, 0, value, 0), Remove(id, 1, 1), Lease(id, 0, value, 0)];
            exists states ::
              && IsRun(states, ops, [true, true, true])
              && Written(states[0], ops[0]).value.fencingToken == Written(states[2], ops[2]).value.fencingToken
  {
    var ops := [Lease(id, 0, value, 0), Remove(id, 1, 1), Lease(id, 0, value, 0)];
    var first := Apply(map[], ops[0]);
    var second := Apply(first, ops[1]);
    var third := Apply(second, ops[2]);
    var states: seq<Records> := [map[], first, second, third];
    assert IsRun(states, ops, [true, true, true]);
  }

  // No lease of the record that took effect from step i up to, not including, j.
  ghost predicate Unleased(ops: seq<Op>, took: seq<bool>, id: string, i: nat, j: nat)
    requires |took| == |ops| && j <= |ops|
  {
    forall k :: i <= k < j && took[k] && ops[k].id == id ==> !ops[k].Lease?
  }

  // A token that was lost to a removal comes back only with a lease.
  lemma {:induction false} UnleasedStaysZero(states: seq<Records>, ops: seq<Op>, took: seq<bool>, id: string, i: nat,
                                             j: nat)
    requires IsRun(states, ops, took) && i <= j <= |ops| && Unleased(ops, took, id, i, j)
    requires Current(states[i], id).value.fencingToken == 0
    ensures Current(states[j], id).value.fencingToken == 0
    decreases j
  {
    if i < j {
      UnleasedStaysZero(states, ops, took, id, i, j - 1);
      assert IsStep(states[j - 1], ops[j - 1], took[j - 1], states[j]);
    }
  }

  /** Between one lease and the next the token grows exactly when the record was
      not removed in between. */
  lemma NextTokenGrowsIffRecordLives(states: seq<Records>, ops: seq<Op>, took: seq<bool>, i: nat, j: nat)
    requires IsRun(states, ops, took) && i < j < |ops|
    requires took[i] && took[j] && ops[i].Lease? && ops[j].Lease? && ops[i].id == ops[j].id
    requires Unleased(ops, took, ops[i].id, i + 1, j)
    ensures Written(states[i], ops[i]).value.fencingToken < Written(states[j], ops[j]).value.fencingToken
       <==> Lives(ops, took, ops[i].id, i, j)
  {
    if Lives(ops, took, ops[i].id, i, j) {
      LeaseTokensGrow(states, ops, took, i, j);
    } else {
      var k :| i <= k < j && took[k] && ops[k].id == ops[i].id && ops[k].Remove?;
      assert IsStep(states[k], ops[k], true, states[k + 1]);
      UnleasedStaysZero(states, ops, took, ops[i].id, k + 1, j);
    }
  }

  // ------------------------------------------------------------------
  // The store
  // ------------------------------------------------------------------

  // A record's token is its fence, and a fence without a record does not exist.
  ghost predicate Consistent(s: Snapshot) {
    && (forall id :: id in s.records ==> s.records[id].value.fencingToken == Fence(s.fences, id))
    && (forall id :: id in s.fences ==> id in s.records)
  }

  lemma TokenIsFence(s: Snapshot, id: string)
    requires Consistent(s)
    ensures Current(s.records, id).value.fencingToken == Fence(s.fences, id)
  {
  }

  // Writing a record together with its fence keeps the snapshot consistent.
  lemma WriteKeeps(s: Snapshot, id: string, record: Record, fences: map<string, nat>)
    requires Consistent(s) && record.value.fencingToken == Fence(fences, id)
    requires fences == s.fences || fences == s.fences[id := record.value.fencingToken]
    ensures Consistent(Snapshot(s.records[id := record], fences))
  {
  }

  predicate Fits(s: Snapshot) {
    |s.records| <= MAX_APPS && |s.fences| <= MAX_APPS
  }

  // The bound counts applications; a new one needs a free place.
  predicate HasRoom(records: Records, op: Op) {
    op.Remove? || op.id in records || |records| < MAX_APPS
  }

  lemma {:induction false} SmallerSet(a: set<string>, b: set<string>)
    requires a <= b
    ensures |a| <= |b|
  {
    if x :| x in a {
      SmallerSet(a - {x}, b - {x});
    }
  }

  // Fences never outnumber the records, so only these decide the bound.
  lemma RecordsDecide(s: Snapshot)
    requires Consistent(s)
    ensures Fits(s) <==> |s.records| <= MAX_APPS
  {
    SmallerSet(s.fences.Keys, s.records.Keys);
    assert |s.fences| == |s.fences.Keys| && |s.records| == |s.records.Keys|;
  }

  lemma RoomDecides(records: Records, op: Op, record: Record)
    requires |records| <= MAX_APPS && !op.Remove?
    ensures |records[op.id := record]| <= MAX_APPS <==> HasRoom(records, op)
  {
  }

  datatype Reply = Done(record: Record) | Conflict | Unavailable

  // How the backend answers during one operation: whether it loads, whether it
  // stores what it is given, and whether it then reports that.
  datatype Backend = Backend(loads: bool, stores: bool, reports: bool)

  // The operation takes effect.
  predicate Takes(records: Records, op: Op, backend: Backend) {
    backend.loads && Allowed(records, op) && HasRoom(records, op) && backend.stores
  }

  function After(records: Records, op: Op, backend: Backend): Records {
    if Takes(records, op, backend) then Apply(records, op) else records
  }

  // What the caller is told.
  ghost predicate Answers(records: Records, op: Op, backend: Backend, reply: Reply) {
    && (reply.Done? <==> Takes(records, op, backend) && backend.reports)
    && (reply.Conflict? <==> backend.loads && !Allowed(records, op))
    && (reply.Done? ==> reply.record == if op.Remove? then Current(records, op.id) else Written(records, op))
  }

  class Store {
    // What the backend holds; None until the first snapshot is stored.
    var stored: Option<Snapshot>

    function Contents(): Snapshot
      reads this
    {
      if stored.Some? then stored.value else Snapshot(map[], map[])
    }

    ghost predicate Valid()
      reads this
    {
      Consistent(Contents()) && Fits(Contents())
    }

    constructor ()
      ensures Valid() && stored.None?
    {
      stored := None;
    }

    // loadSnapshot.
    method LoadSnapshot(backend: Backend) returns (snapshot: Option<Snapshot>)
      ensures snapshot.Some? <==> backend.loads && Fits(Contents())
      ensures snapshot.Some? ==> snapshot.value == Contents()
    {
      if !backend.loads {
        return None;
      }
      if stored.None? {
        return Some(Snapshot(map[], map[]));
      }
      if !Fits(stored.value) {
        return None;
      }
      return Some(stored.value);
    }

    // persist: whether the snapshot is stored and whether that is reported.
    method Persist(snapshot: Snapshot, backend: Backend) returns (ok: bool)
      modifies this
      ensures ok <==> Fits(snapshot) && backend.stores && backend.reports
      ensures stored == if Fits(snapshot) && backend.stores then Some(snapshot) else old(stored)
    {
      if !Fits(snapshot) {
        return false;
      }
      if backend.stores {
        stored := Some(snapshot);
      }
      return backend.stores && backend.reports;
    }

    /** Load. */
    method Load(id: string, backend: Backend) returns (record: Option<Record>, failed: bool)
      ensures failed <==> !(backend.loads && Fits(Contents()))
      ensures record == if !failed && id in Contents().records then Some(Contents().records[id]) else None
    {
      var snapshot := LoadSnapshot(backend);
      if snapshot.None? {
        return None, true;
      }
      if id !in snapshot.value.records {
        return None, false;
      }
      return Some(snapshot.value.records[id]), false;
    }

    // What a call of the store promises about an operation of the specification.
    twostate predicate Performs(op: Op, backend: Backend, reply: Reply)
      reads this
    {
      && Contents().records == After(old(Contents().records), op, backend)
      && Answers(old(Contents().records), op, backend, reply)
      && (!Takes(old(Contents().records), op, backend) ==> stored == old(stored))
    }

    // The same field by field: the operation is done exactly as asked when it is
    // acceptable, there is room and the backend stores it, and else nothing changes.
    twostate predicate Effects(op: Op, backend: Backend, reply: Reply)
      reads this
    {
      var before, after := old(Contents().records), Contents().records;
      var room := op.Remove? || op.id in before || |before| < 128;
      && (if backend.loads && Accepts(before, op) && room && backend.stores then Leaves(before, after, op)
          else after == before)
      && (reply.Done? <==> backend.loads && Accepts(before, op) && room && backend.stores && backend.reports)
      && (reply.Conflict? <==> backend.loads && !Accepts(before, op))
      && (reply.Done? && !op.Remove? ==> op.id in after && reply.record == after[op.id])
    }

    // The end of a lease or a swap that is allowed.
    method Write(op: Op, fences: map<string, nat>, backend: Backend) returns (reply: Reply)
      requires Valid() && backend.loads && !op.Remove? && Allowed(Contents().records, op)
      requires var token := Written(Contents().records, op).value.fencingToken;
               && (fences == Contents().fences || fences == Contents().fences[op.id := token])
               && token == Fence(fences, op.id)
      modifies this
      ensures Valid() && Performs(op, backend, reply)
    {
      var records := Contents().records;
      var next := Written(records, op);
      var snapshot := Snapshot(records[op.id := next], fences);
      WriteKeeps(Contents(), op.id, next, fences);
      RecordsDecide(snapshot);
      RoomDecides(records, op, next);
      var ok := Persist(snapshot, backend);
      reply := if ok then Done(next) else Unavailable;
    }

    /** AcquireLease. */
    method AcquireLease(id: string, version: nat, value: Deployment, until: int, backend: Backend)
      returns (reply: Reply)
      requires Valid()
      modifies this
      ensures Valid()
      ensures Performs(Lease(id, version, value, until), backend, reply)
      ensures Effects(Lease(id, version, value, until), backend, reply)
    {
      ApplyMeans(Contents().records, Lease(id, version, value, until));
      var loaded := LoadSnapshot(backend);
      if loaded.None? {
        return Unavailable;
      }
      var snapshot := loaded.value;
      if Current(snapshot.records, id).version != version {
        return Conflict;
      }
      TokenIsFence(snapshot, id);
      reply := Write(Lease(id, version, value, until), snapshot.fences[id := Fence(snapshot.fences, id) + 1], backend);
    }

    /** CompareAndSwap. */
    method CompareAndSwap(id: string, version: nat, fence: nat, value: Deployment, backend: Backend)
      returns (reply: Reply)
      requires Valid()
      modifies this
      ensures Valid()
      ensures Performs(Swap(id, version, fence, value), backend, reply)
      ensures Effects(Swap(id, version, fence, value), backend, reply)
    {
      ApplyMeans(Contents().records, Swap(id, version, fence, value));
      var loaded := LoadSnapshot(backend);
      if loaded.None? {
        return Unavailable;
      }
      var snapshot := loaded.value;
      var current := Current(snapshot.records, id);
      if current.version != version || current.value.fencingToken != fence {
        return Conflict;
      }
      TokenIsFence(snapshot, id);
      reply := Write(Swap(id, version, fence, value), snapshot.fences, backend);
    }

    /** DeleteCAS: the fence goes with the record. */
    method DeleteCAS(id: string, version: nat, fence: nat, backend: Backend) returns (reply: Reply)
      requires Valid()
      modifies this
      ensures Valid()
      ensures Performs(Remove(id, version, fence), backend, reply)
      ensures Effects(Remove(id, version, fence), backend, reply)
    {
      ApplyMeans(Contents().records, Remove(id, version, fence));
      var loaded := LoadSnapshot(backend);
      if loaded.None? {
        return Unavailable;
      }
      var snapshot := loaded.value;
      if id !in snapshot.records {
        return Conflict;
      }
      var current := snapshot.records[id];
      if current.version != version || current.value.fencingToken != fence {
        return Conflict;
      }
      SmallerSet((snapshot.records - {id}).Keys, snapshot.records.Keys);
      RecordsDecide(Snapshot(snapshot.records - {id}, snapshot.fences - {id}));
      var ok := Persist(Snapshot(snapshot.records - {id}, snapshot.fences - {id}), backend);
      return if ok then Done(current) else Unavailable;
    }
  }

  // ------------------------------------------------------------------
  // The store runs the specification
  // ------------------------------------------------------------------

  // One operation with the backend's answers.
  datatype Call = Call(op: Op, backend: Backend)

  ghost predicate IsServed(records: Records, call: Call, took: bool, reply: Reply) {
    (took <==> Takes(records, call.op, call.backend)) && Answers(records, call.op, call.backend, reply)
  }

  ghost predicate AllServed(states: seq<Records>, calls: seq<Call>, took: seq<bool>, replies: seq<Reply>) {
    && |states| == |calls| + 1 && |took| == |replies| == |calls|
    && forall k {:trigger IsServed(states[k], calls[k], took[k], replies[k])} ::
         0 <= k < |calls| ==> IsServed(states[k], calls[k], took[k], replies[k])
  }

  function Ops(calls: seq<Call>): (ops: seq<Op>) {
    seq(|calls|, k requires 0 <= k < |calls| => calls[k].op)
  }

  method Perform(store: Store, call: Call) returns (reply: Reply)
    requires store.Valid()
    modifies store
    ensures store.Valid() && store.Performs(call.op, call.backend, reply)
  {
    match call.op {
      case Lease(id, version, value, until) =>
        reply := store.AcquireLease(id, version, value, until, call.backend);
      case Swap(id, version, fence, value) =>
        reply := store.CompareAndSwap(id, version, fence, value, call.backend);
      case Remove(id, version, fence) =>
        reply := store.DeleteCAS(id, version, fence, call.backend);
    }
  }

  lemma RunGrows(states: seq<Records>, ops: seq<Op>, took: seq<bool>, op: Op, took': bool, next: Records)
    requires IsRun(states, ops, took)
    requires IsStep(states[|ops|], op, took', next)
    ensures IsRun(states + [next], ops + [op], took + [took'])
  {
  }

  lemma ServedGrows(states: seq<Records>, calls: seq<Call>, took: seq<bool>, replies: seq<Reply>,
                    call: Call, took': bool, reply: Reply, next: Records)
    requires AllServed(states, calls, took, replies) && IsServed(states[|calls|], call, took', reply)
    ensures AllServed(states + [next], calls + [call], took + [took'], replies + [reply])
  {
  }

  // The calls are a run of the specification, and each is served like this.
  ghost predicate IsService(states: seq<Records>, calls: seq<Call>, took: seq<bool>, replies: seq<Reply>) {
    IsRun(states, Ops(calls), took) && AllServed(states, calls, took, replies)
  }

  lemma ServiceGrows(states: seq<Records>, calls: seq<Call>, took: seq<bool>, replies: seq<Reply>,
                     call: Call, reply: Reply)
    requires IsService(states, calls, took, replies)
    requires Answers(states[|calls|], call.op, call.backend, reply)
    ensures var records := states[|calls|];
            IsService(states + [After(records, call.op, call.backend)], calls + [call],
                      took + [Takes(records, call.op, call.backend)], replies + [reply])
  {
    var records := states[|calls|];
    var took', next := Takes(records, call.op, call.backend), After(records, call.op, call.backend);
    RunGrows(states, Ops(calls), took, call.op, took', next);
    ServedGrows(states, calls, took, replies, call, took', reply, next);
    assert Ops(calls + [call]) == Ops(calls) + [call.op];
  }

  /** Every sequence of calls of the store is a run of the specification, in which
      the records and the answers of the backend decide what takes effect and what
      the caller is told. */
  method Serve(store: Store, calls: seq<Call>)
    returns (replies: seq<Reply>, ghost took: seq<bool>, ghost states: seq<Records>)
    requires store.Valid()
    modifies store
    ensures store.Valid() && IsService(states, calls, took, replies)
    ensures states[0] == old(store.Contents().records) && states[|calls|] == store.Contents().records
  {
    replies, took, states := [], [], [store.Contents().records];
    for k := 0 to |calls|
      invariant store.Valid() && IsService(states, calls[..k], took, replies)
      invariant states[0] == old(store.Contents().records) && states[k] == store.Contents().records
    {
      ghost var records, call := states[k], calls[k];
      var reply := Perform(store, calls[k]);
      ServiceGrows(states, calls[..k], took, replies, call, reply);
      assert calls[..k + 1] == calls[..k] + [call];
      replies, took := replies + [reply], took + [Takes(records, call.op, call.backend)];
      states := states + [store.Contents().records];
    }
    assert calls[..|calls|] == calls;
  }

  /** A swap that is reported as done is read back with the caller's fields. */
  method SwapThenLoad(store: Store, id: string, version: nat, fence: nat, value: Deployment, backend: Backend)
    returns (reply: Reply, read: Option<Record>)
    requires store.Valid() && backend.loads
    modifies store
    ensures store.Valid() && (reply.Done? ==> read == Some(reply.record))
    ensures reply.Done? ==>
              read == Some(Record(version + 1, Deployment(id, value.body, fence, value.lease, value.leaseUntil)))
    ensures reply.Conflict? ==>
              read == if id in old(store.Contents().records) then Some(old(store.Contents().records[id])) else None
  {
    reply := store.CompareAndSwap(id, version, fence, value, backend);
    var failed;
    read, failed := store.Load(id, backend);
  }

  /** A lease that is reported as done is read back with the caller's value, the end
      of the lease and the next token. */
  method LeaseThenLoad(store: Store, id: string, version: nat, value: Deployment, until: int, backend: Backend)
    returns (reply: Reply, read: Option<Record>)
    requires store.Valid() && backend.loads
    modifies store
    ensures store.Valid() && (reply.Done? ==> read == Some(reply.record))
    ensures reply.Done? ==>
              && read.value.version == version + 1 && read.value.value.appId == id
              && read.value.value.body == value.body && read.value.value.leaseUntil == until
              && read.value.value.fencingToken == Fence(old(store.Contents().fences), id) + 1
  {
    TokenIsFence(store.Contents(), id);
    reply := store.AcquireLease(id, version, value, until, backend);
    var failed;
    read, failed := store.Load(id, backend);
  }
}

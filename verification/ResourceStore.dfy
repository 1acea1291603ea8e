/** The remote store behind Create and Delete: unique ids, unique names, and calls that can fail before or after
    taking effect. Requests overlap: between any two calls of one request, other requests may change the store. */
module ResourceStore {
  import opened Basics
  import opened Grpc

  type Labels = map<string, string>

  /** The two kinds of resources, each in a store of its own. */
  datatype Kind = Cluster | VM {
    function ServiceType(): string { if Cluster? then "cluster" else "vm" }
  }

  /** What a Create call carries. */
  datatype Submission<+B> = Submission(id: string, name: string, labels: Labels, body: B)

  /** What is stored: the submission, and a state that is the store's own affair. */
  datatype Resource<+B, +S> = Resource(sent: Submission<B>, state: S)

  type Table<B, S> = map<string, Resource<B, S>>

  /** What befalls a call: it works, it is refused without effect, or it takes effect and still returns an
      error. */
  datatype Fault = NoFault | Refused(code: Code) | Accepted(code: Code)

  predicate NameTaken<B, S>(table: Table<B, S>, name: string) {
    exists id :: id in table && table[id].sent.name == name
  }

  ghost predicate WellKept<B, S>(table: Table<B, S>) {
    && (forall id :: id in table ==> table[id].sent.id == id)
    && (forall a, b :: a in table && b in table && table[a].sent.name == table[b].sent.name ==> a == b)
  }

  // ----- the calls

  function CreateCall<B, S>(table: Table<B, S>, r: Resource<B, S>, fault: Fault): (Table<B, S>,
                            Result<Resource<B, S>>) {
    if fault.Refused? then (table, Err(fault.code))
    else if r.sent.id in table || NameTaken(table, r.sent.name) then (table, Err(AlreadyExists))
    else (table[r.sent.id := r], if fault.Accepted? then Err(fault.code) else Ok(r))
  }

  function GetCall<B, S>(table: Table<B, S>, id: string, fault: Fault): Result<Resource<B, S>> {
    if !fault.NoFault? then Err(fault.code)
    else if id in table then Ok(table[id])
    else Err(NotFound)
  }

  function DeleteCall<B, S>(table: Table<B, S>, id: string, fault: Fault): (Table<B, S>, Result<()>) {
    if fault.Refused? then (table, Err(fault.code))
    else if id !in table then (table, Err(NotFound))
    else (table - {id}, if fault.Accepted? then Err(fault.code) else Ok(()))
  }

  // ----- ownership

  const MANAGED_BY := "dcm.io/managed-by"
  const INSTANCE_ID := "dcm.io/instance-id"
  const SERVICE_TYPE := "dcm.io/service-type"

  function OwnershipLabels(kind: Kind, id: string): Labels {
    map[MANAGED_BY := "dcm", INSTANCE_ID := id, SERVICE_TYPE := kind.ServiceType()]
  }

  /** The caller's labels, then the ownership labels over them. */
  function Merged(kind: Kind, caller: Option<Labels>, id: string): Labels {
    (if caller.Some? then caller.value else map[]) + OwnershipLabels(kind, id)
  }

  /** The filter every listing applies. */
  predicate Owned(labels: Labels) {
    MANAGED_BY in labels && labels[MANAGED_BY] == "dcm"
  }

  /** The three labels that mark a resource as this provider's. */
  predicate Brands(kind: Kind, id: string, labels: Labels) {
    && Owned(labels)
    && INSTANCE_ID in labels && labels[INSTANCE_ID] == id
    && SERVICE_TYPE in labels && labels[SERVICE_TYPE] == kind.ServiceType()
  }

  /** Whatever labels the caller sent, the ownership labels prevail. */
  lemma OwnershipWins(kind: Kind, caller: Option<Labels>, id: string)
    ensures Brands(kind, id, Merged(kind, caller, id))
  {
    assert MANAGED_BY[7] == 'm' && INSTANCE_ID[7] == 'i' && SERVICE_TYPE[7] == 's';
  }

  /** mergeLabels. */
  method MergeLabels(kind: Kind, caller: Option<Labels>, id: string) returns (merged: Labels)
    ensures merged == Merged(kind, caller, id) && Brands(kind, id, merged)
    ensures merged.Keys == (if caller.Some? then caller.value.Keys else {}) + {MANAGED_BY, INSTANCE_ID, SERVICE_TYPE}
    ensures caller.Some? ==> forall k :: k in caller.value && k !in {MANAGED_BY, INSTANCE_ID, SERVICE_TYPE} ==>
              merged[k] == caller.value[k]
  {
    merged := map[];
    if caller.Some? {
      merged := CopyInto(merged, caller.value);
    }
    merged := CopyInto(merged, OwnershipLabels(kind, id));
    OwnershipWins(kind, caller, id);
  }

  /** One of mergeLabels' range loops. */
  method CopyInto(into: Labels, from: Labels) returns (merged: Labels)
    ensures merged == into + from
  {
    merged := into;
    var todo := from.Keys;
    while todo != {}
      invariant todo <= from.Keys
      invariant merged == into + (from - todo)
      decreases todo
    {
      var k :| k in todo;
      merged := merged[k := from[k]];
      todo := todo - {k};
    }
    assert from - todo == from;
  }

  // ----- runs

  /** What a caller asks for. */
  datatype Request<+B> = Request(id: string, name: string, labels: Option<Labels>, body: B)

  /** What is submitted to the store for it. */
  function Built<B>(kind: Kind, q: Request<B>): Submission<B> {
    Submission(q.id, q.name, Merged(kind, q.labels, q.id), q.body)
  }

  /** What can happen to the store, in any order: the Create call of some request, with the state the store would
      give the resource; a Delete call; the store's own progress. Get calls change nothing and are not steps. */
  datatype Op<+B, +S> =
    | Send(request: Request<B>, state: S, fault: Fault)
    | Delete(id: string, fault: Fault)
    | Reconcile(id: string, state: S)

  function Do<B, S>(kind: Kind, table: Table<B, S>, op: Op<B, S>): Table<B, S> {
    match op
    case Send(q, state, fault) => CreateCall(table, Resource(Built(kind, q), state), fault).0
    case Delete(id, fault) => DeleteCall(table, id, fault).0
    case Reconcile(id, state) => if id in table then table[id := table[id].(state := state)] else table
  }

  function After<B, S>(kind: Kind, start: Table<B, S>, ops: seq<Op<B, S>>): Table<B, S> {
    if ops == [] then start else Do(kind, After(kind, start, Front(ops)), Last(ops))
  }

  /** No Delete call for `id` among operations `m` to `n`. */
  predicate Spares<B, S>(ops: seq<Op<B, S>>, m: nat, n: nat, id: string)
    requires n <= |ops|
  {
    forall i :: m <= i < n && ops[i].Delete? ==> ops[i].id != id
  }

  lemma NextTable<B, S>(kind: Kind, start: Table<B, S>, ops: seq<Op<B, S>>, n: nat)
    requires n < |ops|
    ensures After(kind, start, ops[..n + 1]) == Do(kind, After(kind, start, ops[..n]), ops[n])
  {
    assert Front(ops[..n + 1]) == ops[..n];
  }

  /** Create never overwrites or duplicates: at most one resource is added, exactly as submitted and only if
      neither its id nor its name was in use. */
  lemma CreateIsIdempotent<B(!new), S(!new)>(table: Table<B, S>, r: Resource<B, S>, fault: Fault)
    requires WellKept(table)
    ensures var (after, reply) := CreateCall(table, r, fault);
            && WellKept(after)
            && (after != table <==> !fault.Refused? && r.sent.id !in table && !NameTaken(table, r.sent.name))
            && (after != table ==> after == table[r.sent.id := r])
            && (reply.Ok? ==> reply.value == r && r.sent.id in after && after[r.sent.id] == r)
  {
    var after := CreateCall(table, r, fault).0;
    if r.sent.id in after && r.sent.id !in table {
      forall a, b | a in after && b in after && after[a].sent.name == after[b].sent.name ensures a == b {
        assert a != r.sent.id ==> a in table && after[a] == table[a];
        assert b != r.sent.id ==> b in table && after[b] == table[b];
      }
    }
  }

  lemma DoIsWellKept<B(!new), S(!new)>(kind: Kind, table: Table<B, S>, op: Op<B, S>)
    requires WellKept(table)
    ensures WellKept(Do(kind, table, op))
  {
    if op.Send? {
      CreateIsIdempotent(table, Resource(Built(kind, op.request), op.state), op.fault);
    }
  }

  /** Ids and names stay unique over every run. */
  lemma {:induction false} RunIsWellKept<B(!new), S(!new)>(kind: Kind, start: Table<B, S>, ops: seq<Op<B, S>>)
    requires WellKept(start)
    ensures WellKept(After(kind, start, ops))
  {
    if ops != [] {
      RunIsWellKept(kind, start, Front(ops));
      DoIsWellKept(kind, After(kind, start, Front(ops)), Last(ops));
    }
  }

  lemma DoKeeps<B, S>(kind: Kind, table: Table<B, S>, op: Op<B, S>, id: string)
    requires id in table && (op.Delete? ==> op.id != id)
    ensures id in Do(kind, table, op) && Do(kind, table, op)[id].sent == table[id].sent
  {
  }

  /** Over any stretch of a run that does not delete it, a stored resource is neither lost nor rewritten: only its
      state may change. */
  lemma {:induction false} RunKeeps<B, S>(kind: Kind, start: Table<B, S>, ops: seq<Op<B, S>>, m: nat, n: nat,
                                          id: string)
    requires m <= n <= |ops| && Spares(ops, m, n, id)
    requires id in After(kind, start, ops[..m])
    ensures id in After(kind, start, ops[..n])
    ensures After(kind, start, ops[..n])[id].sent == After(kind, start, ops[..m])[id].sent
    decreases n
  {
    if m < n {
      RunKeeps(kind, start, ops, m, n - 1, id);
      NextTable(kind, start, ops, n - 1);
      DoKeeps(kind, After(kind, start, ops[..n - 1]), ops[n - 1], id);
    }
  }

  /** Nothing is stored that nobody asked for. */
  lemma {:induction false} StoredWasRequested<B, S>(kind: Kind, start: Table<B, S>, ops: seq<Op<B, S>>, id: string)
    returns (i: nat)
    requires id in After(kind, start, ops) && id !in start
    ensures i < |ops| && ops[i].Send? && !ops[i].fault.Refused?
    ensures After(kind, start, ops)[id].sent == Built(kind, ops[i].request) && ops[i].request.id == id
  {
    if id in After(kind, start, Front(ops))
       && After(kind, start, ops)[id].sent == After(kind, start, Front(ops))[id].sent {
      i := StoredWasRequested(kind, start, Front(ops), id);
    } else {
      i := |ops| - 1;
    }
  }

  /** Everything stored satisfies the listings' filter and names its own id and service type. */
  ghost predicate AllOwned<B, S>(kind: Kind, table: Table<B, S>) {
    forall id :: id in table ==> Brands(kind, id, table[id].sent.labels)
  }

  /** Ownership survives every run, whatever labels the callers sent. */
  lemma {:induction false} RunKeepsOwnership<B, S>(kind: Kind, start: Table<B, S>, ops: seq<Op<B, S>>)
    requires AllOwned(kind, start)
    ensures AllOwned(kind, After(kind, start, ops))
  {
    if ops != [] {
      RunKeepsOwnership(kind, start, Front(ops));
      DoKeepsOwnership(kind, After(kind, start, Front(ops)), Last(ops));
    }
  }

  lemma DoKeepsOwnership<B, S>(kind: Kind, table: Table<B, S>, op: Op<B, S>)
    requires AllOwned(kind, table)
    ensures AllOwned(kind, Do(kind, table, op))
  {
    if op.Send? {
      OwnershipWins(kind, op.request.labels, op.request.id);
    }
  }

  // ----- one request in a run

  /** A request to create: its Create call is operation `sent` of the run; its Get call, if it comes to that, finds
      the store as it is after `asked` operations. */
  datatype Attempt = Attempt(sent: nat, asked: nat, get: Fault)

  predicate IsAttempt<B, S>(ops: seq<Op<B, S>>, a: Attempt) {
    a.sent < a.asked <= |ops| && ops[a.sent].Send?
  }

  /** What the Create call answers. */
  function Created<B, S>(kind: Kind, start: Table<B, S>, ops: seq<Op<B, S>>, a: Attempt): Result<Resource<B, S>>
    requires IsAttempt(ops, a)
  {
    var op := ops[a.sent];
    CreateCall(After(kind, start, ops[..a.sent]), Resource(Built(kind, op.request), op.state), op.fault).1
  }

  /** How Create answers when the Get after an AlreadyExists fails: clusters keep the conflict if the id is
      absent, virtual machines report whatever Get said. */
  function Recover<B, S>(kind: Kind, conflict: Code, got: Result<Resource<B, S>>): Result<Resource<B, S>> {
    if kind.Cluster? && got == Err(NotFound) then Err(conflict) else got
  }

  /** What the caller is told. */
  function Answer<B, S>(kind: Kind, start: Table<B, S>, ops: seq<Op<B, S>>, a: Attempt): Result<Resource<B, S>>
    requires IsAttempt(ops, a)
  {
    var created := Created(kind, start, ops, a);
    if created != Err(AlreadyExists) then created
    else Recover(kind, AlreadyExists, GetCall(After(kind, start, ops[..a.asked]), ops[a.sent].request.id, a.get))
  }

  /** How many operations have happened when the answer is settled. */
  function AnsweredAt<B, S>(kind: Kind, start: Table<B, S>, ops: seq<Op<B, S>>, a: Attempt): (n: nat)
    requires IsAttempt(ops, a)
    ensures a.sent < n <= |ops|
  {
    if Created(kind, start, ops, a) == Err(AlreadyExists) then a.asked else a.sent + 1
  }

  /** A success describes what is stored under the requested id at that moment. */
  lemma SuccessIsStored<B(!new), S(!new)>(kind: Kind, start: Table<B, S>, ops: seq<Op<B, S>>, a: Attempt)
    requires WellKept(start) && IsAttempt(ops, a) && Answer(kind, start, ops, a).Ok?
    ensures var table, id := After(kind, start, ops[..AnsweredAt(kind, start, ops, a)]), ops[a.sent].request.id;
            id in table && Answer(kind, start, ops, a).value == table[id] && table[id].sent.id == id
  {
    RunIsWellKept(kind, start, ops[..AnsweredAt(kind, start, ops, a)]);
    NextTable(kind, start, ops, a.sent);
  }

  /** Two successes for one id, however the requests overlap with each other and with others and whatever the
      second one asked for, describe the same resource up to its state, unless it was deleted in between. */
  lemma SuccessesAgree<B(!new), S(!new)>(kind: Kind, start: Table<B, S>, ops: seq<Op<B, S>>, a: Attempt, b: Attempt)
    requires WellKept(start) && IsAttempt(ops, a) && IsAttempt(ops, b)
    requires ops[a.sent].request.id == ops[b.sent].request.id
    requires Answer(kind, start, ops, a).Ok? && Answer(kind, start, ops, b).Ok?
    requires AnsweredAt(kind, start, ops, a) <= AnsweredAt(kind, start, ops, b)
    requires Spares(ops, AnsweredAt(kind, start, ops, a), AnsweredAt(kind, start, ops, b), ops[a.sent].request.id)
    ensures Answer(kind, start, ops, b).value.sent == Answer(kind, start, ops, a).value.sent
  {
    SuccessIsStored(kind, start, ops, a);
    SuccessIsStored(kind, start, ops, b);
    RunKeeps(kind, start, ops, AnsweredAt(kind, start, ops, a), AnsweredAt(kind, start, ops, b),
             ops[a.sent].request.id);
  }

  /** The Create call was not refused for a reason other than a conflict. */
  predicate Passes(fault: Fault) {
    fault.Refused? ==> fault.code == AlreadyExists
  }

  /** A request that collides with what is stored, by id or by name: its Create changes nothing, and its answer
      depends on what the Get finds, later. For clusters the caller is told of the conflict exactly if the Get
      worked and the id was absent then, or the Get failed with NotFound or AlreadyExists; for virtual machines
      the Get's NotFound hides it. */
  lemma Collision<B, S>(kind: Kind, start: Table<B, S>, ops: seq<Op<B, S>>, a: Attempt)
    requires IsAttempt(ops, a)
    requires var before, q := After(kind, start, ops[..a.sent]), ops[a.sent].request;
             q.id in before || NameTaken(before, q.name)
    ensures After(kind, start, ops[..a.sent + 1]) == After(kind, start, ops[..a.sent])
    ensures var later, id, fault := After(kind, start, ops[..a.asked]), ops[a.sent].request.id, ops[a.sent].fault;
            var answer := Answer(kind, start, ops, a);
            && (!Passes(fault) ==> answer == Err(fault.code))
            && (answer.Ok? <==> Passes(fault) && a.get.NoFault? && id in later)
            && (answer.Ok? ==> answer.value == later[id])
            && (kind.Cluster? ==>
                  (answer == Err(AlreadyExists)
                   <==> && Passes(fault)
                        && if a.get.NoFault? then id !in later
                           else a.get.code == NotFound || a.get.code == AlreadyExists))
            && (kind.VM? ==>
                  && (answer == Err(AlreadyExists) <==> Passes(fault) && !a.get.NoFault? && a.get.code == AlreadyExists)
                  && (Passes(fault) && a.get.NoFault? && id !in later ==> answer == Err(NotFound)))
            && (Passes(fault) && !a.get.NoFault? && a.get.code != NotFound ==> answer == Err(a.get.code))
  {
    NextTable(kind, start, ops, a.sent);
  }

  /** A used id that is not deleted meanwhile: the answer is the stored resource exactly if the Get was reached and
      worked, and a conflict is never reported by a Get that worked. */
  lemma UsedId<B, S>(kind: Kind, start: Table<B, S>, ops: seq<Op<B, S>>, a: Attempt)
    requires IsAttempt(ops, a) && ops[a.sent].request.id in After(kind, start, ops[..a.sent])
    requires Spares(ops, a.sent, a.asked, ops[a.sent].request.id)
    ensures var answer := Answer(kind, start, ops, a);
            && (answer.Ok? <==> Passes(ops[a.sent].fault) && a.get.NoFault?)
            && (answer.Ok? ==> answer.value.sent == After(kind, start, ops[..a.sent])[ops[a.sent].request.id].sent)
  {
    Collision(kind, start, ops, a);
    RunKeeps(kind, start, ops, a.sent, a.asked, ops[a.sent].request.id);
  }

  /** Id and name are free: the resource is stored exactly if the Create was not refused, and if it worked the
      answer is that resource. */
  lemma FreshRequest<B, S>(kind: Kind, start: Table<B, S>, ops: seq<Op<B, S>>, a: Attempt)
    requires IsAttempt(ops, a)
    requires var before, q := After(kind, start, ops[..a.sent]), ops[a.sent].request;
             q.id !in before && !NameTaken(before, q.name)
    ensures var before, op, answer := After(kind, start, ops[..a.sent]), ops[a.sent], Answer(kind, start, ops, a);
            var r := Resource(Built(kind, op.request), op.state);
            && After(kind, start, ops[..a.sent + 1]) ==
               (if op.fault.Refused? then before else before[op.request.id := r])
            && (op.fault.NoFault? ==> answer == Ok(r))
            && (!op.fault.NoFault? && op.fault.code != AlreadyExists ==> answer == Err(op.fault.code))
  {
    NextTable(kind, start, ops, a.sent);
  }

  /** A Create that took effect without its caller learning of it is made good by any later retry whose own
      calls get through, whatever else happens between and during them short of a Delete: the answer is the resource
      first asked for. */
  lemma LostAckIsRecovered<B, S>(kind: Kind, start: Table<B, S>, ops: seq<Op<B, S>>, lost: nat, a: Attempt)
    requires IsAttempt(ops, a) && lost < a.sent && ops[lost].Send? && ops[lost].fault.Accepted?
    requires var before, q := After(kind, start, ops[..lost]), ops[lost].request;
             q.id !in before && !NameTaken(before, q.name) && ops[a.sent].request.id == q.id
    requires Spares(ops, lost, a.asked, ops[lost].request.id)
    requires Passes(ops[a.sent].fault) && a.get.NoFault?
    ensures var answer := Answer(kind, start, ops, a);
            answer.Ok? && answer.value.sent == Built(kind, ops[lost].request)
  {
    NextTable(kind, start, ops, lost);
    RunKeeps(kind, start, ops, lost + 1, a.sent, ops[lost].request.id);
    UsedId(kind, start, ops, a);
  }

  /** A name stays with the id that has it until that is deleted: a request for another id under that name stores
      nothing, and if it succeeds at all it describes a resource of another name that someone else stored. */
  lemma NameStaysTaken<B(!new), S(!new)>(kind: Kind, start: Table<B, S>, ops: seq<Op<B, S>>, m: nat, holder: string,
                         a: Attempt)
    requires WellKept(start) && IsAttempt(ops, a) && m <= a.sent
    requires holder in After(kind, start, ops[..m]) && Spares(ops, m, a.asked, holder)
    requires ops[a.sent].request.id != holder
    requires ops[a.sent].request.name == After(kind, start, ops[..m])[holder].sent.name
    ensures After(kind, start, ops[..a.sent + 1]) == After(kind, start, ops[..a.sent])
    ensures Answer(kind, start, ops, a).Ok? ==> Answer(kind, start, ops, a).value.sent.name != ops[a.sent].request.name
  {
    RunKeeps(kind, start, ops, m, a.sent, holder);
    Collision(kind, start, ops, a);
    RunKeeps(kind, start, ops, m, a.asked, holder);
    RunIsWellKept(kind, start, ops[..a.asked]);
  }

  // ----- the store as an object

  /** A client of the remote store. The faults, and what other clients do, are the environment's choice, handed to
      each call. */
  class Store<B(==), S(==)> {
    const kind: Kind
    ghost const start: Table<B, S>
    var table: Table<B, S>
    ghost var ops: seq<Op<B, S>>   // everything that has happened to the store

    ghost predicate Valid()
      reads this
    {
      table == After(kind, start, ops)
    }

    /** Since `before` the store has seen one request: its Create call and, if that was answered by a conflict,
        what others did before the Get. */
    ghost predicate Served(before: seq<Op<B, S>>, op: Op<B, S>, between: seq<Op<B, S>>)
      reads this
    {
      && op.Send?
      && var created := CreateCall(After(kind, start, before), Resource(Built(kind, op.request), op.state), op.fault).1;
         ops == before + [op] + if created == Err(AlreadyExists) then between else []
    }

    /** What the caller of that request is told. */
    ghost function Told(before: seq<Op<B, S>>, get: Fault): Result<Resource<B, S>>
      requires |before| < |ops| && ops[|before|].Send?
      reads this
    {
      Answer(kind, start, ops, Attempt(|before|, |ops|, get))
    }

    /** Without a conflict the caller is told what the Create call answered. */
    lemma ToldAtOnce(before: seq<Op<B, S>>, op: Op<B, S>, between: seq<Op<B, S>>, get: Fault,
                     created: Result<Resource<B, S>>)
      requires op.Send? && ops == before + [op] && created != Err(AlreadyExists)
      requires created ==
               CreateCall(After(kind, start, before), Resource(Built(kind, op.request), op.state), op.fault).1
      ensures Served(before, op, between) && Told(before, get) == created
    {
      assert ops[..|before|] == before && ops[|before|] == op;
      assert before + [op] == before + [op] + [];
    }

    /** After a conflict the caller is told what the Get finds now. */
    lemma ToldLater(before: seq<Op<B, S>>, op: Op<B, S>, between: seq<Op<B, S>>, get: Fault)
      requires Valid() && op.Send? && ops == before + [op] + between
      requires CreateCall(After(kind, start, before), Resource(Built(kind, op.request), op.state), op.fault).1
            == Err(AlreadyExists)
      ensures Served(before, op, between)
      ensures Told(before, get) == Recover(kind, AlreadyExists, GetCall(table, op.request.id, get))
    {
      assert ops[..|before|] == before && ops[|before|] == op && ops[..|ops|] == ops;
    }

    constructor (kind: Kind)
      ensures Valid() && this.kind == kind && start == map[] && ops == []
    {
      this.kind, start, table, ops := kind, map[], map[], [];
    }

    /** One Create call. `state` is what the store would make of it. */
    method Create(sent: Submission<B>, state: S, fault: Fault,
                  ghost q: Request<B>) returns (reply: Result<Resource<B, S>>)
      requires Valid() && sent == Built(kind, q)
      modifies this`table, this`ops
      ensures Valid() && ops == old(ops) + [Send(q, state, fault)]
      ensures (table, reply) == CreateCall(old(table), Resource(sent, state), fault)
    {
      ops := ops + [Send(q, state, fault)];
      if fault.Refused? {
        return Err(fault.code);
      }
      if sent.id in table || NameTaken(table, sent.name) {
        return Err(AlreadyExists);
      }
      table := table[sent.id := Resource(sent, state)];
      reply := if fault.Accepted? then Err(fault.code) else Ok(Resource(sent, state));
    }

    method Get(id: string, fault: Fault) returns (reply: Result<Resource<B, S>>)
      ensures reply == GetCall(table, id, fault)
    {
      if !fault.NoFault? {
        return Err(fault.code);
      }
      reply := if id in table then Ok(table[id]) else Err(NotFound);
    }

    method Delete(id: string, fault: Fault) returns (reply: Result<()>)
      requires Valid()
      modifies this`table, this`ops
      ensures Valid() && ops == old(ops) + [Op.Delete(id, fault)]
      ensures (table, reply) == DeleteCall(old(table), id, fault)
    {
      ops := ops + [Op.Delete(id, fault)];
      if fault.Refused? {
        return Err(fault.code);
      }
      if id !in table {
        return Err(NotFound);
      }
      table := table - {id};
      reply := if fault.Accepted? then Err(fault.code) else Ok(());
    }

    /** What other clients and the store itself do meanwhile. */
    method Others(more: seq<Op<B, S>>)
      requires Valid()
      modifies this`table, this`ops
      ensures Valid() && ops == old(ops) + more
    {
      for i := 0 to |more|
        invariant Valid() && ops == old(ops) + more[..i]
      {
        assert Front(old(ops) + more[..i + 1]) == old(ops) + more[..i];
        table := Do(kind, table, more[i]);
        ops := old(ops) + more[..i + 1];
      }
      assert more[..|more|] == more;
    }
  }

  /** The provider's Delete, of either kind: a NotFound counts as success. */
  method Delete<B, S>(store: Store<B, S>, id: string, fault: Fault) returns (r: Result<()>)
    requires store.Valid()
    modifies store`table, store`ops
    ensures store.Valid() && store.ops == old(store.ops) + [Op.Delete(id, fault)]
    ensures r.Ok? <==> fault.NoFault? || fault.code == NotFound || (fault.Accepted? && id !in old(store.table))
    ensures store.table == if fault.Refused? then old(store.table) else old(store.table) - {id}
  {
    r := store.Delete(id, fault);
    if r == Err(NotFound) {
      r := Ok(());
    }
  }
}

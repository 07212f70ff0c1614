/** How ids are given out over a run: the least free ones first, and when a list shows all that there is. */
module ApiIds {
  import opened CrudHandler
  import opened ApiHandler
  import opened ApiRefinement
  import opened ApiRuns

  // ---- Live ids ----

  ghost function Live(m: Store, entity: string): set<int> {
    set k <- m.Keys | k.0 == entity :: k.1
  }

  lemma LiveIff(m: Store, entity: string, id: int)
    ensures id in Live(m, entity) <==> (entity, id) in m
  {
    if (entity, id) in m {
      assert (entity, id) in m.Keys && (entity, id).0 == entity && (entity, id).1 == id;
    }
  }

  ghost function UpTo(n: nat): (s: set<int>)
    ensures |s| == n && forall i :: i in s <==> 1 <= i <= n
  {
    if n == 0 then {} else UpTo(n - 1) + {n}
  }

  /** All live ids are among 1..top. */
  ghost predicate Within(m: Store, entity: string, top: nat) {
    Live(m, entity) <= UpTo(top)
  }

  lemma {:induction false} Counted(s: set<int>, t: set<int>)
    requires s <= t
    ensures |s| <= |t| && (|s| == |t| ==> s == t)
  {
    assert t == s + (t - s);
  }

  /** An id given out is at most one more than the number of live ones. */
  lemma IdsBounded(m: Store, entity: string, id: int)
    requires IsLeastFree(m, entity, id)
    ensures id <= |Live(m, entity)| + 1
  {
    forall j | j in UpTo(id - 1)
      ensures j in Live(m, entity)
    {
      LiveIff(m, entity, j);
    }
    Counted(UpTo(id - 1), Live(m, entity));
  }

  /** A list of n ids is the complete list exactly when n is the number of live ids. */
  lemma CompleteIff(m: Store, entity: string, n: nat)
    requires IsLeastFree(m, entity, n + 1)
    ensures n == |Live(m, entity)| <==> forall j :: (entity, j) in m <==> 1 <= j <= n
  {
    forall j: int
      ensures j in Live(m, entity) <==> (entity, j) in m
    {
      LiveIff(m, entity, j);
    }
    assert UpTo(n) <= Live(m, entity);
    Counted(UpTo(n), Live(m, entity));
    if forall j :: (entity, j) in m <==> 1 <= j <= n {
      assert UpTo(n) == Live(m, entity);
    }
  }

  // ---- Runs without a removal ----

  predicate IsCreate(op: Operation, entity: string) {
    op.Create? && op.entity == entity
  }

  ghost predicate NoRemoval(ops: seq<Operation>, entity: string) {
    forall i :: 0 <= i < |ops| ==> !(ops[i].Remove? && ops[i].entity == entity)
  }

  /** The i-th request gave out the id. */
  ghost predicate Gave(ops: seq<Operation>, answers: seq<Answer>, entity: string, i: int, id: int) {
    0 <= i < |ops| && i < |answers| && IsCreate(ops[i], entity) && answers[i] == Created(id)
  }

  lemma OneStep(m: Store, op: Operation, a: Answer, m': Store, entity: string, id: int)
    requires Allowed(m, op, a, m') && !(op.Remove? && op.entity == entity)
    ensures (entity, id) in m' <==> (entity, id) in m || (IsCreate(op, entity) && a == Created(id))
  {
  }

  /** The live ids are those from the start and those given out since. */
  lemma {:induction false} LiveAfter(ms: seq<Store>, ops: seq<Operation>, answers: seq<Answer>, entity: string,
                                      k: nat, id: int)
    requires Run(ms, ops, answers) && NoRemoval(ops, entity) && k <= |ops|
    ensures (entity, id) in ms[k] <==> (entity, id) in ms[0] || exists i :: 0 <= i < k && Gave(ops, answers, entity, i, id)
  {
    if k > 0 {
      LiveAfter(ms, ops, answers, entity, k - 1, id);
      OneStep(ms[k - 1], ops[k - 1], answers[k - 1], ms[k], entity, id);
      if (entity, id) in ms[k] && (entity, id) !in ms[k - 1] {
        assert Gave(ops, answers, entity, k - 1, id);
      }
      if i :| 0 <= i < k && Gave(ops, answers, entity, i, id) {
        assert i < k - 1 || i == k - 1;
      }
    }
  }

  lemma GaveLeast(ms: seq<Store>, ops: seq<Operation>, answers: seq<Answer>, entity: string, i: nat, id: int)
    requires Run(ms, ops, answers) && Gave(ops, answers, entity, i, id)
    ensures IsLeastFree(ms[i], entity, id)
  {
    assert Allowed(ms[i], ops[i], answers[i], ms[i + 1]);
  }

  /**
   Creations give out the ids that were free at the start, in increasing order and without a gap: each id is free at the
   start and larger than those before, and no free id below it is left out.
   */
  lemma IdsInOrder(ms: seq<Store>, ops: seq<Operation>, answers: seq<Answer>, entity: string, k: nat, id: int)
    requires Run(ms, ops, answers) && NoRemoval(ops, entity) && Gave(ops, answers, entity, k, id)
    ensures (entity, id) !in ms[0]
    ensures forall i, n :: 0 <= i < k && Gave(ops, answers, entity, i, n) ==> n < id
    ensures forall n :: 1 <= n < id && (entity, n) !in ms[0] ==> exists i :: 0 <= i < k && Gave(ops, answers, entity, i, n)
  {
    GaveLeast(ms, ops, answers, entity, k, id);
    LiveAfter(ms, ops, answers, entity, k, id);
    forall i, n | 0 <= i < k && Gave(ops, answers, entity, i, n)
      ensures n < id
    {
      LiveAfter(ms, ops, answers, entity, k, n);
      LiveAfter(ms, ops, answers, entity, i, id);
      GaveLeast(ms, ops, answers, entity, i, n);
    }
    forall n | 1 <= n < id && (entity, n) !in ms[0]
      ensures exists i :: 0 <= i < k && Gave(ops, answers, entity, i, n)
    {
      LiveAfter(ms, ops, answers, entity, k, n);
    }
  }

  // ---- When a list is complete ----

  function Creations(ops: seq<Operation>, entity: string): nat {
    if ops == [] then 0
    else Creations(ops[..|ops| - 1], entity) + if IsCreate(ops[|ops| - 1], entity) then 1 else 0
  }

  /** The largest live id, 0 if there is none, and no id outside 1..top. */
  ghost predicate IsTop(m: Store, entity: string, top: nat) {
    Within(m, entity, top) && (top > 0 ==> (entity, top) in m)
  }

  function Max(a: nat, b: nat): nat {
    if a < b then b else a
  }

  lemma LiveStep(m: Store, op: Operation, a: Answer, m': Store, entity: string)
    requires Allowed(m, op, a, m') && !(op.Remove? && op.entity == entity)
    ensures Live(m', entity) == Live(m, entity) + if IsCreate(op, entity) then {a.id} else {}
    ensures |Live(m', entity)| == |Live(m, entity)| + if IsCreate(op, entity) then 1 else 0
  {
    forall j: int
      ensures j in Live(m', entity) <==> j in Live(m, entity) || (IsCreate(op, entity) && j == a.id)
    {
      LiveIff(m, entity, j);
      LiveIff(m', entity, j);
      OneStep(m, op, a, m', entity, j);
    }
    if IsCreate(op, entity) {
      LiveIff(m, entity, a.id);
    }
  }

  /** Creations first fill the holes below the largest id. */
  lemma {:induction false} Fills(ms: seq<Store>, ops: seq<Operation>, answers: seq<Answer>, entity: string, top: nat)
    requires Run(ms, ops, answers) && NoRemoval(ops, entity) && Within(ms[0], entity, top)
    ensures |Live(ms[|ops|], entity)| == |Live(ms[0], entity)| + Creations(ops, entity)
    ensures Within(ms[|ops|], entity, Max(top, |Live(ms[|ops|], entity)|))
    decreases |ops|
  {
    if ops != [] {
      var n := |ops| - 1;
      Fills(ms[..n + 1], ops[..n], answers[..n], entity, top);
      LiveStep(ms[n], ops[n], answers[n], ms[n + 1], entity);
      if IsCreate(ops[n], entity) {
        IdsBounded(ms[n], entity, answers[n].id);
      }
    }
  }

  /**
   After a run without a removal a list shows all live ids exactly when the creations have filled the holes: when the ids
   live at the start and the ids given out are together at least as many as the largest id at the start.
   */
  lemma ListCompleteIff(ms: seq<Store>, ops: seq<Operation>, answers: seq<Answer>, entity: string, top: nat, n: nat)
    requires Run(ms, ops, answers) && NoRemoval(ops, entity) && IsTop(ms[0], entity, top)
    requires Allowed(ms[|ops|], List(entity), Listed(n), ms[|ops|])
    ensures (forall j :: (entity, j) in ms[|ops|] <==> 1 <= j <= n)
            <==> |Live(ms[0], entity)| + Creations(ops, entity) >= top
  {
    var m := ms[|ops|];
    Fills(ms, ops, answers, entity, top);
    CompleteIff(m, entity, n);
    var l := Live(m, entity);
    if |l| >= top {
      Counted(l, UpTo(|l|));
      LiveIff(m, entity, n + 1);
      IdsBounded(m, entity, n + 1);
      assert n + 1 !in UpTo(|l|);
    } else {
      LiveAfter(ms, ops, answers, entity, |ops|, top);
    }
  }

  // ---- Holes ----

  /** When one id of a complete set is removed, the list stays complete exactly when it was the largest. */
  lemma RemovalIff(m: Store, entity: string, n: nat, id: int, m': Store, k: nat)
    requires forall j :: (entity, j) in m <==> 1 <= j <= n
    requires (entity, id) in m && Allowed(m, Remove(entity, id), Done, m')
    requires Allowed(m', List(entity), Listed(k), m')
    ensures k == id - 1
    ensures (forall j :: (entity, j) in m' <==> 1 <= j <= k) <==> id == n
  {
    assert forall j :: (entity, j) in m' <==> 1 <= j <= n && j != id;
    assert IsLeastFree(m', entity, k + 1);
    assert (entity, id) !in m';
    if id < n {
      assert (entity, n) in m';
    }
  }

  /** POST, POST, DELETE 1, the list, GET 2. */
  function Hole(entity: string, first: string, second: string): seq<Operation> {
    [Create(entity, first), Create(entity, second), Remove(entity, 1), List(entity), Fetch(entity, 2)]
  }

  lemma HoleInList(ms: seq<Store>, answers: seq<Answer>, entity: string, first: string, second: string)
    requires Run(ms, Hole(entity, first, second), answers) && ms[0] == map[]
    ensures answers[0] == Created(1) && answers[1] == Created(2)
    ensures answers[3] == Listed(0) && answers[4] == Data(second)
  {
    var ops := Hole(entity, first, second);
    assert Allowed(ms[0], ops[0], answers[0], ms[1]);
    assert ms[1] == map[(entity, 1) := first];
    assert Allowed(ms[1], ops[1], answers[1], ms[2]);
    assert ms[2] == map[(entity, 1) := first, (entity, 2) := second];
    assert Allowed(ms[2], ops[2], answers[2], ms[3]);
    assert ms[3] == map[(entity, 2) := second];
    assert Allowed(ms[3], ops[3], answers[3], ms[4]);
    assert Allowed(ms[4], ops[4], answers[4], ms[5]);
  }

  /** The replies to these requests: the list is empty although the second entity is there. */
  lemma HoleOverHttp(prefix: string, base: string, fs: seq<Files>, reqs: seq<Request>, replies: seq<Reply>,
                     entity: string, first: string, second: string)
    requires SlashesAgree(prefix, base) && Asked(prefix, Hole(entity, first, second), reqs)
    requires Served(prefix, base, fs, reqs, replies) && fs[0] == map[]
    ensures replies[3] == Reply(OK, Listing(0)) && replies[4] == Reply(OK, Content(second))
  {
    var ops := Hole(entity, first, second);
    var ms, answers := RunRefines(prefix, base, fs, reqs, replies, ops, map[]);
    HoleInList(ms, answers, entity, first, second);
    assert Says(replies[3], ops[3], answers[3]) && Says(replies[4], ops[4], answers[4]);
  }
}

// Buffer: a move-only owner of heap memory or of memory given back through a callback.
module Buffers {
  import opened Bytes
  import opened Wrappers

  // `owned` names a heap block, `ptr` an address, `release` a callback. A callback is named
  // by the construction it was passed to.
  datatype Buf = Buf(owned: Option<nat>, ptr: Option<nat>, size: nat, release: Option<nat>)

  const EMPTY := Buf(None, None, 0, None)

  // Heap and callback ownership never meet in one value.
  predicate OneOwner(b: Buf) {
    b.owned.None? || (b.ptr.None? && b.release.None?)
  }

  // The callback that destroying b runs, and the heap block it frees.
  function Due(b: Buf): Option<nat> {
    if b.owned.None? && b.ptr.Some? then b.release else None
  }

  // The pointer that the callback is run with.
  function Argument(b: Buf): Option<nat> {
    if Due(b).Some? then b.ptr else None
  }

  function Listed(o: Option<nat>): seq<nat> {
    if o.Some? then [o.value] else []
  }

  // What has been released, oldest first: callbacks run with their argument, heap blocks freed.
  class Ledger {
    var released: seq<nat>
    var arguments: seq<nat>
    var freed: seq<nat>

    constructor ()
      ensures released == [] && arguments == [] && freed == []
    {
      released, arguments, freed := [], [], [];
    }
  }

  class Buffer {
    var owned: Option<nat>
    var ptr: Option<nat>
    var size: nat
    var release: Option<nat>

    function Value(): Buf
      reads this
    {
      Buf(owned, ptr, size, release)
    }

    constructor ()
      ensures Value() == EMPTY
    {
      owned, ptr, size, release := None, None, 0, None;
    }

    // Buffer(n): `block` is the new heap block.
    constructor Heap(n: nat, block: nat)
      ensures Value() == Buf(Some(block), None, n, None)
    {
      owned, ptr, size, release := Some(block), None, n, None;
    }

    // Buffer(p, n, rel); either p or rel may be null.
    constructor External(p: Option<nat>, n: nat, rel: Option<nat>)
      ensures Value() == Buf(None, p, n, rel)
    {
      owned, ptr, size, release := None, p, n, rel;
    }

    // Move construction empties the source.
    constructor Move(other: Buffer)
      modifies other
      ensures Value() == old(other.Value()) && other.Value() == EMPTY
    {
      owned, ptr, size, release := other.owned, other.ptr, other.size, other.release;
      new;
      other.owned, other.ptr, other.size, other.release := None, None, 0, None;
    }

    // The user-written part of the destructor, shared with move assignment.
    method RunRelease(l: Ledger)
      modifies l`released, l`arguments
      ensures l.released == old(l.released) + Listed(Due(Value()))
      ensures l.arguments == old(l.arguments) + Listed(Argument(Value()))
    {
      if owned.None? && ptr.Some? && release.Some? {
        l.released, l.arguments := l.released + [release.value], l.arguments + [ptr.value];
      }
    }

    // unique_ptr: dropping a heap block frees it.
    method FreeBlock(l: Ledger)
      modifies l`freed
      ensures l.freed == old(l.freed) + Listed(owned)
    {
      if owned.Some? { l.freed := l.freed + [owned.value]; }
    }

    method Destroy(l: Ledger)
      modifies l
      ensures l.released == old(l.released) + Listed(Due(Value()))
      ensures l.arguments == old(l.arguments) + Listed(Argument(Value()))
      ensures l.freed == old(l.freed) + Listed(owned)
    {
      RunRelease(l);
      FreeBlock(l);
    }

    // Move assignment: a no-op onto itself; otherwise what this held is released first.
    method MoveAssign(other: Buffer, l: Ledger)
      modifies this, other, l
      ensures this == other ==>
                Value() == old(Value()) && l.released == old(l.released) && l.arguments == old(l.arguments) && l.freed == old(l.freed)
      ensures this != other ==>
                && Value() == old(other.Value()) && other.Value() == EMPTY
                && l.released == old(l.released) + Listed(Due(old(Value())))
                && l.arguments == old(l.arguments) + Listed(Argument(old(Value())))
                && l.freed == old(l.freed) + Listed(old(owned))
    {
      if this != other {
        RunRelease(l);
        FreeBlock(l);
        owned, other.owned := other.owned, None;
        ptr, other.ptr := other.ptr, None;
        size, other.size := other.size, 0;
        release, other.release := other.release, None;
      }
    }
  }

  // Programs over named variables. A construction draws fresh ids, so `made` counts them.
  datatype Op =
    | Default(x: nat) | Heap(x: nat, n: nat) | External(x: nat, p: Option<nat>, n: nat, callback: bool)
    | MoveConstruct(x: nat, from: nat) | MoveAssign(x: nat, from: nat) | Destroy(x: nat)

  datatype State = State(vars: map<nat, Buf>, made: nat, released: seq<nat>, arguments: seq<nat>, freed: seq<nat>)

  // Constructions need a name that is not in use, the other operations ones that are.
  predicate Allowed(vars: set<nat>, op: Op) {
    match op
    case Default(x) => x !in vars
    case Heap(x, _) => x !in vars
    case External(x, _, _, _) => x !in vars
    case MoveConstruct(x, from) => x !in vars && from in vars
    case MoveAssign(x, from) => x in vars && from in vars
    case Destroy(x) => x in vars
  }

  // Destroying x, or the first half of assigning to it.
  function Drop(s: State, x: nat): State
    requires x in s.vars
  {
    State(s.vars - {x}, s.made, s.released + Listed(Due(s.vars[x])), s.arguments + Listed(Argument(s.vars[x])),
          s.freed + Listed(s.vars[x].owned))
  }

  function Step(s: State, op: Op): State {
    if !Allowed(s.vars.Keys, op) then s
    else
      match op
      case Default(x) => s.(vars := s.vars[x := EMPTY])
      case Heap(x, n) => s.(vars := s.vars[x := Buf(Some(s.made), None, n, None)], made := s.made + 1)
      case External(x, p, n, callback) =>
        s.(vars := s.vars[x := Buf(None, p, n, if callback then Some(s.made) else None)], made := s.made + 1)
      case MoveConstruct(x, from) => s.(vars := s.vars[x := s.vars[from]][from := EMPTY])
      case MoveAssign(x, from) =>
        if x == from then s
        else Drop(s, x).(vars := s.vars[x := s.vars[from]][from := EMPTY])
      case Destroy(x) => Drop(s, x)
  }

  const NOTHING := State(map[], 0, [], [], [])

  function Exec(ops: seq<Op>): State {
    if ops == [] then NOTHING else Step(Exec(ops[..|ops| - 1]), ops[|ops| - 1])
  }

  // Variable x is the one that will have to give back id: a callback with a non-null pointer,
  // or a heap block.
  predicate Holds(s: State, x: nat, id: nat) {
    x in s.vars && (Due(s.vars[x]) == Some(id) || s.vars[x].owned == Some(id))
  }

  function GivenBack(s: State): seq<nat> {
    s.released + s.freed
  }

  // Each id that construction handed out and that needs giving back is either held by exactly
  // one variable and not given back, or held by none and given back exactly once.
  ghost predicate Inv(s: State) {
    && (forall x :: x in s.vars ==> OneOwner(s.vars[x]))
    && (forall x, id: nat :: Holds(s, x, id) ==> id < s.made && id !in GivenBack(s))
    && (forall x, y, id :: Holds(s, x, id) && Holds(s, y, id) ==> x == y)
    && (forall id :: id in GivenBack(s) ==> id < s.made)
    && Distinct(GivenBack(s))
  }

  // The ids that need giving back: of a heap block, or of a callback with a non-null pointer.
  function Owner(s: State, op: Op): Option<nat> {
    if !Allowed(s.vars.Keys, op) then None
    else
      match op
      case Heap(_, _) => Some(s.made)
      case External(_, p, _, callback) => if p.Some? && callback then Some(s.made) else None
      case _ => None
  }

  function Owners(ops: seq<Op>): seq<nat> {
    if ops == [] then []
    else Owners(ops[..|ops| - 1]) + Listed(Owner(Exec(ops[..|ops| - 1]), ops[|ops| - 1]))
  }

  lemma StepOk(s: State, op: Op)
    requires Inv(s)
    ensures Inv(Step(s, op))
  {
    var t := Step(s, op);
    if Allowed(s.vars.Keys, op) {
      match op
      case Default(x) => Created(s, t, x);
      case Heap(x, _) => Created(s, t, x);
      case External(x, _, _, _) => Created(s, t, x);
      case MoveConstruct(x, from) => Moved(s, t, x, from);
      case MoveAssign(x, from) => if x != from { Dropped(s, x); Moved(Drop(s, x), t, x, from); }
      case Destroy(x) => Dropped(s, x);
    }
  }

  lemma Created(s: State, t: State, x: nat)
    requires Inv(s) && x !in s.vars && x in t.vars && t.vars == s.vars[x := t.vars[x]]
    requires t.released == s.released && t.arguments == s.arguments && t.freed == s.freed && s.made <= t.made && OneOwner(t.vars[x])
    requires forall id: nat :: Holds(t, x, id) ==> s.made <= id < t.made
    ensures Inv(t)
  {
    forall y, id | y != x ensures Holds(t, y, id) <==> Holds(s, y, id) {}
  }

  lemma Moved(s: State, t: State, x: nat, from: nat)
    requires Inv(s) && x !in s.vars && from in s.vars && t == s.(vars := s.vars[x := s.vars[from]][from := EMPTY])
    ensures Inv(t)
  {
    forall y, id ensures Holds(t, y, id) <==> if y == x then Holds(s, from, id) else y != from && Holds(s, y, id) {}
  }

  lemma Dropped(s: State, x: nat)
    requires Inv(s) && x in s.vars
    ensures Inv(Drop(s, x))
    ensures forall id :: id in GivenBack(Drop(s, x)) <==> id in GivenBack(s) || Holds(s, x, id)
  {
    var t := Drop(s, x);
    var b := s.vars[x];
    forall y, id ensures Holds(t, y, id) <==> y != x && Holds(s, y, id) {}
    assert forall id :: id in GivenBack(t) <==> id in GivenBack(s) || Holds(s, x, id);
    assert OneOwner(b);
    if Due(b).Some? {
      assert Holds(s, x, Due(b).value) && b.owned.None?;
      assert t.freed == s.freed;
      Inserted(s.released, s.freed, Due(b).value);
    } else if b.owned.Some? {
      assert Holds(s, x, b.owned.value);
      assert GivenBack(t) == GivenBack(s) + [b.owned.value];
    } else {
      assert GivenBack(t) == GivenBack(s);
    }
  }

  lemma Inserted(a: seq<nat>, b: seq<nat>, id: nat)
    requires Distinct(a + b) && id !in a + b
    ensures Distinct(a + [id] + b)
  {
    var s, t := a + b, a + [id] + b;
    forall i | 0 <= i < |t| && i != |a| ensures t[i] == s[if i < |a| then i else i - 1] {}
    forall i, j | 0 <= i < j < |t| ensures t[i] != t[j] {
      if i == |a| { assert t[j] == s[j - 1]; } else if j == |a| { assert t[i] == s[i]; }
    }
  }

  lemma {:induction false} ExecOk(ops: seq<Op>)
    ensures Inv(Exec(ops))
  {
    hide Step;
    if ops != [] {
      ExecOk(ops[..|ops| - 1]);
      StepOk(Exec(ops[..|ops| - 1]), ops[|ops| - 1]);
    }
  }

  // An id is given back by the operation that destroys or overwrites its holder, and by no
  // other operation; every other holder's id stays held.
  lemma GivenBackWhen(s: State, op: Op, id: nat)
    requires Inv(s)
    ensures var t := Step(s, op);
            && (id in GivenBack(t) && id !in GivenBack(s) <==>
                  exists x :: Holds(s, x, id) && (op == Destroy(x) || (op.MoveAssign? && op.x == x && op.from != x && op.from in s.vars)))
            && ((exists y :: Holds(t, y, id)) <==>
                  Owner(s, op) == Some(id) || ((exists x :: Holds(s, x, id)) && id !in GivenBack(t)))
  {
    var t := Step(s, op);
    StepOk(s, op);
    if exists x :: Holds(s, x, id) {
      var x :| Holds(s, x, id);
      if Allowed(s.vars.Keys, op) {
        if op == Destroy(x) || (op.MoveAssign? && op.x == x && op.from != x) {
          Dropped(s, x);
        } else if op.Destroy? {
          Dropped(s, op.x);
          assert Holds(t, x, id);
        } else if op.MoveAssign? && op.x != op.from {
          Dropped(s, op.x);
          assert Holds(t, if op.from == x then op.x else x, id);
        } else if op.MoveConstruct? {
          assert Holds(t, if op.from == x then op.x else x, id);
        } else {
          assert Holds(t, x, id);
        }
      }
    } else {
      NotHeld(s, op, id);
    }
  }

  lemma NotHeld(s: State, op: Op, id: nat)
    requires Inv(s) && forall x :: !Holds(s, x, id)
    ensures id in GivenBack(Step(s, op)) <==> id in GivenBack(s)
    ensures (exists y :: Holds(Step(s, op), y, id)) <==> Owner(s, op) == Some(id)
  {
    var t := Step(s, op);
    if Allowed(s.vars.Keys, op) {
      if op.Destroy? || op.MoveAssign? {
        Dropped(s, op.x);
      }
      if Owner(s, op) == Some(id) {
        assert Holds(t, op.x, id);
      } else if y :| Holds(t, y, id) {
        assert Holds(s, if op.MoveConstruct? || op.MoveAssign? then (if y == op.x then op.from else y) else y, id);
      }
    }
  }

  // Every owner is held or given back.
  lemma {:induction false} OwnersAccounted(ops: seq<Op>)
    ensures forall id :: id in Owners(ops) <==> id in GivenBack(Exec(ops)) || exists x :: Holds(Exec(ops), x, id)
  {
    hide Step, Holds, Owner;
    if ops == [] {
      NothingHeld();
    } else {
      var before, op := ops[..|ops| - 1], ops[|ops| - 1];
      OwnersAccounted(before);
      ExecOk(before);
      forall id ensures id in Owners(ops) <==> id in GivenBack(Exec(ops)) || exists x :: Holds(Exec(ops), x, id) {
        Accounted(Exec(before), op, id);
      }
    }
  }

  lemma NothingHeld()
    ensures forall x, id :: !Holds(NOTHING, x, id)
  {
  }

  lemma Accounted(s: State, op: Op, id: nat)
    requires Inv(s)
    ensures var t := Step(s, op);
            (id in GivenBack(t) || exists x :: Holds(t, x, id)) <==>
            (id in GivenBack(s) || (exists x :: Holds(s, x, id)) || Owner(s, op) == Some(id))
  {
    hide Inv;
    GivenBackWhen(s, op, id);
    StillGivenBack(s, op, id);
  }

  lemma StillGivenBack(s: State, op: Op, id: nat)
    ensures id in GivenBack(s) ==> id in GivenBack(Step(s, op))
  {
  }

  // The pointer that construction number id was given with its callback.
  function Given(ops: seq<Op>, id: nat): Option<nat> {
    if ops == [] then None
    else
      var before, op := ops[..|ops| - 1], ops[|ops| - 1];
      if op.External? && op.callback && Allowed(Exec(before).vars.Keys, op) && Exec(before).made == id then op.p
      else Given(before, id)
  }

  // What is held, and what was run, goes with the pointer it was constructed with.
  ghost predicate PointersOk(s: State, given: nat -> Option<nat>) {
    && |s.arguments| == |s.released|
    && (forall i :: 0 <= i < |s.released| ==> s.released[i] < s.made && given(s.released[i]) == Some(s.arguments[i]))
    && (forall x :: x in s.vars ==> PointerOk(s.vars[x], s.made, given))
  }

  ghost predicate PointerOk(b: Buf, made: nat, given: nat -> Option<nat>) {
    Due(b).Some? ==> Due(b).value < made && given(Due(b).value) == b.ptr
  }

  // Every callback is run with the pointer that was given with it, wherever its owner has been
  // moved in between.
  lemma {:induction false} RunWithItsPointer(ops: seq<Op>)
    ensures PointersOk(Exec(ops), id => Given(ops, id))
  {
    hide Step, PointersOk;
    if ops == [] {
      NoPointers(id => Given(ops, id));
    } else {
      var before, op := ops[..|ops| - 1], ops[|ops| - 1];
      RunWithItsPointer(before);
      PointersStep(Exec(before), op, id => Given(before, id), id => Given(ops, id));
    }
  }

  lemma NoPointers(given: nat -> Option<nat>)
    ensures PointersOk(NOTHING, given)
  {
  }

  lemma PointersStep(s: State, op: Op, given: nat -> Option<nat>, given': nat -> Option<nat>)
    requires PointersOk(s, given) && forall id: nat :: id < s.made ==> given'(id) == given(id)
    requires op.External? && op.callback && Allowed(s.vars.Keys, op) ==> given'(s.made) == op.p
    ensures PointersOk(Step(s, op), given')
  {
    SamePointers(s, given, given');
    var t := Step(s, op);
    if Allowed(s.vars.Keys, op) {
      if op.Default? || op.Heap? || op.External? {
        PointersMore(s, t, op.x, given');
      } else if op.Destroy? {
        PointersDrop(s, op.x, given');
      } else if op.MoveConstruct? {
        PointersMove(s, op.x, op.from, given');
      } else if op.x != op.from {
        PointersDrop(s, op.x, given');
        PointersMove(Drop(s, op.x), op.x, op.from, given');
        assert t.vars == Drop(s, op.x).vars[op.x := s.vars[op.from]][op.from := EMPTY];
      }
    }
  }

  lemma SamePointers(s: State, given: nat -> Option<nat>, given': nat -> Option<nat>)
    requires PointersOk(s, given) && forall id: nat :: id < s.made ==> given'(id) == given(id)
    ensures PointersOk(s, given')
  {
    forall x | x in s.vars ensures PointerOk(s.vars[x], s.made, given') { assert PointerOk(s.vars[x], s.made, given); }
  }

  lemma PointersMore(s: State, t: State, x: nat, given: nat -> Option<nat>)
    requires PointersOk(s, given) && x in t.vars && t.vars == s.vars[x := t.vars[x]] && PointerOk(t.vars[x], t.made, given)
    requires t.released == s.released && t.arguments == s.arguments && s.made <= t.made
    ensures PointersOk(t, given)
  {
    forall y | y in t.vars ensures PointerOk(t.vars[y], t.made, given) {
      if y != x { assert PointerOk(s.vars[y], s.made, given); }
    }
  }

  lemma PointersDrop(s: State, x: nat, given: nat -> Option<nat>)
    requires PointersOk(s, given) && x in s.vars
    ensures PointersOk(Drop(s, x), given)
  {
    assert PointerOk(s.vars[x], s.made, given);
    var t := Drop(s, x);
    forall y | y in t.vars ensures PointerOk(t.vars[y], t.made, given) { assert PointerOk(s.vars[y], s.made, given); }
  }

  lemma PointersMove(s: State, x: nat, from: nat, given: nat -> Option<nat>)
    requires PointersOk(s, given) && from in s.vars
    ensures PointersOk(s.(vars := s.vars[x := s.vars[from]][from := EMPTY]), given)
  {
    var t := s.(vars := s.vars[x := s.vars[from]][from := EMPTY]);
    forall y | y in t.vars ensures PointerOk(t.vars[y], t.made, given) {
      if y != from { assert PointerOk(s.vars[if y == x then from else y], s.made, given); }
    }
  }

  // In a program that ends with no variable left, every owner was given back exactly once
  // and nothing else was.
  lemma ExactlyOnce(ops: seq<Op>)
    requires Exec(ops).vars == map[]
    ensures Distinct(GivenBack(Exec(ops)))
    ensures forall id :: id in GivenBack(Exec(ops)) <==> id in Owners(ops)
  {
    ExecOk(ops);
    OwnersAccounted(ops);
    forall x, id ensures !Holds(Exec(ops), x, id) {}
  }

  // The class does to the named objects what Step does to their values.
  method RunOp(vars: map<nat, Buffer>, made: nat, l: Ledger, op: Op, ghost s: State)
    returns (vars': map<nat, Buffer>, made': nat)
    requires Apart(vars) && Agrees(vars, s.vars) && made == s.made
    requires l.released == s.released && l.arguments == s.arguments && l.freed == s.freed
    modifies vars.Values, l
    ensures Apart(vars') && Agrees(vars', Step(s, op).vars) && made' == Step(s, op).made
    ensures l.released == Step(s, op).released && l.arguments == Step(s, op).arguments && l.freed == Step(s, op).freed
    ensures forall x :: x in vars' ==> vars'[x] in vars.Values || fresh(vars'[x])
  {
    vars', made' := vars, made;
    if !Allowed(vars.Keys, op) { return; }
    var x := op.x;
    if op.Default? || op.Heap? || op.External? {
      var b: Buffer;
      if op.Default? {
        b := new Buffer();
      } else if op.Heap? {
        b := new Buffer.Heap(op.n, made);
        made' := made + 1;
      } else {
        b := new Buffer.External(op.p, op.n, if op.callback then Some(made) else None);
        made' := made + 1;
      }
      vars' := vars[x := b];
    } else if op.MoveConstruct? {
      var b := new Buffer.Move(vars[op.from]);
      vars' := vars[x := b];
    } else if op.MoveAssign? {
      vars[x].MoveAssign(vars[op.from], l);
    } else {
      vars[x].Destroy(l);
      vars' := vars - {x};
    }
  }

  // Programs run on the class give back exactly what the model says, in the same order.
  method Execute(ops: seq<Op>) returns (l: Ledger)
    ensures fresh(l) && l.released == Exec(ops).released && l.arguments == Exec(ops).arguments && l.freed == Exec(ops).freed
  {
    hide Step, Agrees, Apart;
    l := new Ledger();
    var vars: map<nat, Buffer> := map[];
    var made := 0;
    NoVars();
    for k := 0 to |ops|
      invariant fresh(l) && forall x :: x in vars ==> fresh(vars[x])
      invariant Apart(vars) && Agrees(vars, Exec(ops[..k]).vars) && made == Exec(ops[..k]).made
      invariant l.released == Exec(ops[..k]).released && l.arguments == Exec(ops[..k]).arguments && l.freed == Exec(ops[..k]).freed
    {
      ExecNext(ops, k);
      vars, made := RunOp(vars, made, l, ops[k], Exec(ops[..k]));
    }
    assert ops[..|ops|] == ops;
  }

  ghost predicate Apart(vars: map<nat, Buffer>) {
    forall x, y :: x in vars && y in vars && vars[x] == vars[y] ==> x == y
  }

  lemma NoVars()
    ensures Apart(map[]) && Agrees(map[], map[])
  {
  }

  ghost predicate Agrees(vars: map<nat, Buffer>, values: map<nat, Buf>)
    reads vars.Values
  {
    vars.Keys == values.Keys && forall x :: x in vars ==> vars[x].Value() == values[x]
  }

  lemma ExecNext(ops: seq<Op>, k: nat)
    requires k < |ops|
    ensures Exec(ops[..k + 1]) == Step(Exec(ops[..k]), ops[k])
  {
    assert ops[..k + 1][..k] == ops[..k];
  }
}

/**
 * The object pool: a list of shells that hold returned objects and a list of empty shells, both linked
 * through the shells, both bounded, with every byte accounted for.
 */
module Pool {
  import opened Common

  // ---------- the pool as a value ----------

  /** The objects to hand out next, the objects that callers hold and the bound on the former. */
  datatype PoolState<T(==)> = PoolState(pooled: seq<T>, outstanding: set<T>, max: nat) {
    ghost predicate Valid() {
      && |pooled| <= max && Distinct(pooled)
      && forall x | x in pooled :: x !in outstanding
    }

    /** What pabuf_get does, if calloc would return `block`. */
    function Get(block: T): (PoolState<T>, T) {
      if pooled == [] then (this.(outstanding := outstanding + {block}), block)
      else (this.(pooled := pooled[1..], outstanding := outstanding + {pooled[0]}), pooled[0])
    }

    /** What pabuf_back does. */
    function Back(obj: T): PoolState<T> {
      this.(pooled := if |pooled| < max then [obj] + pooled else pooled, outstanding := outstanding - {obj})
    }

    /** An object is never handed out twice. */
    lemma GetIsSafe(block: T)
      requires Valid() && block !in pooled && block !in outstanding
      ensures
        var (s, obj) := Get(block);
        && s.Valid() && obj !in outstanding && s.outstanding == outstanding + {obj}
        && (forall x | x in s.pooled :: x in pooled) && (obj == block || obj in pooled)
    {
    }

    lemma BackIsSafe(obj: T)
      requires Valid() && obj in outstanding
      ensures Back(obj).Valid() && forall x | x in Back(obj).pooled :: x in pooled || x == obj
    {
    }

    /** An object is new exactly when nothing is pooled, and a full pool keeps no more. */
    lemma NewOrPooled(block: T, obj: T)
      requires Valid() && block !in pooled && obj in outstanding
      ensures Get(block).1 == block <==> pooled == []
      ensures Back(obj).pooled == pooled <==> |pooled| == max
    {
      assert |[obj] + pooled| == |pooled| + 1;
    }

    /** A returned object is the next one handed out, unless the pool was full. */
    lemma BackThenGet(obj: T, block: T)
      requires obj in outstanding && |pooled| < max
      ensures Back(obj).Get(block) == (this, obj)
    {
      assert ([obj] + pooled)[1..] == pooled;
      assert outstanding - {obj} + {obj} == outstanding;
    }
  }

  datatype PoolOp<T> = Get(block: T) | Back(obj: T)

  /** Callers return only what they hold, and calloc returns only addresses not in use. */
  ghost predicate Honest<T>(s: PoolState<T>, ops: seq<PoolOp<T>>)
    decreases |ops|
  {
    ops == [] ||
    match ops[0]
    case Get(block) => block !in s.pooled && block !in s.outstanding && Honest(s.Get(block).0, ops[1..])
    case Back(obj) => obj in s.outstanding && Honest(s.Back(obj), ops[1..])
  }

  /** The pool after a run and the objects it handed out, in order. */
  function After<T>(s: PoolState<T>, ops: seq<PoolOp<T>>): (PoolState<T>, seq<T>)
    decreases |ops|
  {
    if ops == [] then (s, []) else
    match ops[0]
    case Get(block) =>
      var (next, obj) := s.Get(block);
      var (last, objs) := After(next, ops[1..]);
      (last, [obj] + objs)
    case Back(obj) => After(s.Back(obj), ops[1..])
  }

  function Returned<T>(ops: seq<PoolOp<T>>): seq<T> {
    if ops == [] then [] else (if ops[0].Back? then [ops[0].obj] else []) + Returned(ops[1..])
  }

  lemma OneMore<T>(y: T, s: seq<T>, x: T)
    ensures multiset([y] + s)[x] == multiset(s)[x] + if x == y then 1 else 0
  {
  }

  /**
   * Over every honest run the pool stays valid, and an object is held afterwards exactly if it was handed
   * out once more often than it was returned: it is never in two hands.
   */
  lemma {:induction false} HonestRun<T>(s: PoolState<T>, ops: seq<PoolOp<T>>, x: T)
    requires s.Valid() && Honest(s, ops)
    ensures After(s, ops).0.Valid()
    ensures
      var (last, given) := After(s, ops);
      (if x in last.outstanding then 1 else 0) + multiset(Returned(ops))[x]
      == (if x in s.outstanding then 1 else 0) + multiset(given)[x]
    decreases |ops|
  {
    hide PoolState.Valid;
    if ops != [] {
      match ops[0] {
        case Get(block) =>
          s.GetIsSafe(block);
          var (next, obj) := s.Get(block);
          HonestRun(next, ops[1..], x);
          OneMore(obj, After(next, ops[1..]).1, x);
          assert [] + Returned(ops[1..]) == Returned(ops[1..]);
        case Back(obj) =>
          s.BackIsSafe(obj);
          HonestRun(s.Back(obj), ops[1..], x);
          OneMore(obj, Returned(ops[1..]), x);
      }
    }
  }

  /** sizeof(pabuf_shell_t) on a 64-bit machine. */
  const SHELL_SIZE := 16

  class Shell<T> {
    var obj: Option<T>
    var next: Shell?<T>

    constructor (obj: Option<T>)
      ensures this.obj == obj && next == null
    {
      this.obj := obj;
      next := null;
    }
  }

  /** `shells` is the list that starts at `head`. */
  ghost predicate Linked<T>(head: Shell?<T>, shells: seq<Shell<T>>)
    reads shells
  {
    if shells == [] then head == null
    else
      && head == shells[0] && shells[|shells| - 1].next == null
      && forall i {:trigger shells[i].next} | 0 <= i < |shells| - 1 :: shells[i].next == shells[i + 1]
  }

  ghost predicate Distinct<T>(s: seq<T>) {
    forall i, j | 0 <= i < j < |s| :: s[i] != s[j]
  }

  /** Two lists without repetition and without a common element. */
  ghost predicate Apart<T>(s: seq<T>, t: seq<T>) {
    Distinct(s) && Distinct(t) && forall i, j | 0 <= i < |s| && 0 <= j < |t| :: s[i] != t[j]
  }

  /** `x` is in neither list. */
  ghost predicate Outside<T>(x: T, s: seq<T>, t: seq<T>) {
    x !in s && x !in t
  }

  lemma ApartTail<T>(s: seq<T>, t: seq<T>)
    requires Apart(s, t)
    ensures s != [] ==> Apart(s[1..], t) && Outside(s[0], s[1..], t)
    ensures t != [] ==> Apart(s, t[1..]) && Outside(t[0], s, t[1..])
  {
  }

  lemma ApartCons<T>(x: T, s: seq<T>, t: seq<T>)
    requires Apart(s, t) && Outside(x, s, t)
    ensures Apart([x] + s, t) && Apart(s, [x] + t)
  {
  }

  lemma LinkedTail<T>(head: Shell?<T>, shells: seq<Shell<T>>)
    requires Linked(head, shells) && shells != []
    ensures head == shells[0] && Linked(shells[0].next, shells[1..])
  {
  }

  lemma LinkedCons<T>(shell: Shell<T>, shells: seq<Shell<T>>)
    requires Linked(shell.next, shells)
    ensures Linked(shell, [shell] + shells)
  {
  }

  /** The bytes of `count` objects. */
  function Bytes(count: nat, size: nat): nat {
    count * size
  }

  lemma OneMoreObject(count: nat, size: nat)
    ensures Bytes(count + 1, size) == Bytes(count, size) + size
  {
  }

  class Pool<T(==)> {
    const obj_size: nat
    const max_remain_count: nat
    const max_eshell_count: nat
    var memory: nat
    var shell_memory: nat
    var count: nat
    var remain_count: nat
    var eshell_count: nat
    var first: Shell?<T>
    var first_eshell: Shell?<T>

    ghost var shells: seq<Shell<T>>   // the list that starts at first
    ghost var eshells: seq<Shell<T>>  // the list that starts at first_eshell
    ghost var pooled: seq<T>          // the objects in shells
    ghost var outstanding: set<T>     // the objects that callers hold

    ghost function Repr(): set<object>
      reads `shells, `eshells
    {
      {this} + (set s: object | s in shells) + (set s: object | s in eshells)
    }

    /** The two lists, their bounds and their bytes. */
    ghost predicate ListsValid()
      reads `shell_memory, `first, `first_eshell, `remain_count, `eshell_count
      reads `shells, `eshells, `pooled, shells, eshells
    {
      && Apart(shells, eshells)
      && Linked(first, shells) && Linked(first_eshell, eshells)
      && |pooled| == |shells| == remain_count <= max_remain_count
      && |eshells| == eshell_count <= max_eshell_count
      && (forall i | 0 <= i < |shells| :: shells[i].obj == Some(pooled[i]))
      && shell_memory == (|shells| + |eshells|) * SHELL_SIZE
    }

    ghost function State(): PoolState<T>
      reads `pooled, `outstanding
    {
      PoolState(pooled, outstanding, max_remain_count)
    }

    ghost predicate Valid()
      reads Repr()
    {
      && ListsValid() && |pooled| == remain_count
      && State().Valid()
      && count == |outstanding| + remain_count
      && memory == Bytes(count, obj_size)
    }

    /** _pabuf_init */
    constructor (obj_size: nat, max_remain_count: nat, max_eshell_count: nat)
      ensures Valid() && fresh(Repr())
      ensures pooled == [] && outstanding == {}
      ensures this.obj_size == obj_size
      ensures this.max_remain_count == max_remain_count && this.max_eshell_count == max_eshell_count
    {
      this.obj_size := obj_size;
      this.max_remain_count := max_remain_count;
      this.max_eshell_count := max_eshell_count;
      memory, shell_memory, count, remain_count, eshell_count := 0, 0, 0, 0, 0;
      first, first_eshell := null, null;
      shells, eshells, pooled, outstanding := [], [], [], {};
    }

    /** pabuf_get_eshell, on the part of the pool that keeps shells. */
    method GetEshell(obj: T) returns (shell: Shell<T>)
      requires Apart(shells, eshells)
      requires Linked(first, shells) && Linked(first_eshell, eshells) && |eshells| == eshell_count
      requires shell_memory == (|shells| + |eshells|) * SHELL_SIZE
      modifies `shell_memory, `first_eshell, `eshell_count, `eshells, eshells
      ensures shell.obj == Some(obj) && shell.next == null
      ensures
        if old(eshells) == [] then fresh(shell) && eshells == []
        else shell in old(eshells) && [shell] + eshells == old(eshells)
      ensures Apart(shells, eshells) && Outside(shell, shells, eshells)
      ensures Linked(first, shells) && Linked(first_eshell, eshells) && |eshells| == eshell_count
      ensures shell_memory == (1 + |shells| + |eshells|) * SHELL_SIZE
      ensures forall s | s in shells :: s.obj == old(s.obj)
    {
      hide Apart, Linked, Distinct;
      if eshell_count == 0 {
        shell_memory := shell_memory + SHELL_SIZE;
        shell := new Shell(Some(obj));
        return;
      }
      LinkedTail(first_eshell, eshells);
      ApartTail(shells, eshells);
      shell := first_eshell;
      first_eshell := shell.next;
      eshells := eshells[1..];
      shell.next := null;
      eshell_count := eshell_count - 1;
      shell.obj := Some(obj);
    }

    /** pabuf_back_eshell, for a shell that has just left the object list. */
    method BackEshell(shell: Shell<T>)
      requires Apart(shells, eshells) && Outside(shell, shells, eshells)
      requires Linked(first, shells) && Linked(first_eshell, eshells)
      requires |eshells| == eshell_count <= max_eshell_count
      requires shell_memory == (1 + |shells| + |eshells|) * SHELL_SIZE
      modifies `shell_memory, `first_eshell, `eshell_count, `eshells, shell
      ensures Apart(shells, eshells)
      ensures eshells == old(eshells) || eshells == [shell] + old(eshells)
      ensures Linked(first, shells) && Linked(first_eshell, eshells)
      ensures |eshells| == eshell_count <= max_eshell_count
      ensures shell_memory == (|shells| + |eshells|) * SHELL_SIZE
    {
      hide Apart, Linked, Distinct;
      if eshell_count >= max_eshell_count {
        shell_memory := shell_memory - SHELL_SIZE;
        return;
      }
      shell.next := first_eshell;
      first_eshell := shell;
      shell.obj := None;
      eshell_count := eshell_count + 1;
      LinkedCons(shell, eshells);
      ApartCons(shell, shells, eshells);
      eshells := [shell] + eshells;
    }

    /** The list part of pabuf_get. */
    method PopObject() returns (obj: T)
      requires ListsValid() && remain_count > 0
      modifies `shell_memory, `first, `first_eshell, `remain_count, `eshell_count, `shells, `eshells, `pooled, shells
      ensures ListsValid() && Repr() <= old(Repr())
      ensures remain_count == old(remain_count) - 1 && [obj] + pooled == old(pooled)
    {
      hide Apart, Linked, Distinct;
      LinkedTail(first, shells);
      ApartTail(shells, eshells);
      var shell := first;
      first := shell.next;
      obj := shell.obj.value;
      shells := shells[1..];
      pooled := pooled[1..];
      BackEshell(shell);
      remain_count := remain_count - 1;
    }

    /** The list part of pabuf_back. */
    method PushObject(obj: T)
      requires ListsValid() && remain_count < max_remain_count
      modifies `shell_memory, `first, `first_eshell, `remain_count, `eshell_count, `shells, `eshells, `pooled, eshells
      ensures ListsValid() && fresh(Repr() - old(Repr()))
      ensures remain_count == old(remain_count) + 1 && pooled == [obj] + old(pooled)
    {
      hide Apart, Linked, Distinct;
      var shell := GetEshell(obj);
      shell.next := first;
      first := shell;
      remain_count := remain_count + 1;
      LinkedCons(shell, shells);
      ApartCons(shell, shells, eshells);
      shells := [shell] + shells;
      pooled := [obj] + pooled;
    }

    /** pabuf_get.  `block` is what calloc returns if it is asked: an address not in use. */
    method Get(block: T) returns (obj: T)
      requires Valid() && block !in pooled && block !in outstanding
      modifies Repr()
      ensures Valid() && fresh(Repr() - old(Repr()))
      ensures (State(), obj) == old(State()).Get(block)
      ensures obj !in old(outstanding)
    {
      hide ListsValid, Bytes;
      State().GetIsSafe(block);
      if remain_count <= 0 {
        OneMoreObject(count, obj_size);
        memory := memory + obj_size;
        count := count + 1;
        obj := block;
      } else {
        obj := PopObject();
        assert pooled == old(pooled)[1..] && obj == old(pooled)[0];
      }
      outstanding := outstanding + {obj};
    }

    /** pabuf_back, for an object that the caller holds. */
    method Back(obj: T)
      requires Valid() && obj in outstanding
      modifies Repr()
      ensures Valid() && fresh(Repr() - old(Repr()))
      ensures State() == old(State()).Back(obj)
    {
      hide ListsValid, Bytes;
      State().BackIsSafe(obj);
      if max_remain_count <= remain_count {
        OneMoreObject(count - 1, obj_size);
        memory := memory - obj_size;
        count := count - 1;
      } else {
        PushObject(obj);
      }
      outstanding := outstanding - {obj};
    }
  }
}

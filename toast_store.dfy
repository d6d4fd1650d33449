/**
  The toast store of toast.store.ts: one ordered list of notices that changes
  only by `add` (append a copy stamped with a new id) and `remove` (drop every
  notice carrying a given id, keeping the others in order).

  The updater bodies are pure list expressions, so they are modelled as the
  functions AddPure and RemovePure with their properties proved as lemmas; the
  store object that owns the list is the class Store, whose methods apply
  those functions to its one mutable field. The id generator of the source is
  an input (`freshId`) of Add.
 */
module ToastStore {
  import opened Wrappers
  import opened ToastTypes

  /** The list the store holds, oldest notice first. */
  type ToasterStore = seq<ToastProps>

  /*
    Basic vocabulary
   */

  /** The record `{ ...toast, id }`: the input with its `id` replaced. */
  function Stamp(t: ToastProps, id: string): (r: ToastProps)
    ensures r.id == Some(id)
    ensures SameExceptId(r, t)
    ensures r.(id := t.id) == t
  {
    t.(id := Some(id))
  }

  /**
    The filter test `t.id !== id`: a notice survives removal of `id` unless it
    carries exactly that id. A notice without an id is always kept.
   */
  function Keeps(t: ToastProps, id: string): (keep: bool)
    ensures t.id.None? ==> keep
    ensures t.id == Some(id) ==> !keep
    ensures t.id.Some? && t.id.value != id ==> keep
  {
    t.id != Some(id)
  }

  /** Some notice in `s` carries the id `id`. */
  predicate HasId(s: ToasterStore, id: string)
  {
    exists i :: 0 <= i < |s| && s[i].id == Some(id)
  }

  /** Every notice in `s` carries some id (the store states reachable from `[]`). */
  predicate AllStamped(s: ToasterStore)
  {
    forall i :: 0 <= i < |s| ==> s[i].id.Some?
  }

  /** No two notices in `s` carry the same id. */
  predicate DistinctIds(s: ToasterStore)
  {
    forall i, j :: 0 <= i < j < |s| ==> s[i].id != s[j].id
  }

  /*
    The two updaters
   */

  /** The updater of `add`: `[...toasts, { ...toast, id }]`. */
  function AddPure(s: ToasterStore, t: ToastProps, freshId: string): (r: ToasterStore)
    ensures |r| == |s| + 1
    ensures r[..|s|] == s
    ensures r[|s|].id == Some(freshId)
    ensures SameExceptId(r[|s|], t)
  {
    s + [Stamp(t, freshId)]
  }

  /**
    The updater of `remove`: `toasts.filter((t) => t.id !== id)`, written as a
    recursion on the list without its last element.
   */
  function RemovePure(s: ToasterStore, id: string): (r: ToasterStore)
    ensures |r| <= |s|
    ensures forall k :: 0 <= k < |r| ==> r[k].id != Some(id)
    ensures forall x :: x in r ==> x in s
    decreases |s|
  {
    if s == [] then []
    else
      var rest := RemovePure(s[..|s| - 1], id);
      var last := s[|s| - 1];
      if Keeps(last, id) then rest + [last] else rest
  }

  /**
    Reference definition of what the filter keeps: the positions of `s`, in
    increasing order, whose notice passes the filter test.
   */
  function KeptIndices(s: ToasterStore, id: string): (q: seq<int>)
    ensures forall k :: 0 <= k < |q| ==> 0 <= q[k] < |s|
    decreases |s|
  {
    if s == [] then []
    else KeptIndices(s[..|s| - 1], id) + (if Keeps(s[|s| - 1], id) then [|s| - 1] else [])
  }

  /*
    Properties of remove
   */

  /**
    `remove` is the order-preserving filter: its result lists exactly the
    notices of `s` at the kept positions, in the order of those positions, and
    a position is kept if and only if its notice does not carry `id`.
   */
  lemma {:induction false} RemoveIsOrderedFilter(s: ToasterStore, id: string)
    ensures |KeptIndices(s, id)| == |RemovePure(s, id)|
    ensures forall k :: 0 <= k < |KeptIndices(s, id)| ==>
              RemovePure(s, id)[k] == s[KeptIndices(s, id)[k]]
    ensures forall k, l :: 0 <= k < l < |KeptIndices(s, id)| ==>
              KeptIndices(s, id)[k] < KeptIndices(s, id)[l]
    ensures forall i :: 0 <= i < |s| ==> (Keeps(s[i], id) <==> i in KeptIndices(s, id))
  {
    if s != [] {
      var p := s[..|s| - 1];
      RemoveIsOrderedFilter(p, id);
      var q, r := KeptIndices(p, id), RemovePure(p, id);
      assert forall k :: 0 <= k < |q| ==> q[k] < |p|;
      assert forall i :: 0 <= i < |p| ==> s[i] == p[i];
    }
  }

  /** Removing an id that no notice carries leaves the list as it was. */
  lemma {:induction false} RemoveAbsentIsNoop(s: ToasterStore, id: string)
    requires !HasId(s, id)
    ensures RemovePure(s, id) == s
  {
    if s != [] {
      var p := s[..|s| - 1];
      assert !HasId(p, id) by {
        forall i | 0 <= i < |p| ensures p[i].id != Some(id) {
          assert p[i] == s[i];
        }
      }
      RemoveAbsentIsNoop(p, id);
      assert s[|s| - 1].id != Some(id);
      assert p + [s[|s| - 1]] == s;
    }
  }

  /** Removing the same id twice is the same as removing it once. */
  lemma RemoveIdempotent(s: ToasterStore, id: string)
    ensures RemovePure(RemovePure(s, id), id) == RemovePure(s, id)
  {
  }

  /** Removing an id that some notice carries makes the list strictly shorter. */
  lemma {:induction false} RemovePresentShrinks(s: ToasterStore, id: string)
    requires HasId(s, id)
    ensures |RemovePure(s, id)| < |s|
  {
    var p := s[..|s| - 1];
    if s[|s| - 1].id != Some(id) {
      var i :| 0 <= i < |s| && s[i].id == Some(id);
      assert p[i] == s[i];
      RemovePresentShrinks(p, id);
    }
  }

  /**
    When ids are distinct, removing an id that some notice carries drops
    exactly that one notice.
   */
  lemma {:induction false} RemovePresentDistinctLength(s: ToasterStore, id: string)
    requires DistinctIds(s)
    requires HasId(s, id)
    ensures |RemovePure(s, id)| == |s| - 1
  {
    var n := |s|;
    var p := s[..n - 1];
    assert forall i :: 0 <= i < n - 1 ==> p[i] == s[i];
    assert DistinctIds(p);
    if s[n - 1].id == Some(id) {
      assert !HasId(p, id) by {
        forall i | 0 <= i < |p| ensures p[i].id != Some(id) {
          assert s[i].id != s[n - 1].id;
        }
      }
      RemoveAbsentIsNoop(p, id);
    } else {
      var i :| 0 <= i < n && s[i].id == Some(id);
      assert p[i] == s[i];
      RemovePresentDistinctLength(p, id);
    }
  }

  /** Removal keeps every notice stamped. */
  lemma RemovePreservesStamped(s: ToasterStore, id: string)
    requires AllStamped(s)
    ensures AllStamped(RemovePure(s, id))
  {
  }

  /** Removal keeps ids distinct, whatever the id removed. */
  lemma RemovePreservesDistinct(s: ToasterStore, id: string)
    requires DistinctIds(s)
    ensures DistinctIds(RemovePure(s, id))
  {
    RemoveIsOrderedFilter(s, id);
  }

  /*
    Properties of add
   */

  /** Adding keeps every notice stamped. */
  lemma AddPreservesStamped(s: ToasterStore, t: ToastProps, freshId: string)
    requires AllStamped(s)
    ensures AllStamped(AddPure(s, t, freshId))
  {
  }

  /** Adding keeps ids distinct provided the new id is not already in use. */
  lemma AddPreservesDistinct(s: ToasterStore, t: ToastProps, freshId: string)
    requires DistinctIds(s)
    requires !HasId(s, freshId)
    ensures DistinctIds(AddPure(s, t, freshId))
  {
  }

  /**
    When the new id was not in use, the notice `add` appends is the only one
    that carries the returned id.
   */
  lemma AddedIdIdentifiesOne(s: ToasterStore, t: ToastProps, freshId: string)
    requires !HasId(s, freshId)
    ensures forall i :: 0 <= i < |AddPure(s, t, freshId)| ==>
              (AddPure(s, t, freshId)[i].id == Some(freshId) <==> i == |s|)
  {
  }

  /** `remove` of an id applied after `add` sees the appended notice last. */
  lemma RemoveAfterAdd(s: ToasterStore, t: ToastProps, freshId: string, id: string)
    ensures RemovePure(AddPure(s, t, freshId), id)
            == if freshId == id then RemovePure(s, id) else RemovePure(s, id) + [Stamp(t, freshId)]
  {
  }

  /** `add` and then `remove` of the returned id restores the list, if that id was new. */
  lemma AddThenRemoveRestores(s: ToasterStore, t: ToastProps, freshId: string)
    requires !HasId(s, freshId)
    ensures RemovePure(AddPure(s, t, freshId), freshId) == s
  {
    RemoveAfterAdd(s, t, freshId, freshId);
    RemoveAbsentIsNoop(s, freshId);
  }

  /** Removing a different id commutes with adding. */
  lemma RemoveCommutesWithAdd(s: ToasterStore, t: ToastProps, freshId: string, id: string)
    requires freshId != id
    ensures RemovePure(AddPure(s, t, freshId), id) == AddPure(RemovePure(s, id), t, freshId)
  {
  }

  /*
    Sequences of operations starting from a store state
   */

  /** One call on the store: `add(toast)` with the id the generator yields, or `remove(id)`. */
  datatype Op = AddOp(toast: ToastProps, freshId: string) | RemoveOp(id: string)

  /** The list after one call. */
  function Step(s: ToasterStore, op: Op): (r: ToasterStore)
    ensures op.AddOp? ==> |r| == |s| + 1 && r[..|s|] == s && r[|s|].id == Some(op.freshId)
    ensures op.RemoveOp? ==> |r| <= |s| && !HasId(r, op.id)
  {
    match op
    case AddOp(t, freshId) => AddPure(s, t, freshId)
    case RemoveOp(id) => RemovePure(s, id)
  }

  /** The list after a sequence of calls, first call first. */
  function Run(s: ToasterStore, ops: seq<Op>): (r: ToasterStore)
    ensures |r| <= |s| + |ops|
    decreases |ops|
  {
    if ops == [] then s else Run(Step(s, ops[0]), ops[1..])
  }

  /** Every `add` in `ops` is given an id not in use at the moment of the call. */
  predicate FreshTrace(s: ToasterStore, ops: seq<Op>)
    decreases |ops|
  {
    ops == [] ||
    ((ops[0].AddOp? ==> !HasId(s, ops[0].freshId)) && FreshTrace(Step(s, ops[0]), ops[1..]))
  }

  /** Every state reachable from a stamped list (such as the initial `[]`) is stamped. */
  lemma {:induction false} RunPreservesStamped(s: ToasterStore, ops: seq<Op>)
    requires AllStamped(s)
    ensures AllStamped(Run(s, ops))
    decreases |ops|
  {
    if ops != [] {
      match ops[0] {
        case AddOp(t, freshId) => AddPreservesStamped(s, t, freshId);
        case RemoveOp(id) => RemovePreservesStamped(s, id);
      }
      RunPreservesStamped(Step(s, ops[0]), ops[1..]);
    }
  }

  /** If every generated id is new when it is generated, ids stay distinct along the run. */
  lemma {:induction false} RunPreservesDistinct(s: ToasterStore, ops: seq<Op>)
    requires DistinctIds(s)
    requires FreshTrace(s, ops)
    ensures DistinctIds(Run(s, ops))
    decreases |ops|
  {
    if ops != [] {
      match ops[0] {
        case AddOp(t, freshId) => AddPreservesDistinct(s, t, freshId);
        case RemoveOp(id) => RemovePreservesDistinct(s, id);
      }
      RunPreservesDistinct(Step(s, ops[0]), ops[1..]);
    }
  }

  /** The number of `add` calls in `ops`. */
  function CountAdds(ops: seq<Op>): (n: nat)
    ensures n <= |ops|
    decreases |ops|
  {
    if ops == [] then 0 else (if ops[0].AddOp? then 1 else 0) + CountAdds(ops[1..])
  }

  /** The number of `remove` calls in `ops` whose id some notice carries when the call is made. */
  function CountEffectiveRemoves(s: ToasterStore, ops: seq<Op>): (n: nat)
    ensures n <= |ops|
    decreases |ops|
  {
    if ops == [] then 0
    else (if ops[0].RemoveOp? && HasId(s, ops[0].id) then 1 else 0)
         + CountEffectiveRemoves(Step(s, ops[0]), ops[1..])
  }

  /**
    Length accounting along a run: with distinct ids and fresh generated ids,
    the list ends with its initial length plus one per `add`, minus one per
    `remove` of an id present at the time of the call.
   */
  lemma {:induction false} RunLength(s: ToasterStore, ops: seq<Op>)
    requires DistinctIds(s)
    requires FreshTrace(s, ops)
    ensures |Run(s, ops)| == |s| + CountAdds(ops) - CountEffectiveRemoves(s, ops)
    decreases |ops|
  {
    if ops != [] {
      match ops[0] {
        case AddOp(t, freshId) =>
          AddPreservesDistinct(s, t, freshId);
        case RemoveOp(id) =>
          RemovePreservesDistinct(s, id);
          if HasId(s, id) {
            RemovePresentDistinctLength(s, id);
          } else {
            RemoveAbsentIsNoop(s, id);
          }
      }
      RunLength(Step(s, ops[0]), ops[1..]);
    }
  }

  /** Without removals, the list grows by exactly one notice per `add`. */
  lemma {:induction false} RunOfAddsLength(s: ToasterStore, ops: seq<Op>)
    requires forall k :: 0 <= k < |ops| ==> ops[k].AddOp?
    ensures |Run(s, ops)| == |s| + |ops|
    decreases |ops|
  {
    if ops != [] {
      assert forall k :: 0 <= k < |ops[1..]| ==> ops[1..][k] == ops[k + 1];
      RunOfAddsLength(Step(s, ops[0]), ops[1..]);
    }
  }

  /** Two successive `add` calls leave their notices last, in call order. */
  lemma AddTwiceKeepsOrder(s: ToasterStore, a: ToastProps, idA: string, b: ToastProps, idB: string)
    ensures var r := Run(s, [AddOp(a, idA), AddOp(b, idB)]);
            |r| == |s| + 2 && r[..|s|] == s && r[|s|] == Stamp(a, idA) && r[|s| + 1] == Stamp(b, idB)
  {
    var ops := [AddOp(a, idA), AddOp(b, idB)];
    var s1 := AddPure(s, a, idA);
    assert ops[1..] == [AddOp(b, idB)] && ops[1..][1..] == [];
    assert Run(s, ops) == Run(s1, ops[1..]) == Run(AddPure(s1, b, idB), []);
    assert AddPure(s1, b, idB) == s + [Stamp(a, idA)] + [Stamp(b, idB)];
  }

  /*
    The store object
   */

  /**
    A store created by `createToastStore`: the one mutable list behind the
    reactive handle. Valid() is the invariant every reachable state keeps.
   */
  class Store {
    var toasts: ToasterStore

    ghost predicate Valid()
      reads this
    {
      AllStamped(toasts)
    }

    /** A new store holds the empty list. */
    constructor ()
      ensures Valid()
      ensures toasts == []
    {
      toasts := [];
    }

    /**
      `add(toast)`: append the notice stamped with `freshId` (the value the id
      generator produced for this call) and return that id.
     */
    method Add(t: ToastProps, freshId: string) returns (id: string)
      requires Valid()
      modifies this
      ensures Valid()
      ensures id == freshId
      ensures toasts == AddPure(old(toasts), t, freshId)
      ensures |toasts| == |old(toasts)| + 1 && toasts[..|old(toasts)|] == old(toasts)
      ensures toasts[|toasts| - 1].id == Some(id) && SameExceptId(toasts[|toasts| - 1], t)
      ensures DistinctIds(old(toasts)) && !HasId(old(toasts), freshId) ==> DistinctIds(toasts)
    {
      id := freshId;
      AddPreservesStamped(toasts, t, id);
      if DistinctIds(toasts) && !HasId(toasts, id) {
        AddPreservesDistinct(toasts, t, id);
      }
      toasts := AddPure(toasts, t, id);
    }

    /** `remove(id)`: drop every notice carrying `id`, keeping the rest in order. */
    method Remove(id: string)
      requires Valid()
      modifies this
      ensures Valid()
      ensures toasts == RemovePure(old(toasts), id)
      ensures !HasId(toasts, id)
      ensures !HasId(old(toasts), id) ==> toasts == old(toasts)
      ensures DistinctIds(old(toasts)) ==> DistinctIds(toasts)
    {
      RemovePreservesStamped(toasts, id);
      if DistinctIds(toasts) {
        RemovePreservesDistinct(toasts, id);
      }
      if !HasId(toasts, id) {
        RemoveAbsentIsNoop(toasts, id);
      }
      toasts := RemovePure(toasts, id);
    }
  }
}

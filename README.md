# Toast store: a verified model

This project models the toast-notification store of a Svelte front end
(`src/lib/components/ui/toast/toast.store.ts`). The store holds one ordered list
of toast notices, oldest first. It starts empty, and only two calls change it:

- `add(toast)` asks the id generator for a new id. It appends a copy of the notice
  with that id in place of any `id` the caller supplied, and returns the id.
- `remove(id)` keeps only the notices whose `id` differs from the argument, in their
  original order.

Files:

- `wrappers.dfy`: `Option`, used for the optional fields of a notice.
- `toast_types.dfy`: `ToastProps`, the shape of a notice (`toast.types.ts`). `Variant`
  is the enumeration `default | destructive`. `ToastAction` keeps only the action's
  label, stored as `labelText` because `label` is a Dafny keyword.
- `toast_store.dfy`: the two updaters as pure functions, `AddPure` and `RemovePure`.
  Beside them are their properties as lemmas, plus a model of runs of several calls.
  The store object itself is the class `ToastStore.Store`, a single mutable
  `seq` field that its `Add` and `Remove` methods reassign through those functions.

The id generator (`crypto.randomUUID()`) is not modelled. Its result is the
`freshId` parameter of `Add`. The code never checks that this id is new, so
uniqueness is proved only under a condition. If the stored ids are distinct and
`freshId` is not among them, they stay distinct. The store relies on
`crypto.randomUUID()` for distinct ids and never checks them itself.

The filter test `t.id !== id` keeps a notice that has no `id` at all. The model
keeps it too (`Keeps`). Every state reachable from the empty list has an id on every
notice (`AllStamped`, the class invariant), so in practice this case never arises.

## Model

| member | source | states |
|---|---|---|
| ToastStore.Store.constructor | src/lib/components/ui/toast/toast.store.ts:7 | a fresh store holds the empty list, which satisfies the store invariant |
| ToastTypes.ToastProps | src/lib/components/ui/toast/toast.types.ts:1-12 | one notice: every field optional; `action` reduced to its label (the `onClick` callback is dropped); `duration` carried as a `real`; `variant` one of `Variant` |
| ToastTypes.Variant | src/lib/components/ui/toast/toast.types.ts:11 | the closed enumeration `default`, `destructive` |
| ToastTypes.ToastAction | src/lib/components/ui/toast/toast.types.ts:5-8 | the action's label; the callback is not part of the model |
| ToastStore.Keeps | src/lib/components/ui/toast/toast.store.ts:16 | the filter callback `t.id !== id`: a notice is kept unless its id is `Some(id)`; a notice with no id is kept; a notice with a different id is kept |
| ToastStore.Stamp | src/lib/components/ui/toast/toast.store.ts:11 | `{ ...toast, id }` carries the new id, agrees with the input on every other field, and restoring the old id gives back the input |
| ToastStore.AddPure | src/lib/components/ui/toast/toast.store.ts:11 | the list grows by exactly one; the old list is an unchanged prefix; the new last notice carries the new id and equals the input except for the overwritten id |
| ToastStore.Store.Add | src/lib/components/ui/toast/toast.store.ts:9-13 | returns the generated id; the new list is the old one with the stamped notice appended, and the last notice's id is the returned id; keeps the invariant; keeps ids distinct when the generated id was not in use |
| ToastStore.RemovePure | src/lib/components/ui/toast/toast.store.ts:16 | the result is no longer than the input, holds no notice with the removed id, and holds only notices of the input |
| ToastStore.RemoveIsOrderedFilter | src/lib/components/ui/toast/toast.store.ts:16 | the result equals the input at a strictly increasing sequence of positions, and a position is among them if and only if its notice does not carry the id (order-preserving filter, both directions) |
| ToastStore.RemoveAbsentIsNoop | src/lib/components/ui/toast/toast.store.ts:16 | removing an id that no notice carries leaves the list unchanged |
| ToastStore.RemoveIdempotent | src/lib/components/ui/toast/toast.store.ts:16 | removing the same id twice equals removing it once |
| ToastStore.RemovePresentShrinks | src/lib/components/ui/toast/toast.store.ts:16 | removing an id that some notice carries makes the list strictly shorter |
| ToastStore.Store.Remove | src/lib/components/ui/toast/toast.store.ts:15-17 | the new list is the filter of the old one; no notice carries the id afterwards; unchanged when the id was absent; keeps the invariant and distinctness |
| ToastStore.RemovePreservesStamped | src/lib/components/ui/toast/toast.store.ts:16 | if every notice carries an id, so does every notice after removal |
| ToastStore.RemovePreservesDistinct | src/lib/components/ui/toast/toast.store.ts:16 | removal never makes two notices share an id |
| ToastStore.AddPreservesStamped | src/lib/components/ui/toast/toast.store.ts:11 | if every notice carries an id, so does every notice after add |
| ToastStore.AddPreservesDistinct | src/lib/components/ui/toast/toast.store.ts:10-11 | distinct ids stay distinct after add, provided the generated id was not in use |
| ToastStore.AddedIdIdentifiesOne | src/lib/components/ui/toast/toast.store.ts:10-12 | when the generated id was not in use, the appended notice is the only one carrying the returned id |
| ToastStore.RemoveAfterAdd | src/lib/components/ui/toast/toast.store.ts:9-17 | removing after add equals removing from the old list, followed by the appended notice unless it carries the removed id |
| ToastStore.AddThenRemoveRestores | src/lib/components/ui/toast/toast.store.ts:9-17 | add followed by remove of the returned id restores the original list, when that id was not already present |
| ToastStore.RemoveCommutesWithAdd | src/lib/components/ui/toast/toast.store.ts:9-17 | removing an id other than the generated one commutes with add |
| ToastStore.RemovePresentDistinctLength | src/lib/components/ui/toast/toast.store.ts:16 | with distinct ids, removing a present id shortens the list by exactly one |
| ToastStore.Step | src/lib/components/ui/toast/toast.store.ts:9-17 | one store call: an add grows the list by one, keeps the old list as prefix and ends with the generated id; a remove never grows the list and leaves no notice with the removed id |
| ToastStore.Run | src/lib/components/ui/toast/toast.store.ts:9-17 | a sequence of calls, first call first; the list grows by at most one per call |
| ToastStore.RunLength | src/lib/components/ui/toast/toast.store.ts:9-17 | with distinct ids and fresh generated ids, the final length is the initial length plus the number of adds minus the number of removes whose id was present when called |
| ToastStore.RunPreservesStamped | src/lib/components/ui/toast/toast.store.ts:7-17 | along any sequence of add and remove calls from a stamped list, such as the initial empty one, every notice carries an id |
| ToastStore.RunPreservesDistinct | src/lib/components/ui/toast/toast.store.ts:7-17 | along any sequence of calls in which each generated id is new when it is generated, ids stay distinct |
| ToastStore.RunOfAddsLength | src/lib/components/ui/toast/toast.store.ts:11 | a sequence of n add calls and no removals grows the list by exactly n |
| ToastStore.AddTwiceKeepsOrder | src/lib/components/ui/toast/toast.store.ts:11 | two successive adds leave the old list as a prefix followed by the first, then the second stamped notice |

## Left out

- `subscribe` and the broadcast of each new list to observers come from Svelte's `writable`, whose source is not part of this model. Only the list state is modelled, not notification delivery, unsubscription or re-publishing an unchanged list.
- `crypto.randomUUID()` is a foreign randomness call. Its result is the `freshId` input of `Add`, and nothing is claimed about it being new beyond the conditional lemmas above. Where `crypto.randomUUID` is unavailable (a page that is not a secure context), `add` throws at `toast.store.ts:10` before `update` runs and leaves the list unchanged; that failure path is not modelled, and `Store.Add` always succeeds.
- `action.onClick` is an opaque callback the store never calls, so it is dropped. `duration` (a host number, carried as `real`) and `className` are carried through as plain data with no meaning attached.
- `src/lib/components/ui/toast/index.ts` only re-exports view components and the store. It has no logic.
- The module-level singleton `toast` (`toast.store.ts:26`) is not modelled. The model constructs a fresh `Store` instead.
- The updaters build a new array rather than mutating one in place, so the list is a `seq` value that the methods reassign. No aliasing between snapshots is modelled.

# Behavior-tree evaluation core, modelled in Dafny

This project models the behavior-tree engine of `src/bt.rs`: the
three-valued `Status` (`Success`, `Failure`, `Running`), the `Node::tick`
contract, the `Action` leaf that returns whatever its callback returns, the
`Sequence` composite that ticks one child per tick and moves its cursor
`active` by a small state machine, and the sample tree built by
`create_basic_bt` from the callbacks `always_succeed` and `always_fail`.

It has two layers:

- `bt_spec.dfy`, module `BtSpec`: the tree as a value. `Node` is a closed sum
  type (`Action(func)` or `Sequence(children, active)`), `Tick` returns the
  status together with the updated node, and `Run` gives the statuses of k
  consecutive ticks. The lemmas state the cursor state machine, the
  invariants a tick keeps, the AND behaviour of a Sequence over a run of
  ticks, and the exact status stream of the sample tree.
- `bt.dfy`, module `Bt`: the tree as the Rust code runs it. `Sequence` is a
  class whose `active` field is updated in place and whose children it owns
  exclusively (`Owned()` keeps the children's object sets disjoint from each
  other and from the parent; `Valid()` adds the cursor bound and the link to
  the abstract value). `TickNode` is the dynamic dispatch of
  `Node::tick`. Every tick is proved to change the tree exactly as
  `BtSpec.Tick` changes its abstract value (`Model`).

Action callbacks are Dafny function values `() -> Status`. A Dafny function
is pure, so a callback returns the same status on every call. That is exact
for `always_succeed` and `always_fail`. So that the number and order of
callback calls can be stated, the `Bt` layer makes every call through
`CallLog.Invoke`, which records the callback it calls; a tick is proved to
record exactly one call, that of the Action its cursors lead to
(`BtSpec.ActiveCallback`).

Points where the code's behaviour is easy to misread:

- After the last child succeeds, the code leaves `active` on the last index
  (src/bt.rs:52-55). A common behavior-tree convention resets the cursor to
  0 after success; this code does not. In the model a Sequence that has
  succeeded keeps ticking only its last child
  (`SucceededSequenceStaysOnLast`).
- The outer Sequence of the sample tree first ticks its own first child, so
  the sample tree reports `Failure` on its fourth tick, not its third
  (`BasicTreeSteps`).
- There is no `NeverRun` status and no Selector in the code, and none in the
  model.

## Model

| member | source | states |
|---|---|---|
| `BtSpec.AlwaysSucceed` | src/bt.rs:98-101 | Returns `Success`; the `println!` is left out. |
| `BtSpec.AlwaysFail` | src/bt.rs:103-106 | Returns `Failure`; the `println!` is left out. |
| `BtSpec.Tick` | src/bt.rs:31-60 | A tick keeps every cursor in bounds when all were in bounds before and leaves an Action unchanged. It needs only the cursors on the active path to be in bounds, as the indexing at line 46 does. |
| `BtSpec.ActiveCallbackDecides` | src/bt.rs:31-60 | The root of a tick reports `Failure` exactly when the one callback called (the Action reached by following the cursors) reports `Failure`; a `Running` callback makes the root report `Running`; the root reports `Success` only if that callback succeeded. |
| `BtSpec.TickKeepsShape` | src/bt.rs:44-60 | A tick never changes the tree's shape: node kinds, callbacks and numbers of children stay the same, and only cursors move. |
| `BtSpec.WellFormed` | src/bt.rs:38-46 | All cursors in bounds implies every index a tick will use is in bounds; this also makes every Sequence non-empty. |
| `BtSpec.Run` | src/bt.rs:64-68 | k ticks in a row yield exactly k statuses and a tree whose cursors are all still in bounds. |
| `BtSpec.SuccessAdvancesCursor` | src/bt.rs:47-51 | When the child at `active` succeeds and it is not the last child, `active` grows by exactly 1 and the Sequence returns `Running`. |
| `BtSpec.LastSuccessKeepsCursor` | src/bt.rs:52-55 | When the last child succeeds, the Sequence returns `Success` and `active` stays on the last index, so the next tick ticks the last child again. |
| `BtSpec.FailureResetsCursor` | src/bt.rs:56-59 | When the child at `active` fails, whatever `active` was, it becomes 0, the Sequence returns `Failure`, and only the ticked child changes. |
| `BtSpec.RunningKeepsCursor` | src/bt.rs:46-59 | When the child at `active` is running, `active` is unchanged and the Sequence returns `Running`. |
| `BtSpec.SequenceStatus` | src/bt.rs:45-60 | The Sequence returns `Success` exactly when its last child succeeds, `Failure` exactly when the ticked child fails, and `Running` in every other case. |
| `BtSpec.TickTouchesOnlyActiveChild` | src/bt.rs:46 | After one Sequence tick the child at `active` is its ticked self and every other child (nested cursors included) is unchanged, as is the number of children. That only one callback is called is stated by `Bt.Sequence.Tick`. |
| `BtSpec.TickKeepsCursorInBounds` | src/bt.rs:46-58 | Whatever the child reports, the new `active` is below the number of children, which does not change. |
| `BtSpec.ActionReturnsCallbackResult` | src/bt.rs:31-35 | An Action's tick returns its callback's result verbatim and leaves the Action as it was. |
| `BtSpec.SampleCallbacks` | src/bt.rs:98-106 | An Action over `always_succeed` reports `Success`; one over `always_fail` reports `Failure`. |
| `BtSpec.RunStep` | src/bt.rs:64-68 | k > 0 ticks are one tick followed by k-1 ticks of the tree that tick leaves. |
| `BtSpec.RunSplit` | src/bt.rs:64-68 | Ticking a+b times is ticking a times and then b more times from the tree that left. |
| `BtSpec.FlatSequenceFailsAtFirstFailure` | src/bt.rs:44-60 | A Sequence of Actions started at its first child reports `Running` once per succeeding child and `Failure` at the first failing child, after which the Sequence is exactly as it was at the start. |
| `BtSpec.FlatSequenceAllSucceed` | src/bt.rs:44-60 | A Sequence of n succeeding Actions started at its first child reports `Running` n-1 times and then `Success`, with `active` left on the last child. |
| `BtSpec.SucceededSequenceStaysOnLast` | src/bt.rs:52-55 | Since the cursor is not reset after `Success`, such a Sequence reports `Success` on every later tick and never starts over from its first child. |
| `BtSpec.BasicTreeAt` | src/bt.rs:71-96 | The sample tree, with any in-bounds pair of cursors, is well formed. |
| `BtSpec.BasicTree` | src/bt.rs:71-96 | The sample tree as built, with both cursors at 0, is well formed. |
| `BtSpec.BasicTreeSteps` | src/bt.rs:71-96 | The sample tree tick by tick: cursors (0,0) to (1,0) to (1,1) to (1,2), each with `Running`, then `Failure` and both cursors back at (0,0). |
| `BtSpec.BasicTreeCallbacks` | src/bt.rs:71-106 | In the four states the sample tree goes through, the callback a tick calls is `always_succeed`, `always_succeed`, `always_succeed`, then `always_fail`. |
| `BtSpec.BasicTreeFirstFourTicks` | src/bt.rs:71-96 | Ticks 1 to 4 of the sample tree return `Running`, `Running`, `Running`, `Failure`, and the tree is then exactly as built. |
| `BtSpec.BasicTreeStream` | src/bt.rs:71-106 | For every number of ticks, tick i (from 0) of the sample tree returns `Failure` when i mod 4 is 3 and `Running` otherwise; it never returns `Success`. |
| `Bt.Sequence.constructor` | src/bt.rs:37-41 | A Sequence built over exclusively owned, valid children with the cursor in bounds is valid, and its value is the Sequence of its children's values. |
| `Bt.CallLog.Invoke` | src/bt.rs:32-34 | Calls the callback once, returns its result verbatim, and appends that callback to the log. |
| `Bt.Sequence.Tick` | src/bt.rs:44-60 | The in-place tick keeps the object invariant, returns the status `BtSpec.Tick` gives for the old value, leaves the subtree with the value `BtSpec.Tick` gives, and calls exactly one callback, the active path's (`BtSpec.ActiveCallback` of the old value); only objects of this subtree and the log change. |
| `Bt.TickNode` | src/bt.rs:17-19 | `Node::tick` by dispatch: for any valid node, the status and the new value are those of `BtSpec.Tick` on the old value, exactly one callback call is recorded, and only the node's own objects and the log change. |
| `Bt.CreateBasicBt` | src/bt.rs:71-96 | Builds fresh objects forming a valid tree whose value is the sample tree with both cursors at 0. |
| `Bt.BasicTreeFourTicks` | src/bt.rs:71-106 | Four in-place passes over the sample tree as built return `Running`, `Running`, `Running`, `Failure`, call `always_succeed` three times and then `always_fail` once, and leave the tree as built. |
| `Bt.BasicTreeEightTicks` | src/bt.rs:71-106 | Ticking the built sample tree eight times in place returns `Running`, `Running`, `Running`, `Failure`, twice over, with one callback call per tick in that same pattern. |

## Left out

- `Arc<Mutex<...>>` around every node and `.lock().unwrap()`: shared, locked ownership is modelled as exclusive ownership of each child by its parent, which `Owned()` enforces. Lock contention and poisoning are not modelled.
- `#[derive(Component)]`, the `BehaviorTree` component's use by Bevy, and the `Query`-driven `test_run_bts` system: host integration. `BehaviorTree` is kept as a record holding its root; a host's repeated ticking is `BtSpec.Run`.
- The `println!` calls inside `always_succeed` and `always_fail`: console output. Only their returned statuses are kept.
- Callback calls are recorded only when made through `CallLog.Invoke`; a Dafny function value can also be called directly, and such a call would leave no trace. The model's own code calls callbacks only through `Invoke`.
- Arbitrary callbacks behind `Arc<dyn Fn() -> Status>`: a Dafny function value is pure, so a callback that reads changing world state and answers differently on different ticks is not modelled. Each callback returns one fixed status.
- `Bt.Sequence.constructor`: requires the cursor to be in bounds and the children to be unshared. The Rust struct literal accepts any `active`, and an out-of-range cursor only panics at the next tick; a panicking tick is not modelled.
- `active` is a `usize` in the code and a `nat` here; `active + 1` cannot overflow because `active` is below the number of children.

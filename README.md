# Load-balancer dispatcher and Monty Hall door arithmetic, in Dafny

This project models two small sequential cores of a Rust repository of
concurrency demos, and proves properties of them.

**The load-balancer dispatcher** (`prog/loadbalancer.rs`). A dispatcher owns
a pool of workers. Each worker has an id and a `pending` count. Each turn of
the dispatcher's loop handles one event: a new request, or a completion
carrying a worker id. Two policies exist:

- *least-loaded* (`dispatch`): a request goes to the front worker, a
  completion lowers the first worker with the id, and then the pool is
  re-sorted with the stable `Vec::sort`;
- *round-robin* (`dispatch_rr`): a request goes to the worker under a
  cursor, which then advances modulo the pool size, and a completion for id
  lowers `workers[id]`.

Each policy is a class (`LeastLoadedDispatcher`, `RoundRobinDispatcher`).
The class holds the worker array, plus ghost counters of what was
dispatched and completed. Its `Step(event)` method is one turn of the loop.
Its `Valid()` invariant holds after every turn:

- **least-loaded:** the pool is sorted by load; its ids are 0..n-1, each
  exactly once; the total load equals dispatched minus completed;
- **round-robin:** every id equals its position; request number j went to
  position j mod n; the cursor equals the number of requests mod n; the
  total load equals dispatched minus completed.

The sort is an in-place stable insertion sort, `StableSort`. It is proved
sorted, a permutation, and order-preserving among equal loads
(`TieOrderPreserved`). Sortedness plus the tie order fix the result
uniquely (`SortedIsDeterminedByTieOrder`). So `Step`'s contract states the
new pool exactly: it is what any stable sort of the updated pool gives.

The worker's two comparators are modelled as `SameWorker` (`eq`, ids only)
and `Compare` (`cmp`, loads only). They disagree with each other
(`ComparatorsDisagree`). Rust's `Ord` documentation asks for them to agree.
Nothing in the dispatcher uses `eq`, so this does not change what the
program does.

**Monty Hall** (`prog/monty_hall.rs`). Models `free_doors`, `switch_door`,
`game_host_open` and `simulate`. The random draws are parameters: where the
car is, the first pick, the index of the door the host samples among the
free ones, and whether the player switches. The simulation loop of `main`
is modelled with its four counters. The classic result is proved:
switching wins exactly when the first pick was wrong.

Files: `wrappers.dfy` (Option), `workers.dfy` (module `Workers`: the worker
value, comparators, facts about pools as sequences), `loadbalancer.dfy`
(module `LoadBalancer`: pool construction, statistics, search, the sort,
both dispatchers), `montyhall.dfy` (module `MontyHall`).

How completions find their worker:

- Under round-robin a completion indexes `workers[id]` by position
  (prog/loadbalancer.rs:80). This relies on ids being positions, which the
  model proves as part of `Valid()`.
- Under least-loaded a completion for an unknown id changes nothing
  (prog/loadbalancer.rs:51-56): the search finds no worker and no load
  moves. Such a completion is not counted as completed, so "load =
  dispatched − completed" stays exact.

The panics the code can reach are not modelled; "## Left out" lists each
one and the precondition that excludes it.

## Model

| member | source | states |
|---|---|---|
| `Workers.SameWorker` | prog/loadbalancer.rs:119-123 | `eq`: two workers are equal exactly when their ids are; it has no contract of its own, `ComparatorsLookAtDifferentFields` and `ComparatorsDisagree` state its properties |
| `Workers.Compare` | prog/loadbalancer.rs:125-129 | `cmp`: Less/Equal/Greater by `pending` alone; it has no contract of its own, `CompareIsTotalPreorder` and `ComparatorsLookAtDifferentFields` state its properties |
| `Workers.ComparatorsLookAtDifferentFields` | prog/loadbalancer.rs:119-129 | renumbering two workers leaves their `cmp` order unchanged, and changing their loads leaves `eq` unchanged: `cmp` looks at loads only, `eq` at ids only |
| `Workers.CompareIsTotalPreorder` | prog/loadbalancer.rs:125-135 | `cmp` is antisymmetric, reflexive, transitive and total (of two workers, one is not Greater than the other), as a sort key must be |
| `Workers.ComparatorsDisagree` | prog/loadbalancer.rs:119-129 | some workers are `eq` but not `cmp`-Equal, and some are `cmp`-Equal but not `eq` |
| `Workers.FreshPoolIsIdle` | prog/loadbalancer.rs:108-114 | every worker of a freshly built pool has no pending work, so the total load is 0 |
| `Workers.FirstWithId` | prog/loadbalancer.rs:51-56 | the result, if any, is a position holding the id with no earlier position holding it; there is no result exactly when no worker has the id |
| `Workers.LoadUpdate` | prog/loadbalancer.rs:47-53 | changing one worker changes the total load by exactly that worker's change |
| `Workers.PermutationKeepsIds` | prog/loadbalancer.rs:59 | a rearranged pool has the same multiset of ids: none lost, none duplicated |
| `Workers.PermutationKeepsLoad` | prog/loadbalancer.rs:59 | a rearranged pool has the same total load |
| `Workers.SwapKeepsTieOrder` | prog/loadbalancer.rs:59 | swapping two neighbours of different load keeps the order among equal loads |
| `Workers.SortedIsDeterminedByTieOrder` | prog/loadbalancer.rs:59 | two pools that are both sorted by load and agree on the order among ties are equal, so a stable sort's result is unique |
| `Workers.VarianceNonNegative` | prog/loadbalancer.rs:89-97 | n·sumsq ≥ sum², so the variance `print` derives from sum and sumsq is never negative in exact arithmetic |
| `LoadBalancer.BuildPool` | prog/loadbalancer.rs:168-178 | the pool `main` builds has n workers, worker k with id k and nothing pending |
| `LoadBalancer.Stats` | prog/loadbalancer.rs:88-95 | the loop yields sum = Σ pending and sumsq = Σ pending² over the pool |
| `LoadBalancer.StatsExamples` | prog/loadbalancer.rs:89-97 | loads 2,2,2,2 give sum 8, sumsq 16 (mean 2, variance 0); loads 0,1,2,3 give sum 6, sumsq 14 (mean 1.5, variance 1.25) |
| `LoadBalancer.Locate` | prog/loadbalancer.rs:51-56 | the linear search returns the position of the first worker with the id, or none |
| `LoadBalancer.SwapDown` | prog/loadbalancer.rs:59 | the exchange of two neighbours in the sort leaves a rearrangement that keeps the tie order |
| `LoadBalancer.InsertDown` | prog/loadbalancer.rs:59 | one insertion pass extends the sorted prefix by one, as a rearrangement that keeps the tie order, and changes nothing when the prefix was already sorted; the workers after position i stay where they are |
| `LoadBalancer.StableSort` | prog/loadbalancer.rs:59 | `Vec::sort` by `cmp`: the result is sorted by load, a permutation of the input, keeps the relative order of equal loads, and equals the input when that was sorted |
| `LoadBalancer.LeastLoadedUpdate` | prog/loadbalancer.rs:44-57 | the event half of a `dispatch` turn: a request adds one to the front worker, a completion takes one from the first worker with the id and changes nothing when none has it; `LeastLoadedUpdateChangesOneWorker` states its properties |
| `LoadBalancer.LeastLoadedUpdateChangesOneWorker` | prog/loadbalancer.rs:44-57 | a request raises the front worker's load by exactly 1 and the total by 1; a completion lowers only the first worker with the id, by 1, and the total by 1, or changes nothing if no worker has it; no id changes |
| `LoadBalancer.LeastLoadedDispatcher.constructor` | prog/loadbalancer.rs:41 | `dispatch` starts from the pool `main` built, which satisfies the invariant with nothing dispatched |
| `LoadBalancer.LeastLoadedDispatcher.Apply` | prog/loadbalancer.rs:44-57 | the event half of a turn updates the pool exactly as `LeastLoadedUpdate` says and returns the id the request was sent to |
| `LoadBalancer.LeastLoadedDispatcher.Step` | prog/loadbalancer.rs:41-61 | one turn keeps the invariant (sorted, ids 0..n-1 once each, load = dispatched − completed); the new pool is a stable re-sort of the updated one; its front worker carries the least load |
| `LoadBalancer.LeastLoadedDispatcher.Report` | prog/loadbalancer.rs:60 | the sum `print` reports equals dispatched − completed, and n·sumsq ≥ sum² |
| `LoadBalancer.SingleWorkerScenario` | prog/loadbalancer.rs:44-59 | with one worker, three requests raise its load to 3 and three completions bring it back to 0 |
| `LoadBalancer.NextCursor` | prog/loadbalancer.rs:77 | `(i + 1) % nw` applied to position m mod n gives position m + 1 mod n |
| `LoadBalancer.RoundRobinDispatcher.constructor` | prog/loadbalancer.rs:68-70 | `dispatch_rr` starts from `main`'s pool with the cursor at 0 and no history |
| `LoadBalancer.RoundRobinDispatcher.Step` | prog/loadbalancer.rs:71-83 | a request raises only the worker under the cursor, by 1, records that position and moves the cursor to (cursor + 1) mod n; a completion for id lowers only the worker whose id is id, by 1; the pool is never reordered; ids stay equal to positions and the cursor stays in [0, n) |
| `LoadBalancer.RoundRobinDispatcher.Report` | prog/loadbalancer.rs:84 | the sum `print` reports equals the requests routed less the completions, and n·sumsq ≥ sum² |
| `LoadBalancer.ConsecutiveRequests` | prog/loadbalancer.rs:69-77 | K consecutive requests starting from the cursor c go to c, c+1, … mod n, completions in between or not |
| `LoadBalancer.FourRequestsOnThreeWorkers` | prog/loadbalancer.rs:69-78 | with three workers and the cursor at 0, four requests go to 0, 1, 2, 0 and leave the cursor at 1 |
| `MontyHall.FreeDoors` | prog/monty_hall.rs:43-45 | `free_doors`: the doors 0..3 filtered against the blocked ones; `FreeDoorsAreTheUnblockedDoors` states what it returns |
| `MontyHall.FreeDoorsAreTheUnblockedDoors` | prog/monty_hall.rs:43-45 | `free_doors` returns exactly the doors of {0,1,2} not blocked, in strictly increasing order (so without duplicates) |
| `MontyHall.FreeFromAllowed` | prog/monty_hall.rs:43-45 | every door the filter over lo..3 keeps lies in [lo, 3) and is not blocked |
| `MontyHall.FreeFromComplete` | prog/monty_hall.rs:43-45 | every unblocked door of lo..3 is kept by the filter |
| `MontyHall.FreeFromIncreasing` | prog/monty_hall.rs:43-45 | the filter keeps the doors in strictly increasing order |
| `MontyHall.HostChoices` | prog/monty_hall.rs:34-37 | the host has one door to choose from when car and first pick differ, two when they coincide |
| `MontyHall.HostOpen` | prog/monty_hall.rs:34-37 | the opened door is one of `free_doors(&[car, choice])`, so it is a door, neither the car nor the first pick |
| `MontyHall.SwitchDoor` | prog/monty_hall.rs:39-41 | for any first pick and opened door, the switched-to door is a door different from both, and the lowest such |
| `MontyHall.SwitchWinsIffFirstPickWrong` | prog/monty_hall.rs:25-31 | with a legally opened door, switching lands on the car exactly when the first pick was not the car |
| `MontyHall.Simulate` | prog/monty_hall.rs:21-32 | `switched` is the switch draw; `win` holds exactly when the player switched from a wrong first pick or kept a right one |
| `MontyHall.CountsPartition` | prog/monty_hall.rs:83-88 | every game falls into exactly one of the four classes, so the four counts add up to the number of games |
| `MontyHall.TotalSwitches` | prog/monty_hall.rs:91 | `total_switches`: switch wins plus switch losses; `RunSimulations` states that it and `total_keeps` add up to the number of games |
| `MontyHall.TotalKeeps` | prog/monty_hall.rs:92 | `total_keeps`: keep wins plus keep losses; `RunSimulations` states that it and `total_switches` add up to the number of games |
| `MontyHall.RunSimulations` | prog/monty_hall.rs:75-92 | each counter counts its class (switch wins = switched from a wrong pick, keep wins = kept a right pick, and so on), and total switches plus total keeps equals the number of games |

## Left out

- Threads, channels, `select!` and `sleep` in `prog/loadbalancer.rs` (requesters, workers, `main`'s spawning). They only decide which event the dispatcher handles next, so the model takes events as arguments of `Step`. The event order is arbitrary and there is no fairness claim.
- `w.requests.send(req)`: handing the request to the worker's channel is modelled as the returned id of the worker that receives it. The `.unwrap()` on send and receive results (a closed channel panics) is not modelled.
- The `Request` payload (a boxed closure returning a duration) and the workers' simulated work. A request carries no data in the model.
- Random number generation in both files (`Range::ind_sample`, `rand::sample`, `rng.gen()`). The drawn values are parameters; `LegalDraw` states what the ranges guarantee.
- The floating-point `avg` and `sig` of `print` and the console output. The model stops at the integer `sum` and `sumsq`.
- The `f32` win rates in `monty_hall.rs`'s `main` and its console output.
- Command-line handling (`handle_args`, `getopt_uint!`, `print_opts`, the getopts code of `monty_hall.rs`'s `main`) and the default counts of requesters and workers.
- Integer widths: `uint`/`usize` overflow of `pending`, `sum`, `sumsq` and the Monty Hall counters is not modelled; all counts are unbounded naturals.
- `LoadBalancer.LeastLoadedDispatcher.Step` and `LoadBalancer.LeastLoadedDispatcher.Apply`: `workers.get_mut(0).unwrap()` panics on an empty pool (prog/loadbalancer.rs:45, reachable with `-w 0`); the model requires a non-empty pool for a request instead.
- `LoadBalancer.LeastLoadedDispatcher.Step` and `LoadBalancer.LeastLoadedDispatcher.Apply`: `w.pending -= 1` on a worker with nothing pending underflows an unsigned integer (prog/loadbalancer.rs:53): a wrap, or a panic where overflow checks are on; the model requires the first worker with the id, when there is one, to have work pending (`CanComplete`).
- `LoadBalancer.RoundRobinDispatcher.Step`: `workers.get_mut(i).unwrap()` panics on an empty pool (prog/loadbalancer.rs:74; `% nw` at line 77 would also divide by zero); the model requires a non-empty pool for a request.
- `LoadBalancer.RoundRobinDispatcher.Step`: `workers.get_mut(id).unwrap()` panics on an id that is not a position of the pool (prog/loadbalancer.rs:80), and `w.pending -= 1` underflows on a worker with nothing pending (prog/loadbalancer.rs:81); the model requires `id < n` and work pending on `workers[id]`.
- The endless `loop` itself: `Step` is one turn. The invariant `Valid()` that every `Step` keeps covers any finite run.
- `prog/whisper.rs`, `prog/channels.rs`, `prog/nameage.rs` and `tour/src/main.rs` are not part of this model.

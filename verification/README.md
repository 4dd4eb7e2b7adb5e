# Courier service: a Dafny model of the data layer

The courier service keeps couriers, the districts they serve and the orders
they deliver. Creating an order assigns it to a free courier of its district.
Completing an order releases that courier and recomputes two statistics:
- the average time the courier takes to complete an order;
- the average number of orders the courier delivers per day.

This project models the service's data-access layer (`crud.py`) over the
entity shapes of `models.py`. Each database operation is a function on an
immutable store. An operation that fails returns an error and no store, so the
caller's store is unchanged. This is the rollback of the `with db:`
transaction that the source raises out of.

Modules:

- `Wrappers`: `Option` and `Result`.
- `Sequences`: `Distinct` and `Elements` on sequences, and `Pick` on sets.
- `Exceptions`: the error kinds.
  - The service's exceptions: no courier, no couriers, no free couriers, no district, no order, order already completed.
  - `RowsRejected`: the new rows of a courier are refused, and nothing is stored.
  - `NoneAccess`: an attribute read through a missing value.
- `Models`: the entities.
  - `Courier`, `District` and `Order`.
  - The order status and its stored integer codes.
  - Timestamps.
- `Database`: the store and its invariant.
  - The store holds the district table keyed by the unique name, the courier table, the order table and the id counters.
  - Ids are integers. A lookup may be asked for any integer, negative ones included, and answers not-found when no row has it.
  - `Valid` is the invariant that every reachable store keeps:
    - ids are below their counters;
    - district ids are unique;
    - foreign keys resolve;
    - an active order is an in-progress order of its courier;
    - every in-progress order is active;
    - a completion time is present exactly on completed orders.
  - A courier's `orders` relationship.
- `Statistics`: the two statistics, as specifications and as the loops of the source.
  - Python's `timedelta / int` rounds half to even on microseconds. This is `DivideAndRound`.
- `Crud`: the operations.
  - Lookups.
  - `get_or_create_districts`.
  - Creating a courier and committing it.
  - Finding a free courier.
  - Creating an order.
  - Completing an order.
- `Lifecycle`: properties across operations.
  - Every operation preserves `Valid`.
  - When creating a courier succeeds.
  - Dispatch claims the courier.
  - Completion releases it and leaves statistics that reflect the courier's whole history.
- `Scenarios`: the service's end-to-end scenario on the empty database.

Where the code departs from what one might expect, the model follows the code:

- **Duplicate district names are not collapsed.** `get_or_create_districts` resolves each listed name separately.
  - An unknown name listed twice yields two new districts with the same name. The unique name constraint refuses them.
  - A known name listed twice yields the same district twice. The two copies of one row are refused.
  - Either way creating the courier fails and nothing is stored.
  - So creating a courier succeeds exactly when the names are distinct (`Lifecycle.CreateCourierSucceedsIff`).
- **No lowest-id tie-break.** The free-courier query has no `ORDER BY`, so `.first()` may return any free courier. `Crud.GetFreeCourier` chooses nondeterministically. `Crud.CreateOrder` promises only that the chosen courier was free.
- **Days are days of the month.** `update_avg_day_orders` buckets orders by `completed_at.day`. Orders completed on the 5th of two different months share a bucket (`Statistics.SameDayOfMonthExample`).
- **The per-day count covers every order.** `update_avg_day_orders` counts all of the courier's orders, not only completed ones. Right after a completion every order of the courier is completed (`Lifecycle.HistoryCompletedAfterClose`), so the two counts agree there.
- **One transaction per order.** `create_order` looks up the district and the free courier, then inserts the order and claims the courier in a single commit.

## Model

| member | source | states |
|---|---|---|
| Models.StatusCode | models.py:11-13 | in-progress is stored as 1 and completed as 2; the code is 1 exactly for in-progress |
| Models.StatusOf | models.py:11-13 | a stored integer names a status exactly when it is 1 or 2, and decoding it gives back the status with that code |
| Models.StatusRoundTrip | models.py:11-13 | decoding the code of any status gives that status |
| Database.AtMostOneInProgress | models.py:32-33 | in a valid store a courier never has two in-progress orders, since it has a single active-order slot |
| Database.HistoryBelowSound | models.py:35 | every entry of a courier's `orders` relationship is a stored order whose courier is that courier |
| Database.HistoryBelowComplete | models.py:35 | every stored order of the courier with an id below the bound appears in its `orders` relationship |
| Database.HistoryBelowSource | models.py:35 | each entry of the relationship is the stored order under some id of that courier below the bound |
| Database.HistoryBelowCount | models.py:35 | the relationship has exactly as many entries as the courier has orders below the bound |
| Database.HistoryBelowIds | models.py:35 | the entries of the relationship come from strictly increasing ids that are exactly the courier's order ids below the bound, each entry being the order stored under its id, so every order is listed exactly once |
| Database.HistoryCount | models.py:35 | in a valid store a courier's `orders` relationship has as many entries as the courier has orders |
| Database.EmptyValid | models.py:25-67 | the empty database satisfies the invariant |
| Crud.GetCourier | crud.py:21-30 | the result is an error exactly when no courier has the id, and then the error is no-courier; otherwise it is the stored courier |
| Crud.GetCouriers | crud.py:47-53 | the result is an error exactly when there are no couriers; otherwise it lists every stored courier with its id, each exactly once |
| Crud.GetDistrict | crud.py:74-83 | the result is an error exactly when no district has the name, and then the error is no-district; otherwise it is the stored district with its id |
| Crud.GetOrCreateDistricts | crud.py:99-109 | one district per listed name, in order and with that name; it carries an id exactly when the name is stored, and then the stored id |
| Crud.CreateCourier | crud.py:10-18 | on success: the courier gets the next id, the given name, no active order, no average time and zero orders per day; the district table gains exactly the listed names and keeps its old entries; the courier serves the districts the names resolve to; orders are untouched; a failure is rows-rejected |
| Crud.CommitCourier | crud.py:12-18 | a refused insert stores nothing and is rows-rejected; a stored courier gets the next id, the defaults and one served district per entry; old districts, other couriers and all orders are kept |
| Crud.GetFreeCourier | crud.py:56-67 | the result is an error exactly when no courier is free in the district, and then the error is no-free-couriers; otherwise the courier serves the district and has no active order |
| Crud.CreateOrder | crud.py:112-126 | an unknown district gives no-district before anything else; no free courier gives no-free-couriers; otherwise a new in-progress order with the next id, the district, the start time and no completion time is stored, and it becomes the active order of a courier that was free; other couriers are unchanged |
| Crud.Dispatch | crud.py:117-124 | the order gets the next id, the name, district and courier, is in progress, started now and not completed; the courier's active order becomes it; other orders, couriers and districts are unchanged |
| Crud.GetOrder | crud.py:129-138 | the result is an error exactly when no order has the id, and then the error is no-order; otherwise it is the stored order |
| Crud.CompleteOrder | crud.py:187-199 | a missing order gives no-order; a completed order gives already-completed; on success only that order changes, to completed with the completion time; its courier loses its active order; other couriers, districts and counters are unchanged |
| Crud.Close | crud.py:192-196 | the first commit of a completion: the order becomes completed at the given time, its courier's active order is cleared, and every other order and courier, the districts and the counters are unchanged |
| Statistics.DivideAndRound | crud.py:166 | the quotient is nearest to the exact mean, with ties going to the even neighbour |
| Statistics.NearestHalfEvenUnique | crud.py:166 | at most one quotient is nearest-with-ties-to-even, so the rounding is determined |
| Statistics.ExactMean | crud.py:166 | dividing an exact multiple gives the exact quotient |
| Statistics.UpdatedAvgCompleteTime | crud.py:155-169 | it fails exactly when a closed order lacks a completion time; with no closed order the courier is unchanged; otherwise only the average time changes, to the rounded mean duration of the closed orders |
| Statistics.UpdatedAvgDayOrders | crud.py:172-184 | it fails exactly when an order lacks a completion time; with no orders the courier is unchanged; otherwise only the per-day figure changes, to the floor of the order count over the number of distinct completion days |
| Statistics.UpdateAvgOrderCompleteTime | crud.py:158-168 | the loop that skips in-progress orders and sums durations computes the specified average-time update |
| Statistics.UpdateAvgDayOrders | crud.py:175-183 | the loop that counts orders and collects completion days computes the specified per-day update |
| Statistics.ThreeDaysExample | crud.py:155-184 | completions of 10, 20 and 30 minutes on three days give a 20-minute average and one order per day |
| Statistics.SameDayOfMonthExample | crud.py:179-182 | two orders completed on the same day of the month share one bucket, giving two orders per day |
| Statistics.AllCompletedStatistics | crud.py:160-164 | when every order is completed and stamped, both updates succeed and every order is counted |
| Lifecycle.CreateCourierSucceedsIff | crud.py:10-18 | from a valid store, creating a courier succeeds exactly when its district names are pairwise distinct |
| Lifecycle.RepeatedNameClashes | crud.py:100-108 | because each name is resolved separately, a repeated name yields either two new districts with one name or one district row twice, and both are refused |
| Lifecycle.CreateCourierServesEachName | models.py:18-22 | a created courier serves exactly as many districts as names were listed |
| Lifecycle.CreateCourierPreservesValid | crud.py:10-18 | creating a courier keeps the store valid |
| Lifecycle.FreeMeansNoActiveOrder | crud.py:58-62 | in a valid store, having no existing active order is the same as having no active order at all |
| Lifecycle.DispatchPreservesValid | crud.py:117-124 | storing the order and claiming a free courier keeps the store valid |
| Lifecycle.DispatchClaimsCourier | crud.py:122 | after dispatch, the free couriers of every district are the previous ones minus the claimed courier |
| Lifecycle.HistoryCompletedAfterClose | crud.py:193-196 | after the completion commit, every order of the courier is completed and stamped |
| Lifecycle.CompleteOrderSucceedsIff | crud.py:187-199 | from a valid store, completing an order succeeds exactly when the order exists and is in progress |
| Lifecycle.CompleteOrderPreservesValid | crud.py:187-199 | completing an order keeps the store valid |
| Lifecycle.CompletedIsTerminal | crud.py:189-191 | a completed order is never changed again, and completing it again is an already-completed error |
| Lifecycle.CompleteOrderStatistics | crud.py:197-199 | after a completion the courier's statistics are the rounded mean duration and the per-day floor over its whole history |
| Lifecycle.SingleOrderStatistics | crud.py:158-183 | a history of one completed order gives that order's duration as the average and one order per day |
| Lifecycle.FirstCompletion | crud.py:187-199 | completing a courier's only order gives one order per day and that order's duration as the average |
| Scenarios.FirstRequestsFail | test_main.py:14-23 | on the empty database an order for "test_district" fails with no-district and listing the couriers fails with no-couriers |
| Scenarios.CreateFirstCourier | test_main.py:45-48 | creating "test_courier" in "test_district" on the empty database succeeds and leaves a valid store |
| Scenarios.FirstDistrictId | test_main.py:88-91 | the district created with the first courier gets id 1 |
| Scenarios.FirstCourierIsFree | test_main.py:82-97 | the created courier has id 1, its name, district 1 named "test_district", no active order, no average time and zero orders per day; it is the only free courier there |
| Scenarios.DispatchAndComplete | test_main.py:119-196 | the first order gets id 1, status 1 and courier 1; order 0 is unknown to lookup and completion; a second order finds no free courier; completing order 1 succeeds; completing it again is already-completed |

## Left out

- The HTTP layer (`main.py`), the request and response schemas, the error messages and status codes of `app_exceptions.py`, and the engine and session setup (`database.py`, `config.py`) are not part of this model. The model keeps only which error an operation raises.
- The eager-loading variants `get_joined_courier`, `get_joined_district` and `get_joined_order` are not modelled separately. They look up the same row with the same error as `Crud.GetCourier`, `Crud.GetDistrict` and `Crud.GetOrder`.
- `create_district` is the not-yet-stored `District(None, name)` built inside `Crud.GetOrCreateDistricts`. It is the helper `Crud.CreateDistrict`.
- Ids come from per-table counters in the store, starting at 1. The database's own allocation, and the unused ids left by rolled-back inserts, are not modelled.
- Concurrency between sessions is not modelled. Each operation runs alone on a store.
- `datetime.now()` is a parameter `now` of the operations. A timestamp is a microsecond count together with its day of the month, and the calendar that links the two is not modelled.
- `datetime.fromtimestamp(...)`, which turns the average duration into a date, is not modelled. The stored average is the rounded duration in microseconds.
- Statistics.UpdatedAvgDayOrders: `int(counter / len(days))` divides in floating point and truncates. The model uses integer floor division. The two agree for every count below 2^53.
- Database.History: the `orders` relationship is enumerated in id order. The database returns it in no specified order, and both statistics depend only on its contents.
- Crud.CommitCourier: the two refusals are one error kind. A repeated new name breaks the unique name constraint at the commit (crud.py:18). A district listed twice is two copies of one row, and the session refuses them when the courier is added (crud.py:17). In both cases nothing is stored.
- Crud.GetCouriers: the order of the listed couriers is left unspecified, as the query has no `ORDER BY`.
- Crud.CompleteOrder: a missing completion time on an order of the courier would raise in the statistics updates (crud.py:164, crud.py:179). That happens after the first commit (crud.py:196) has persisted the completion. The model returns the `NoneAccess` error without that partially committed store. `Lifecycle.CompleteOrderSucceedsIff` shows the case cannot arise from a valid store. A missing courier raises before that commit (crud.py:195), and the model matches the source there.
- Models.Courier: the nullable `name` column is a plain string, because courier creation always supplies one.

/**
 * The in-memory store standing in for the database: the district, courier and
 * order tables, the id counters, and the invariants every reachable store keeps.
 */
module Database {
  import opened Wrappers
  import opened Models
  import opened Sequences

  /**
   * `districts` maps each district name to its id: the name column is unique, so
   * the table is a function of the name. Ids are handed out from the counters.
   */
  datatype Store = Store(
    districts: map<string, DistrictId>,
    couriers: map<CourierId, Courier>,
    orders: map<OrderId, Order>,
    nextDistrictId: nat,
    nextCourierId: nat,
    nextOrderId: nat)

  /** The empty database; auto-increment ids start at 1. */
  const Empty: Store := Store(map[], map[], map[], 1, 1, 1)

  /** Every stored id is positive and below its counter, so the counter is fresh. */
  ghost predicate FreshCounters(s: Store) {
    && 1 <= s.nextDistrictId && 1 <= s.nextCourierId && 1 <= s.nextOrderId
    && (forall n :: n in s.districts ==> 1 <= s.districts[n] < s.nextDistrictId)
    && (forall c :: c in s.couriers ==> 1 <= c < s.nextCourierId)
    && (forall o :: o in s.orders ==> 1 <= o < s.nextOrderId)
  }

  /** Distinct district names have distinct ids (the id is the primary key). */
  ghost predicate UniqueDistrictIds(s: Store) {
    forall n, m :: n in s.districts && m in s.districts && n != m ==> s.districts[n] != s.districts[m]
  }

  /** Foreign keys: association rows, order.courier_id and order.district_id point at stored rows. */
  ghost predicate ForeignKeys(s: Store) {
    && (forall c :: c in s.couriers ==> s.couriers[c].districts <= s.districts.Values)
    && (forall o :: o in s.orders ==> s.orders[o].courier in s.couriers)
    && (forall o :: o in s.orders ==> s.orders[o].district in s.districts.Values)
  }

  /** A courier's active order, if set, is an in-progress order of that courier. */
  ghost predicate ActiveOrdersInProgress(s: Store) {
    forall c :: c in s.couriers && s.couriers[c].activeOrder.Some? ==>
      && s.couriers[c].activeOrder.value in s.orders
      && s.orders[s.couriers[c].activeOrder.value].status == InProgress
      && s.orders[s.couriers[c].activeOrder.value].courier == c
  }

  /** Every in-progress order is the active order of its courier. */
  ghost predicate InProgressClaimed(s: Store) {
    forall o :: o in s.orders && s.orders[o].status == InProgress ==>
      && s.orders[o].courier in s.couriers
      && s.couriers[s.orders[o].courier].activeOrder == Some(o)
  }

  /** An order carries a completion time exactly when it is completed. */
  ghost predicate CompletionStamped(s: Store) {
    forall o :: o in s.orders ==> (s.orders[o].status == Completed <==> s.orders[o].completedAt.Some?)
  }

  /** The invariant of every store the operations can reach from `Empty`. */
  ghost predicate Valid(s: Store) {
    && FreshCounters(s)
    && UniqueDistrictIds(s)
    && ForeignKeys(s)
    && ActiveOrdersInProgress(s)
    && InProgressClaimed(s)
    && CompletionStamped(s)
  }

  /** No courier holds two in-progress orders at once. */
  lemma {:induction false} AtMostOneInProgress(s: Store, o1: OrderId, o2: OrderId)
    requires Valid(s)
    requires o1 in s.orders && o2 in s.orders
    requires s.orders[o1].status == InProgress && s.orders[o2].status == InProgress
    requires s.orders[o1].courier == s.orders[o2].courier
    ensures o1 == o2
  {
    assert s.couriers[s.orders[o1].courier].activeOrder == Some(o1);
    assert s.couriers[s.orders[o2].courier].activeOrder == Some(o2);
  }

  /** The orders with id below `n` whose courier is `cid`, in id order. */
  function HistoryBelow(orders: map<OrderId, Order>, cid: CourierId, n: nat): seq<Order> {
    if n == 0 then []
    else
      HistoryBelow(orders, cid, n - 1)
      + (if n - 1 in orders && orders[n - 1].courier == cid then [orders[n - 1]] else [])
  }

  /** The `orders` relationship of a courier: every order whose courier is `cid`. */
  function History(s: Store, cid: CourierId): seq<Order> {
    HistoryBelow(s.orders, cid, s.nextOrderId)
  }

  /** Every entry of a courier's history is a stored order of that courier. */
  lemma {:induction false} HistoryBelowSound(orders: map<OrderId, Order>, cid: CourierId, n: nat)
    ensures forall i :: 0 <= i < |HistoryBelow(orders, cid, n)| ==>
      && HistoryBelow(orders, cid, n)[i] in orders.Values
      && HistoryBelow(orders, cid, n)[i].courier == cid
  {
    if n > 0 {
      HistoryBelowSound(orders, cid, n - 1);
    }
  }

  /** The ids below `n` of the stored orders of courier `cid`. */
  function OrderIdsBelow(orders: map<OrderId, Order>, cid: CourierId, n: nat): set<OrderId> {
    set o | o in orders && 0 <= o < n && orders[o].courier == cid
  }

  /** The history holds one entry per order of the courier: no order is listed twice. */
  lemma {:induction false} HistoryBelowCount(orders: map<OrderId, Order>, cid: CourierId, n: nat)
    ensures |HistoryBelow(orders, cid, n)| == |OrderIdsBelow(orders, cid, n)|
  {
    if n == 0 {
      assert OrderIdsBelow(orders, cid, n) == {};
    } else {
      HistoryBelowCount(orders, cid, n - 1);
      var below := OrderIdsBelow(orders, cid, n - 1);
      assert n - 1 !in below;
      if n - 1 in orders && orders[n - 1].courier == cid {
        assert OrderIdsBelow(orders, cid, n) == below + {n - 1};
      } else {
        assert OrderIdsBelow(orders, cid, n) == below;
      }
    }
  }

  /**
   * The ids behind a courier's history: strictly increasing, exactly the
   * courier's order ids below `n`, and each entry is the order stored under its
   * id. So every order occurs once, even when two orders are equal as values.
   */
  lemma {:induction false} HistoryBelowIds(orders: map<OrderId, Order>, cid: CourierId, n: nat)
    returns (ids: seq<OrderId>)
    ensures |ids| == |HistoryBelow(orders, cid, n)|
    ensures forall i, j :: 0 <= i < j < |ids| ==> ids[i] < ids[j]
    ensures Elements(ids) == OrderIdsBelow(orders, cid, n)
    ensures forall i :: 0 <= i < |ids| ==> ids[i] in orders && HistoryBelow(orders, cid, n)[i] == orders[ids[i]]
  {
    if n == 0 {
      ids := [];
      assert OrderIdsBelow(orders, cid, n) == {};
    } else {
      var prev := HistoryBelowIds(orders, cid, n - 1);
      assert forall i :: 0 <= i < |prev| ==> prev[i] in OrderIdsBelow(orders, cid, n - 1);
      if n - 1 in orders && orders[n - 1].courier == cid {
        ids := prev + [n - 1];
        assert OrderIdsBelow(orders, cid, n) == OrderIdsBelow(orders, cid, n - 1) + {n - 1};
        assert Elements(ids) == Elements(prev) + {n - 1};
      } else {
        ids := prev;
        assert OrderIdsBelow(orders, cid, n) == OrderIdsBelow(orders, cid, n - 1);
      }
    }
  }

  /** In a valid store the history of a courier has exactly one entry per order of that courier. */
  lemma HistoryCount(s: Store, cid: CourierId)
    requires Valid(s)
    ensures |History(s, cid)| == |set o | o in s.orders && s.orders[o].courier == cid|
  {
    HistoryBelowCount(s.orders, cid, s.nextOrderId);
    assert OrderIdsBelow(s.orders, cid, s.nextOrderId) == set o | o in s.orders && s.orders[o].courier == cid;
  }

  /** Each entry of a courier's history is the stored order under some id below `n`. */
  lemma {:induction false} HistoryBelowSource(orders: map<OrderId, Order>, cid: CourierId, n: nat, i: int)
    returns (o: OrderId)
    requires 0 <= i < |HistoryBelow(orders, cid, n)|
    ensures o in orders && 0 <= o < n && orders[o].courier == cid
    ensures orders[o] == HistoryBelow(orders, cid, n)[i]
  {
    var prefix := HistoryBelow(orders, cid, n - 1);
    if i < |prefix| {
      o := HistoryBelowSource(orders, cid, n - 1, i);
    } else {
      o := n - 1;
    }
  }

  /** Every stored order of the courier with id below `n` occurs in the history. */
  lemma {:induction false} HistoryBelowComplete(orders: map<OrderId, Order>, cid: CourierId, n: nat, o: OrderId)
    requires o in orders && 0 <= o < n && orders[o].courier == cid
    ensures orders[o] in HistoryBelow(orders, cid, n)
  {
    if o < n - 1 {
      HistoryBelowComplete(orders, cid, n - 1, o);
    }
  }

  /** When `o` is the courier's only order below `n`, its history is exactly that order. */
  lemma {:induction false} HistoryBelowSingle(orders: map<OrderId, Order>, cid: CourierId, n: nat, o: OrderId)
    requires o in orders && 0 <= o < n && orders[o].courier == cid
    requires forall p :: p in orders && p != o ==> orders[p].courier != cid
    ensures HistoryBelow(orders, cid, n) == [orders[o]]
  {
    if n - 1 == o {
      HistoryBelowEmpty(orders, cid, o);
    } else {
      HistoryBelowSingle(orders, cid, n - 1, o);
    }
  }

  /** A courier without orders below `n` has an empty history up to `n`. */
  lemma {:induction false} HistoryBelowEmpty(orders: map<OrderId, Order>, cid: CourierId, n: nat)
    requires forall p :: p in orders && p < n ==> orders[p].courier != cid
    ensures HistoryBelow(orders, cid, n) == []
  {
    if n > 0 {
      HistoryBelowEmpty(orders, cid, n - 1);
    }
  }

  /** The empty database satisfies the invariant. */
  lemma EmptyValid()
    ensures Valid(Empty)
  {
  }
}

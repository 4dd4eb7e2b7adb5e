/**
 * Properties of the operations over reachable stores: which calls succeed,
 * the invariants every transition keeps (one active order per courier, the
 * active order is in progress, completion is terminal), and what completion
 * leaves in the courier's statistics.
 */
module Lifecycle {
  import opened Wrappers
  import opened Sequences
  import opened Models
  import opened Exceptions
  import opened Database
  import opened Statistics
  import opened Crud

  // ------------------------------------------------------- courier creation

  /** Adding one more entry adds one to the count of new districts exactly when it is new. */
  lemma CountFreshStep(refs: seq<District>, i: int)
    requires 0 <= i < |refs|
    ensures CountFresh(refs[..i + 1]) == CountFresh(refs[..i]) + (if refs[i].id.None? then 1 else 0)
  {
    assert refs[..i + 1][..i] == refs[..i];
  }

  /** The count of new districts grows along the list. */
  lemma {:induction false} CountFreshMonotone(refs: seq<District>, i: int, j: int)
    requires 0 <= i <= j <= |refs|
    ensures CountFresh(refs[..i]) <= CountFresh(refs[..j])
    decreases j - i
  {
    if i < j {
      CountFreshStep(refs, j - 1);
      CountFreshMonotone(refs, i, j - 1);
    }
  }

  /** A new district at position `i` gets an id below the advanced counter. */
  lemma CountFreshBelowTotal(refs: seq<District>, i: int)
    requires 0 <= i < |refs| && refs[i].id.None?
    ensures CountFresh(refs[..i]) < CountFresh(refs)
  {
    CountFreshStep(refs, i);
    CountFreshMonotone(refs, i + 1, |refs|);
    assert refs[..|refs|] == refs;
  }

  /** Two new districts at different positions get different ids. */
  lemma FreshRowsDiffer(s: Store, refs: seq<District>, i: int, j: int)
    requires 0 <= i < j < |refs| && refs[i].id.None? && refs[j].id.None?
    ensures RowIds(s, refs)[i] < RowIds(s, refs)[j]
  {
    CountFreshStep(refs, i);
    CountFreshMonotone(refs, i + 1, j);
  }

  /** Distinct names resolve to distinct district rows with no clash of district names. */
  lemma DistinctNamesCommit(s: Store, names: seq<string>)
    requires Valid(s)
    requires Distinct(names)
    ensures UniqueNames(s, GetOrCreateDistricts(s, names))
    ensures Distinct(RowIds(s, GetOrCreateDistricts(s, names)))
  {
    var refs := GetOrCreateDistricts(s, names);
    var rows := RowIds(s, refs);
    forall i, j | 0 <= i < j < |rows| ensures rows[i] != rows[j] {
      if refs[i].id.None? && refs[j].id.None? {
        FreshRowsDiffer(s, refs, i, j);
      } else if refs[i].id.Some? && refs[j].id.Some? {
        assert names[i] != names[j];
      }
    }
  }

  /** A repeated name either repeats a new district name or lists one district row twice. */
  lemma RepeatedNameClashes(s: Store, names: seq<string>)
    requires !Distinct(names)
    ensures !UniqueNames(s, GetOrCreateDistricts(s, names)) || !Distinct(RowIds(s, GetOrCreateDistricts(s, names)))
  {
    var refs := GetOrCreateDistricts(s, names);
    var rows := RowIds(s, refs);
    var i, j :| 0 <= i < j < |names| && names[i] == names[j];
    if names[i] in s.districts {
      assert rows[i] == rows[j];
    } else {
      assert refs[i].name == refs[j].name;
    }
  }

  /**
   * On a valid store, creating a courier succeeds exactly when no district name
   * is repeated: a repeated unknown name breaks the unique district name, and a
   * repeated known name lists the same district row twice.
   */
  lemma CreateCourierSucceedsIff(s: Store, name: string, names: seq<string>)
    requires Valid(s)
    ensures CreateCourier(s, name, names).Ok? <==> Distinct(names)
  {
    var refs := GetOrCreateDistricts(s, names);
    assert CreateCourier(s, name, names) == CommitCourier(s, name, refs);
    if Distinct(names) {
      DistinctNamesCommit(s, names);
    } else {
      RepeatedNameClashes(s, names);
    }
  }

  /** A successful creation gives the new courier one distinct district per name. */
  lemma CreateCourierServesEachName(s: Store, name: string, names: seq<string>)
    requires CreateCourier(s, name, names).Ok?
    ensures |CreateCourier(s, name, names).value.couriers[s.nextCourierId].districts| == |names|
  {
    var refs := GetOrCreateDistricts(s, names);
    var rows := RowIds(s, refs);
    assert Distinct(rows);
    DistinctCardinality(rows);
  }

  /** The new district rows take ids from the counter upwards, below its advanced value. */
  lemma NewDistrictIdsFresh(s: Store, refs: seq<District>, n: string)
    requires UniqueNames(s, refs)
    requires n in NewDistricts(s, refs)
    ensures s.nextDistrictId <= NewDistricts(s, refs)[n] < s.nextDistrictId + CountFresh(refs)
  {
    var i := NewDistrictSource(s, refs, n);
    NewDistrictAt(s, refs, i);
    CountFreshBelowTotal(refs, i);
  }

  /** Distinct new district names get distinct ids when the row ids are distinct. */
  lemma NewDistrictIdsDistinct(s: Store, refs: seq<District>, n: string, m: string)
    requires UniqueNames(s, refs) && Distinct(RowIds(s, refs))
    requires n in NewDistricts(s, refs) && m in NewDistricts(s, refs) && n != m
    ensures NewDistricts(s, refs)[n] != NewDistricts(s, refs)[m]
  {
    var i := NewDistrictSource(s, refs, n);
    var j := NewDistrictSource(s, refs, m);
    NewDistrictAt(s, refs, i);
    NewDistrictAt(s, refs, j);
    assert RowIds(s, refs)[i] != RowIds(s, refs)[j];
  }

  /** The district table after a successful creation keeps fresh, distinct ids. */
  lemma CommittedDistrictsValid(s: Store, names: seq<string>, refs: seq<District>)
    requires Valid(s)
    requires refs == GetOrCreateDistricts(s, names)
    requires UniqueNames(s, refs) && Distinct(RowIds(s, refs))
    ensures var all := s.districts + NewDistricts(s, refs);
      && (forall n :: n in all ==> 1 <= all[n] < s.nextDistrictId + CountFresh(refs))
      && (forall n, m :: n in all && m in all && n != m ==> all[n] != all[m])
      && s.districts.Values <= all.Values
      && Elements(RowIds(s, refs)) <= all.Values
  {
    var added := NewDistricts(s, refs);
    var all := s.districts + added;
    CommittedDistricts(s, names, refs);
    forall n | n in added ensures s.nextDistrictId <= added[n] < s.nextDistrictId + CountFresh(refs) {
      NewDistrictIdsFresh(s, refs, n);
    }
    forall n, m | n in all && m in all && n != m ensures all[n] != all[m] {
      if n in added && m in added {
        NewDistrictIdsDistinct(s, refs, n, m);
      }
    }
    forall x | x in s.districts.Values ensures x in all.Values {
      var n :| n in s.districts && s.districts[n] == x;
      assert all[n] == x;
    }
    forall x | x in Elements(RowIds(s, refs)) ensures x in all.Values {
      var i :| 0 <= i < |RowIds(s, refs)| && RowIds(s, refs)[i] == x;
      CommittedLookup(s, names, refs, i);
    }
  }

  /**
   * Inserting an idle courier, together with districts that keep names and ids
   * unique and do not move the stored ones, keeps the store valid.
   */
  lemma InsertCourierValid(s: Store, all: map<string, DistrictId>, nextDistrict: DistrictId, c: Courier)
    requires Valid(s)
    requires s.nextDistrictId <= nextDistrict
    requires forall n :: n in all ==> 1 <= all[n] < nextDistrict
    requires forall n, m :: n in all && m in all && n != m ==> all[n] != all[m]
    requires s.districts.Values <= all.Values
    requires c.districts <= all.Values && c.activeOrder == None
    ensures Valid(s.(districts := all, couriers := s.couriers[s.nextCourierId := c],
                     nextDistrictId := nextDistrict, nextCourierId := s.nextCourierId + 1))
  {
    var t := s.(districts := all, couriers := s.couriers[s.nextCourierId := c],
                nextDistrictId := nextDistrict, nextCourierId := s.nextCourierId + 1);
    assert s.nextCourierId !in s.couriers;
    assert FreshCounters(t);
    assert ForeignKeys(t);
    assert ActiveOrdersInProgress(t);
    assert InProgressClaimed(t);
  }

  /** Creating a courier keeps the store valid. */
  lemma CreateCourierPreservesValid(s: Store, name: string, names: seq<string>)
    requires Valid(s)
    requires CreateCourier(s, name, names).Ok?
    ensures Valid(CreateCourier(s, name, names).value)
  {
    var refs := GetOrCreateDistricts(s, names);
    var rows := RowIds(s, refs);
    assert CreateCourier(s, name, names) == CommitCourier(s, name, refs);
    assert UniqueNames(s, refs) && Distinct(rows);
    CommittedDistrictsValid(s, names, refs);
    InsertCourierValid(s, s.districts + NewDistricts(s, refs), s.nextDistrictId + CountFresh(refs),
      NewCourier(name, Elements(rows)));
  }

  // ---------------------------------------------------------------- dispatch

  /** On a valid store, a courier is free exactly when it serves the district and has no active order. */
  lemma FreeMeansNoActiveOrder(s: Store, cid: CourierId, district: string)
    requires Valid(s)
    ensures IsFree(s, cid, district) <==>
      && cid in s.couriers
      && district in s.districts
      && s.districts[district] in s.couriers[cid].districts
      && s.couriers[cid].activeOrder == None
  {
  }

  /** Dispatching to a free courier keeps the store valid. */
  lemma DispatchPreservesValid(s: Store, cid: CourierId, district: string, name: string, now: Timestamp)
    requires Valid(s)
    requires IsFree(s, cid, district)
    ensures Valid(Dispatch(s, cid, s.districts[district], name, now).0)
  {
    var (t, oid) := Dispatch(s, cid, s.districts[district], name, now);
    assert oid !in s.orders;
    assert ActiveOrdersInProgress(t);
    forall o | o in t.orders && t.orders[o].status == InProgress
      ensures t.orders[o].courier in t.couriers && t.couriers[t.orders[o].courier].activeOrder == Some(o)
    {
      if o != oid {
        assert s.couriers[s.orders[o].courier].activeOrder == Some(o);
        assert s.orders[o].courier != cid;
      }
    }
  }

  /**
   * Dispatch takes exactly the chosen courier out of every district's free set:
   * a second order in a district whose only free courier was just dispatched
   * finds no free courier, and the courier stays busy until it is released.
   */
  lemma DispatchClaimsCourier(s: Store, cid: CourierId, district: string, name: string, now: Timestamp, n: string)
    requires Valid(s)
    requires IsFree(s, cid, district)
    ensures FreeCouriers(Dispatch(s, cid, s.districts[district], name, now).0, n) == FreeCouriers(s, n) - {cid}
  {
    var (t, oid) := Dispatch(s, cid, s.districts[district], name, now);
    forall c | c in t.couriers && c != cid ensures IsFree(t, c, n) <==> IsFree(s, c, n) {
      assert t.couriers[c] == s.couriers[c];
      if s.couriers[c].activeOrder.Some? {
        assert s.couriers[c].activeOrder.value in s.orders;
      }
    }
    assert !IsFree(t, cid, n);
  }

  // -------------------------------------------------------------- completion

  /**
   * Right after the first commit of a completion every order of the courier is
   * completed and carries a completion time: the courier held no other
   * in-progress order. So the `.day` access of the statistics never meets a
   * missing time.
   */
  lemma HistoryCompletedAfterClose(s: Store, id: OrderId, now: Timestamp)
    requires Valid(s)
    requires id in s.orders && s.orders[id].status == InProgress
    ensures s.orders[id].courier in s.couriers
    ensures var h := History(Close(s, id, now), s.orders[id].courier);
      forall i :: 0 <= i < |h| ==> h[i].status == Completed && h[i].completedAt.Some?
  {
    var cid := s.orders[id].courier;
    var s1 := Close(s, id, now);
    var h := History(s1, cid);
    HistoryBelowSound(s1.orders, cid, s1.nextOrderId);
    assert h == HistoryBelow(s1.orders, cid, s1.nextOrderId);
    forall i | 0 <= i < |h| ensures h[i].status == Completed && h[i].completedAt.Some? {
      var o := HistoryBelowSource(s1.orders, cid, s1.nextOrderId, i);
      if o != id {
        assert s1.orders[o] == s.orders[o];
        if s.orders[o].status == InProgress {
          AtMostOneInProgress(s, o, id);
        }
      }
    }
  }

  /**
   * A completion on a valid store unfolded: the history after the first commit,
   * the courier after each statistics step, and the resulting store.
   */
  lemma CompletionSteps(s: Store, id: OrderId, now: Timestamp) returns (h: seq<Order>, c2: Courier, c3: Courier)
    requires Valid(s)
    requires id in s.orders && s.orders[id].status == InProgress
    ensures s.orders[id].courier in s.couriers
    ensures h == History(Close(s, id, now), s.orders[id].courier)
    ensures forall i :: 0 <= i < |h| ==> h[i].status == Completed && h[i].completedAt.Some?
    ensures UpdatedAvgCompleteTime(Close(s, id, now).couriers[s.orders[id].courier], h) == Ok(c2)
    ensures UpdatedAvgDayOrders(c2, h) == Ok(c3)
    ensures var s1 := Close(s, id, now);
      CompleteOrder(s, id, now) == Ok(s1.(couriers := s1.couriers[s.orders[id].courier := c3]))
  {
    var cid := s.orders[id].courier;
    HistoryCompletedAfterClose(s, id, now);
    var s1 := Close(s, id, now);
    h := History(s1, cid);
    AllCompletedStatistics(s1.couriers[cid], h);
    c2 := UpdatedAvgCompleteTime(s1.couriers[cid], h).value;
    var s2 := s1.(couriers := s1.couriers[cid := c2]);
    assert History(s2, cid) == h;
    AllCompletedStatistics(c2, h);
    c3 := UpdatedAvgDayOrders(c2, h).value;
    assert UpdatedAvgDayOrders(c2, History(s2, cid)) == Ok(c3);
    assert s2.couriers[cid := c3] == s1.couriers[cid := c3];
  }

  /**
   * On a valid store, completing an order succeeds exactly when the order exists
   * and is in progress; the failure paths of the statistics are never taken.
   */
  lemma CompleteOrderSucceedsIff(s: Store, id: OrderId, now: Timestamp)
    requires Valid(s)
    ensures CompleteOrder(s, id, now).Ok? <==> id in s.orders && s.orders[id].status == InProgress
  {
    if id in s.orders && s.orders[id].status == InProgress {
      var h, c2, c3 := CompletionSteps(s, id, now);
    }
  }

  /**
   * Completing order `id`, releasing its courier and touching nothing else of
   * the other couriers and orders keeps a valid store valid.
   */
  lemma ReleaseValid(s: Store, id: OrderId, now: Timestamp, t: Store)
    requires Valid(s)
    requires id in s.orders && s.orders[id].status == InProgress
    requires t.orders == s.orders[id := s.orders[id].(status := Completed, completedAt := Some(now))]
    requires t.couriers.Keys == s.couriers.Keys
    requires t.couriers[s.orders[id].courier].activeOrder == None
    requires t.couriers[s.orders[id].courier].districts == s.couriers[s.orders[id].courier].districts
    requires forall c :: c in s.couriers && c != s.orders[id].courier ==> t.couriers[c] == s.couriers[c]
    requires t.districts == s.districts
    requires t.nextDistrictId == s.nextDistrictId && t.nextCourierId == s.nextCourierId
    requires t.nextOrderId == s.nextOrderId
    ensures Valid(t)
  {
    var cid := s.orders[id].courier;
    forall c | c in t.couriers && t.couriers[c].activeOrder.Some?
      ensures t.couriers[c].activeOrder.value in t.orders
      ensures t.orders[t.couriers[c].activeOrder.value].status == InProgress
      ensures t.orders[t.couriers[c].activeOrder.value].courier == c
    {
      assert c != cid;
      assert t.couriers[c] == s.couriers[c];
    }
    forall o | o in t.orders && t.orders[o].status == InProgress
      ensures t.orders[o].courier in t.couriers && t.couriers[t.orders[o].courier].activeOrder == Some(o)
    {
      assert o != id;
      if s.orders[o].courier == cid {
        AtMostOneInProgress(s, o, id);
      }
    }
  }

  /** Completing an order keeps the store valid. */
  lemma CompleteOrderPreservesValid(s: Store, id: OrderId, now: Timestamp)
    requires Valid(s)
    requires CompleteOrder(s, id, now).Ok?
    ensures Valid(CompleteOrder(s, id, now).value)
  {
    ReleaseValid(s, id, now, CompleteOrder(s, id, now).value);
  }

  /** Completion never changes an order that was already completed. */
  lemma CompletedIsTerminal(s: Store, id: OrderId, now: Timestamp, o: OrderId)
    requires o in s.orders && s.orders[o].status == Completed
    ensures CompleteOrder(s, id, now).Ok? ==> CompleteOrder(s, id, now).value.orders[o] == s.orders[o]
    ensures CompleteOrder(s, o, now) == Err(OrderIsAlreadyCompleted)
  {
  }

  /**
   * After a completion on a valid store the courier's average time is the
   * rounded mean duration of all its orders, and its orders per day is the
   * number of its orders over the number of distinct completion days of the
   * month, rounded down.
   */
  lemma CompleteOrderStatistics(s: Store, id: OrderId, now: Timestamp)
    requires Valid(s)
    requires CompleteOrder(s, id, now).Ok?
    ensures var t := CompleteOrder(s, id, now).value;
      var cid := s.orders[id].courier;
      cid in t.couriers && ReflectsHistory(t.couriers[cid], History(t, cid))
  {
    var cid := s.orders[id].courier;
    var h, c2, c3 := CompletionSteps(s, id, now);
    var s1 := Close(s, id, now);
    var t := s1.(couriers := s1.couriers[cid := c3]);
    assert CompleteOrder(s, id, now).value == t;
    assert t.orders == s1.orders && t.nextOrderId == s1.nextOrderId;
    assert History(t, cid) == h;
    HistoryBelowComplete(s1.orders, cid, s1.nextOrderId, id);
    assert |h| > 0;
    StatisticsOfCompletedHistory(s1.couriers[cid], c2, c3, h);
  }

  /** Both recomputations over a non-empty history of completed orders. */
  lemma StatisticsOfCompletedHistory(c1: Courier, c2: Courier, c3: Courier, h: seq<Order>)
    requires |h| > 0
    requires forall i :: 0 <= i < |h| ==> h[i].status == Completed && h[i].completedAt.Some?
    requires UpdatedAvgCompleteTime(c1, h) == Ok(c2)
    requires UpdatedAvgDayOrders(c2, h) == Ok(c3)
    ensures ReflectsHistory(c3, h)
  {
    AllClosedCount(h);
  }

  /** Statistics over a single completed order: its duration, on one day. */
  lemma SingleOrderStatistics(c: Courier, o: Order)
    requires o.status == Completed && o.completedAt.Some?
    ensures UpdatedAvgCompleteTime(c, [o]) == Ok(c.(avgOrderCompleteTime := Some(Duration(o))))
    ensures UpdatedAvgDayOrders(c, [o]) == Ok(c.(avgDayOrders := 1))
  {
    var h := [o];
    assert h[..0] == [];
    assert ClosedCount(h) == 1 && ClosedTotal(h) == Duration(o);
    ExactMean(Duration(o), 1);
    assert DaySet(h) == {o.completedAt.value.day} by {
      assert h[0] == o;
    }
  }

  /**
   * The first completion of a courier's first order: one order on one day, so
   * the average per day is 1 and the average time is that order's duration.
   */
  lemma FirstCompletion(s: Store, id: OrderId, now: Timestamp)
    requires Valid(s)
    requires id in s.orders && s.orders[id].status == InProgress
    requires forall o :: o in s.orders && o != id ==> s.orders[o].courier != s.orders[id].courier
    ensures CompleteOrder(s, id, now).Ok?
    ensures var c := CompleteOrder(s, id, now).value.couriers[s.orders[id].courier];
      && c.avgDayOrders == 1
      && c.avgOrderCompleteTime == Some(now.micros - s.orders[id].startedAt.micros)
  {
    var cid := s.orders[id].courier;
    var h, c2, c3 := CompletionSteps(s, id, now);
    var s1 := Close(s, id, now);
    var done := s1.orders[id];
    HistoryBelowSingle(s1.orders, cid, s1.nextOrderId, id);
    assert h == [done];
    SingleOrderStatistics(s1.couriers[cid], done);
    SingleOrderStatistics(c2, done);
    var t := CompleteOrder(s, id, now).value;
    assert t == s1.(couriers := s1.couriers[cid := c3]);
    assert t.couriers[cid] == c3;
    assert c3.avgDayOrders == 1;
    assert c3.avgOrderCompleteTime == c2.avgOrderCompleteTime == Some(Duration(done));
  }
}

/**
 * The service operations over the store: lookups, courier creation with
 * district resolution, dispatch of a new order to a free courier, and order
 * completion with the recomputation of the courier's statistics.
 *
 * A failing operation returns an error and no store: the transaction is rolled
 * back, so the caller's store stays as it was.
 */
module Crud {
  import opened Wrappers
  import opened Sequences
  import opened Models
  import opened Exceptions
  import opened Database
  import opened Statistics

  // ---------------------------------------------------------------- lookups

  /** The courier with id `id`. */
  function GetCourier(s: Store, id: CourierId): (r: Result<Courier, Error>)
    ensures r.Err? <==> id !in s.couriers
    ensures r.Err? ==> r.error == NoCourierInDB
    ensures r.Ok? ==> r.value == s.couriers[id]
  {
    if id in s.couriers then Ok(s.couriers[id]) else Err(NoCourierInDB)
  }

  /** The district named `name`. */
  function GetDistrict(s: Store, name: string): (r: Result<District, Error>)
    ensures r.Err? <==> name !in s.districts
    ensures r.Err? ==> r.error == NoDistrictInDB
    ensures r.Ok? ==> r.value == District(Some(s.districts[name]), name)
  {
    if name in s.districts then Ok(District(Some(s.districts[name]), name)) else Err(NoDistrictInDB)
  }

  /** The order with id `id`. */
  function GetOrder(s: Store, id: OrderId): (r: Result<Order, Error>)
    ensures r.Err? <==> id !in s.orders
    ensures r.Err? ==> r.error == NoOrderInDB
    ensures r.Ok? ==> r.value == s.orders[id]
  {
    if id in s.orders then Ok(s.orders[id]) else Err(NoOrderInDB)
  }

  /**
   * Every courier, each once, in the unspecified order the database returns
   * them; an empty table is reported as an error.
   */
  method GetCouriers(s: Store) returns (r: Result<seq<(CourierId, Courier)>, Error>)
    ensures r.Err? <==> |s.couriers| == 0
    ensures r.Err? ==> r.error == NoCouriersInDB
    ensures r.Ok? ==> Elements(r.value) == s.couriers.Items
    ensures r.Ok? ==> |r.value| == |s.couriers|
  {
    if |s.couriers| == 0 {
      return Err(NoCouriersInDB);
    }
    var rows: seq<(CourierId, Courier)> := [];
    var remaining := s.couriers.Keys;
    while remaining != {}
      invariant remaining <= s.couriers.Keys
      invariant forall k :: 0 <= k < |rows| ==> rows[k] in s.couriers.Items && rows[k].0 !in remaining
      invariant forall id :: id in s.couriers.Keys - remaining ==> (id, s.couriers[id]) in rows
      invariant Distinct(rows)
      decreases remaining
    {
      var id := Pick(remaining);
      rows := rows + [(id, s.couriers[id])];
      remaining := remaining - {id};
    }
    assert Elements(rows) == s.couriers.Items by {
      forall p | p in s.couriers.Items ensures p in Elements(rows) {
        var (id, c) := p;
        assert id in s.couriers.Keys - remaining && c == s.couriers[id];
      }
    }
    DistinctCardinality(rows);
    assert |s.couriers.Items| == |s.couriers| by {
      MapItemsCardinality(s.couriers);
    }
    return Ok(rows);
  }

  /** A map has as many items as keys. */
  lemma {:induction false} MapItemsCardinality<K, V>(m: map<K, V>)
    ensures |m.Items| == |m.Keys|
    decreases |m.Keys|
  {
    if m.Keys != {} {
      var k :| k in m.Keys;
      var m' := map j | j in m.Keys && j != k :: m[j];
      assert m'.Keys == m.Keys - {k};
      assert m'.Items == m.Items - {(k, m[k])} by {
        forall p | p in m.Items ensures p in m'.Items || p == (k, m[k]) {
          assert p.0 in m && p.1 == m[p.0];
        }
      }
      MapItemsCardinality(m');
    }
  }

  // -------------------------------------------------------------- districts

  /** A new district named `name`, not yet stored and so without an id. */
  function CreateDistrict(name: string): District {
    District(None, name)
  }

  /**
   * Resolves each name to the stored district of that name, or to a new, not
   * yet stored district of that name. Repeated unknown names yield repeated
   * new districts; nothing is collapsed.
   */
  function GetOrCreateDistricts(s: Store, names: seq<string>): (r: seq<District>)
    ensures |r| == |names|
    ensures forall i :: 0 <= i < |names| ==> r[i].name == names[i]
    ensures forall i :: 0 <= i < |names| ==> (r[i].id.Some? <==> names[i] in s.districts)
    ensures forall i :: 0 <= i < |names| && names[i] in s.districts ==> r[i].id == Some(s.districts[names[i]])
  {
    if names == [] then []
    else
      var name := names[|names| - 1];
      var resolved := match GetDistrict(s, name)
        case Ok(d) => d
        case Err(_) => CreateDistrict(name);
      GetOrCreateDistricts(s, names[..|names| - 1]) + [resolved]
  }

  /** The number of not yet stored districts in `refs`. */
  function CountFresh(refs: seq<District>): nat {
    if refs == [] then 0
    else CountFresh(refs[..|refs| - 1]) + (if refs[|refs| - 1].id.None? then 1 else 0)
  }

  /**
   * The district id each entry of `refs` has once flushed: stored districts
   * keep theirs, new ones take consecutive fresh ids in list order.
   */
  function RowIds(s: Store, refs: seq<District>): seq<DistrictId> {
    seq(|refs|, i requires 0 <= i < |refs| =>
      if refs[i].id.Some? then refs[i].id.value else s.nextDistrictId + CountFresh(refs[..i]))
  }

  /** The unique constraint on the district name holds after inserting the new districts of `refs`. */
  predicate UniqueNames(s: Store, refs: seq<District>) {
    && (forall i :: 0 <= i < |refs| && refs[i].id.None? ==> refs[i].name !in s.districts)
    && (forall i, j :: 0 <= i < j < |refs| && refs[i].id.None? && refs[j].id.None? ==> refs[i].name != refs[j].name)
  }

  /** The new district rows of `refs`, by name. */
  function NewDistricts(s: Store, refs: seq<District>): map<string, DistrictId>
    requires UniqueNames(s, refs)
  {
    var rows := RowIds(s, refs);
    map i | 0 <= i < |refs| && refs[i].id.None? :: refs[i].name := rows[i]
  }

  /**
   * Inserts a courier serving the districts `refs`, together with the new
   * districts among them and one association row per entry. Nothing is stored
   * when two new districts share a name (the name is unique) or when one
   * district is listed twice (the session refuses the second copy of its row).
   */
  function CommitCourier(s: Store, name: string, refs: seq<District>): (r: Result<Store, Error>)
    ensures r.Err? ==> r.error == RowsRejected
    ensures r.Ok? ==>
      && r.value.orders == s.orders
      && r.value.nextOrderId == s.nextOrderId
      && r.value.couriers.Keys == s.couriers.Keys + {s.nextCourierId}
      && (forall c :: c in s.couriers && c != s.nextCourierId ==> r.value.couriers[c] == s.couriers[c])
      && (forall n :: n in s.districts ==> n in r.value.districts && r.value.districts[n] == s.districts[n])
    ensures r.Ok? ==>
      var c := r.value.couriers[s.nextCourierId];
      && c.name == name
      && c.activeOrder == None
      && c.avgOrderCompleteTime == None
      && c.avgDayOrders == 0
      && |c.districts| == |refs|
  {
    var rows := RowIds(s, refs);
    if !UniqueNames(s, refs) || !Distinct(rows) then Err(RowsRejected)
    else
      DistinctCardinality(rows);
      Ok(s.(
        districts := s.districts + NewDistricts(s, refs),
        couriers := s.couriers[s.nextCourierId := NewCourier(name, Elements(rows))],
        nextDistrictId := s.nextDistrictId + CountFresh(refs),
        nextCourierId := s.nextCourierId + 1))
  }

  /** The ids of the districts in `m` that `names` name. */
  function Image(names: seq<string>, m: map<string, DistrictId>): set<DistrictId> {
    set n | n in names && n in m :: m[n]
  }

  /**
   * Creates a courier named `name` serving the districts named `names`, creating
   * the districts that do not exist yet. The new courier has the next id, no
   * active order, no average time and zero orders per day.
   */
  function CreateCourier(s: Store, name: string, names: seq<string>): (r: Result<Store, Error>)
    ensures r.Err? ==> r.error == RowsRejected
    ensures r.Ok? ==>
      && r.value.nextCourierId == s.nextCourierId + 1
      && r.value.couriers.Keys == s.couriers.Keys + {s.nextCourierId}
      && (forall c :: c in s.couriers && c != s.nextCourierId ==> r.value.couriers[c] == s.couriers[c])
      && r.value.orders == s.orders
      && r.value.nextOrderId == s.nextOrderId
    ensures r.Ok? ==>
      var c := r.value.couriers[s.nextCourierId];
      && c.name == name
      && c.activeOrder == None
      && c.avgOrderCompleteTime == None
      && c.avgDayOrders == 0
    ensures r.Ok? ==>
      && r.value.districts.Keys == s.districts.Keys + Elements(names)
      && (forall n :: n in s.districts ==> r.value.districts[n] == s.districts[n])
      && r.value.couriers[s.nextCourierId].districts
         == Image(names, r.value.districts)
  {
    var refs := GetOrCreateDistricts(s, names);
    var r := CommitCourier(s, name, refs);
    if r.Ok? then
      CommitCourierFacts(s, name, names, refs);
      r
    else r
  }

  /** A new district of `refs` is stored under its name with its row id. */
  lemma NewDistrictAt(s: Store, refs: seq<District>, i: int)
    requires UniqueNames(s, refs)
    requires 0 <= i < |refs| && refs[i].id.None?
    ensures refs[i].name in NewDistricts(s, refs)
    ensures NewDistricts(s, refs)[refs[i].name] == RowIds(s, refs)[i]
  {
  }

  /** Every new district of `refs` comes from one of its entries. */
  lemma NewDistrictSource(s: Store, refs: seq<District>, n: string) returns (i: int)
    requires UniqueNames(s, refs)
    requires n in NewDistricts(s, refs)
    ensures 0 <= i < |refs| && refs[i].id.None? && refs[i].name == n
  {
    i :| 0 <= i < |refs| && refs[i].id.None? && refs[i].name == n;
  }

  /** Each name resolves, in the committed store, to the row id its entry was given. */
  lemma CommittedLookup(s: Store, names: seq<string>, refs: seq<District>, i: int)
    requires refs == GetOrCreateDistricts(s, names)
    requires UniqueNames(s, refs)
    requires 0 <= i < |names|
    ensures names[i] in s.districts + NewDistricts(s, refs)
    ensures RowIds(s, refs)[i] == (s.districts + NewDistricts(s, refs))[names[i]]
  {
    var added := NewDistricts(s, refs);
    if names[i] in s.districts {
      if names[i] in added {
        var j := NewDistrictSource(s, refs, names[i]);
        assert false;
      }
    } else {
      NewDistrictAt(s, refs, i);
    }
  }

  /** Inserting the new districts of `refs` leaves the stored districts where they were. */
  lemma CommittedKeepsStored(s: Store, refs: seq<District>)
    requires UniqueNames(s, refs)
    ensures forall n :: n in s.districts ==> (s.districts + NewDistricts(s, refs))[n] == s.districts[n]
  {
    var added := NewDistricts(s, refs);
    forall n | n in s.districts ensures n !in added {
      if n in added {
        var j := NewDistrictSource(s, refs, n);
        assert false;
      }
    }
  }

  /** Only names of the list become new districts. */
  lemma AddedNamesListed(s: Store, names: seq<string>, refs: seq<District>)
    requires refs == GetOrCreateDistricts(s, names)
    requires UniqueNames(s, refs)
    ensures NewDistricts(s, refs).Keys <= Elements(names)
  {
    forall n | n in NewDistricts(s, refs) ensures n in Elements(names) {
      var j := NewDistrictSource(s, refs, n);
      assert names[j] == n;
    }
  }

  /** Every name of the list is a district after the commit. */
  lemma ListedNamesStored(s: Store, names: seq<string>, refs: seq<District>)
    requires refs == GetOrCreateDistricts(s, names)
    requires UniqueNames(s, refs)
    ensures Elements(names) <= (s.districts + NewDistricts(s, refs)).Keys
  {
    forall n | n in Elements(names) ensures n in s.districts + NewDistricts(s, refs) {
      var j :| 0 <= j < |names| && names[j] == n;
      CommittedLookup(s, names, refs, j);
    }
  }

  /** The district table after the new districts of `names` are inserted. */
  lemma CommittedDistricts(s: Store, names: seq<string>, refs: seq<District>)
    requires refs == GetOrCreateDistricts(s, names)
    requires UniqueNames(s, refs)
    ensures var all := s.districts + NewDistricts(s, refs);
      && all.Keys == s.districts.Keys + Elements(names)
      && (forall n :: n in s.districts ==> all[n] == s.districts[n])
  {
    CommittedKeepsStored(s, refs);
    AddedNamesListed(s, names, refs);
    ListedNamesStored(s, names, refs);
    var added := NewDistricts(s, refs);
    assert (s.districts + added).Keys == s.districts.Keys + added.Keys;
  }

  /** The districts the new courier serves are those its names resolve to. */
  lemma CommittedServed(s: Store, names: seq<string>, refs: seq<District>)
    requires refs == GetOrCreateDistricts(s, names)
    requires UniqueNames(s, refs)
    ensures var all := s.districts + NewDistricts(s, refs);
      Elements(RowIds(s, refs)) == Image(names, all)
  {
    var rows := RowIds(s, refs);
    var all := s.districts + NewDistricts(s, refs);
    forall i | 0 <= i < |names| ensures names[i] in all && rows[i] == all[names[i]] {
      CommittedLookup(s, names, refs, i);
    }
    ImageOfNames(names, rows, all);
  }

  /** Positions that resolve pointwise through `all` give the image of the names under `all`. */
  lemma ImageOfNames(names: seq<string>, rows: seq<DistrictId>, all: map<string, DistrictId>)
    requires |rows| == |names|
    requires forall i :: 0 <= i < |names| ==> names[i] in all && rows[i] == all[names[i]]
    ensures Elements(rows) == Image(names, all)
  {
    var served := Image(names, all);
    forall x | x in Elements(rows) ensures x in served {
      var i :| 0 <= i < |rows| && rows[i] == x;
      assert names[i] in names;
    }
    forall x | x in served ensures x in Elements(rows) {
      var n :| n in names && n in all && all[n] == x;
      var i :| 0 <= i < |names| && names[i] == n;
      assert rows[i] == x;
    }
  }

  /** What a successful commit of the resolved districts of `names` stores. */
  lemma CommitCourierFacts(s: Store, name: string, names: seq<string>, refs: seq<District>)
    requires refs == GetOrCreateDistricts(s, names)
    requires CommitCourier(s, name, refs).Ok?
    ensures var t := CommitCourier(s, name, refs).value;
      && t.districts.Keys == s.districts.Keys + Elements(names)
      && (forall n :: n in s.districts ==> t.districts[n] == s.districts[n])
      && t.couriers[s.nextCourierId].districts == Image(names, t.districts)
  {
    assert UniqueNames(s, refs);
    var t := CommitCourier(s, name, refs).value;
    assert t.districts == s.districts + NewDistricts(s, refs);
    assert t.couriers[s.nextCourierId].districts == Elements(RowIds(s, refs));
    CommittedDistricts(s, names, refs);
    CommittedServed(s, names, refs);
  }

  // ---------------------------------------------------------------- dispatch

  /** The courier refers to an order that exists (`active_order.has()`). */
  predicate HasActiveOrder(s: Store, c: Courier) {
    c.activeOrder.Some? && c.activeOrder.value in s.orders
  }

  /** Courier `cid` serves the district named `name` and has no active order. */
  predicate IsFree(s: Store, cid: CourierId, name: string) {
    && cid in s.couriers
    && name in s.districts
    && s.districts[name] in s.couriers[cid].districts
    && !HasActiveOrder(s, s.couriers[cid])
  }

  /** The couriers that may take an order in the district named `name`. */
  function FreeCouriers(s: Store, name: string): set<CourierId> {
    set cid | cid in s.couriers && IsFree(s, cid, name)
  }

  /** Some courier free in the district named `name`, as the unordered query returns it first. */
  method GetFreeCourier(s: Store, name: string) returns (r: Result<CourierId, Error>)
    ensures r.Err? <==> FreeCouriers(s, name) == {}
    ensures r.Err? ==> r.error == NoFreeCouriers
    ensures r.Ok? ==> IsFree(s, r.value, name)
  {
    var free := FreeCouriers(s, name);
    if free == {} {
      return Err(NoFreeCouriers);
    }
    var cid :| cid in free;
    return Ok(cid);
  }

  /**
   * Inserts an in-progress order for courier `cid` in district `did` with the
   * next order id, and makes it the courier's active order.
   */
  function Dispatch(s: Store, cid: CourierId, did: DistrictId, name: string, now: Timestamp): (r: (Store, OrderId))
    requires cid in s.couriers
    ensures var (t, oid) := r;
      && oid == s.nextOrderId
      && t.nextOrderId == oid + 1
      && t.orders.Keys == s.orders.Keys + {oid}
      && (forall o :: o in s.orders && o != oid ==> t.orders[o] == s.orders[o])
    ensures var (t, oid) := r;
      && t.orders[oid].name == name
      && t.orders[oid].district == did
      && t.orders[oid].courier == cid
      && t.orders[oid].status == InProgress
      && t.orders[oid].startedAt == now
      && t.orders[oid].completedAt == None
    ensures var (t, oid) := r;
      && t.couriers.Keys == s.couriers.Keys
      && t.couriers[cid] == s.couriers[cid].(activeOrder := Some(oid))
      && (forall c :: c in s.couriers && c != cid ==> t.couriers[c] == s.couriers[c])
      && t.districts == s.districts
      && t.nextDistrictId == s.nextDistrictId
      && t.nextCourierId == s.nextCourierId
  {
    var oid := s.nextOrderId;
    (s.(orders := s.orders[oid := NewOrder(name, did, cid, now)],
        couriers := s.couriers[cid := s.couriers[cid].(activeOrder := Some(oid))],
        nextOrderId := oid + 1),
     oid)
  }

  /**
   * Creates an order named `name` in the district named `district`: an unknown
   * district is reported before a missing free courier. On success the result
   * holds the new store and the new order's id.
   */
  method CreateOrder(s: Store, name: string, district: string, now: Timestamp)
    returns (r: Result<(Store, OrderId), Error>)
    ensures district !in s.districts ==> r == Err(NoDistrictInDB)
    ensures district in s.districts && FreeCouriers(s, district) == {} ==> r == Err(NoFreeCouriers)
    ensures r.Ok? <==> district in s.districts && FreeCouriers(s, district) != {}
    ensures r.Ok? ==>
      var (t, oid) := r.value;
      && oid == s.nextOrderId
      && oid in t.orders
      && t.orders == s.orders[oid := t.orders[oid]]
      && t.orders[oid].name == name
      && t.orders[oid].district == s.districts[district]
      && t.orders[oid].status == InProgress
      && t.orders[oid].startedAt == now
      && t.orders[oid].completedAt == None
    ensures r.Ok? ==>
      var (t, oid) := r.value;
      var cid := t.orders[oid].courier;
      && IsFree(s, cid, district)
      && t.couriers.Keys == s.couriers.Keys
      && t.couriers[cid] == s.couriers[cid].(activeOrder := Some(oid))
      && (forall c :: c in s.couriers && c != cid ==> t.couriers[c] == s.couriers[c])
      && t.districts == s.districts
      && t == Dispatch(s, cid, s.districts[district], name, now).0
  {
    var d := GetDistrict(s, district);
    if d.Err? {
      return Err(d.error);
    }
    var c := GetFreeCourier(s, district);
    if c.Err? {
      return Err(c.error);
    }
    var did := s.districts[district];
    r := Ok(Dispatch(s, c.value, did, name, now));
  }

  // -------------------------------------------------------------- completion

  /** The first commit of a completion: the order is completed at `now` and its courier released. */
  function Close(s: Store, id: OrderId, now: Timestamp): (t: Store)
    requires id in s.orders && s.orders[id].courier in s.couriers
    ensures t.orders.Keys == s.orders.Keys
    ensures t.orders[id] == s.orders[id].(status := Completed, completedAt := Some(now))
    ensures forall o :: o in s.orders && o != id ==> t.orders[o] == s.orders[o]
    ensures var cid := s.orders[id].courier;
      && t.couriers.Keys == s.couriers.Keys
      && t.couriers[cid] == s.couriers[cid].(activeOrder := None)
      && (forall c :: c in s.couriers && c != cid ==> t.couriers[c] == s.couriers[c])
    ensures t.districts == s.districts
    ensures t.nextDistrictId == s.nextDistrictId && t.nextCourierId == s.nextCourierId
    ensures t.nextOrderId == s.nextOrderId
  {
    var o := s.orders[id];
    s.(orders := s.orders[id := o.(status := Completed, completedAt := Some(now))],
       couriers := s.couriers[o.courier := s.couriers[o.courier].(activeOrder := None)])
  }

  /**
   * Completes order `id` at `now`: an unknown order and an already completed one
   * are rejected; otherwise the order is completed, its courier released, and
   * the courier's two statistics recomputed from its whole order history.
   */
  function CompleteOrder(s: Store, id: OrderId, now: Timestamp): (r: Result<Store, Error>)
    ensures id !in s.orders ==> r == Err(NoOrderInDB)
    ensures id in s.orders && s.orders[id].status == Completed ==> r == Err(OrderIsAlreadyCompleted)
    ensures r.Ok? ==>
      && id in s.orders
      && s.orders[id].status == InProgress
      && r.value.orders == s.orders[id := s.orders[id].(status := Completed, completedAt := Some(now))]
    ensures r.Ok? ==>
      var cid := s.orders[id].courier;
      && cid in s.couriers
      && r.value.couriers.Keys == s.couriers.Keys
      && r.value.couriers[cid].activeOrder == None
      && r.value.couriers[cid].name == s.couriers[cid].name
      && r.value.couriers[cid].districts == s.couriers[cid].districts
      && (forall c :: c in s.couriers && c != cid ==> r.value.couriers[c] == s.couriers[c])
    ensures r.Ok? ==>
      && r.value.districts == s.districts
      && r.value.nextDistrictId == s.nextDistrictId
      && r.value.nextCourierId == s.nextCourierId
      && r.value.nextOrderId == s.nextOrderId
  {
    if id !in s.orders then Err(NoOrderInDB)
    else if s.orders[id].status == Completed then Err(OrderIsAlreadyCompleted)
    else if s.orders[id].courier !in s.couriers then Err(NoneAccess)
    else
      var cid := s.orders[id].courier;
      var s1 := Close(s, id, now);
      match UpdatedAvgCompleteTime(s1.couriers[cid], History(s1, cid))
      case Err(e) => Err(e)
      case Ok(c2) =>
        var s2 := s1.(couriers := s1.couriers[cid := c2]);
        match UpdatedAvgDayOrders(c2, History(s2, cid))
        case Err(e) => Err(e)
        case Ok(c3) => Ok(s2.(couriers := s2.couriers[cid := c3]))
  }
}

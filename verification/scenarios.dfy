/**
 * The service's end-to-end scenario on an empty database: one courier in one
 * district, one order dispatched to it, then completed twice.
 */
module Scenarios {
  import opened Wrappers
  import opened Sequences
  import opened Models
  import opened Exceptions
  import opened Database
  import opened Crud
  import opened Lifecycle

  /** The store after "test_courier" is created in "test_district" on the empty database. */
  function CourierCreated(): Store {
    match CreateCourier(Empty, "test_courier", ["test_district"])
    case Ok(t) => t
    case Err(_) => Empty
  }

  /** On the empty database an order for an unknown district and the courier listing both fail. */
  method FirstRequestsFail(now: Timestamp)
    returns (r1: Result<(Store, OrderId), Error>, r2: Result<seq<(CourierId, Courier)>, Error>)
    ensures r1 == Err(NoDistrictInDB)
    ensures r2 == Err(NoCouriersInDB)
  {
    r1 := CreateOrder(Empty, "test_order", "test_district", now);
    r2 := GetCouriers(Empty);
  }

  /**
   * On the empty database an order fails with an unknown district and the
   * courier listing is empty. Creating the courier succeeds, and the store
   * stays valid.
   */
  lemma CreateFirstCourier()
    ensures "test_district" !in Empty.districts && |Empty.couriers| == 0
    ensures CreateCourier(Empty, "test_courier", ["test_district"]) == Ok(CourierCreated())
    ensures Valid(CourierCreated())
  {
    EmptyValid();
    CreateCourierSucceedsIff(Empty, "test_courier", ["test_district"]);
    CreateCourierPreservesValid(Empty, "test_courier", ["test_district"]);
  }

  /**
   * The created courier has id 1, the default statistics and no order, serves
   * "test_district", and is the one free courier there.
   */
  lemma FirstCourierIsFree()
    ensures CourierCreated().districts == map["test_district" := 1]
    ensures GetCourier(CourierCreated(), 1) == Ok(Courier("test_courier", {1}, None, None, 0))
    ensures FreeCouriers(CourierCreated(), "test_district") == {1}
    ensures CourierCreated().orders == map[] && CourierCreated().nextOrderId == 1
  {
    CreateFirstCourier();
    var names := ["test_district"];
    var r := CreateCourier(Empty, "test_courier", names);
    var s1 := r.value;
    assert s1 == CourierCreated();
    FirstDistrictId();
    assert "test_district" in Elements(names);
    assert s1.couriers.Keys == {1};
    var c := s1.couriers[1];
    assert c.districts == Image(names, s1.districts);
    SingleNameImage("test_district", s1.districts);
    assert IsFree(s1, 1, "test_district");
    OnlyCourierFree(s1, "test_district");
  }

  /** The first district created on the empty database gets id 1. */
  lemma FirstDistrictId()
    ensures CourierCreated().districts == map["test_district" := 1]
  {
    CreateFirstCourier();
    var refs := GetOrCreateDistricts(Empty, ["test_district"]);
    FirstDistrictRow(refs);
    var t := CommitCourier(Empty, "test_courier", refs);
    assert CreateCourier(Empty, "test_courier", ["test_district"]) == t;
  }

  /** The one unknown name resolves to a new district that is flushed with id 1. */
  lemma FirstDistrictRow(refs: seq<District>)
    requires refs == GetOrCreateDistricts(Empty, ["test_district"])
    ensures UniqueNames(Empty, refs) && RowIds(Empty, refs) == [1]
    ensures NewDistricts(Empty, refs) == map["test_district" := 1]
    ensures CommitCourier(Empty, "test_courier", refs).Ok?
    ensures CommitCourier(Empty, "test_courier", refs).value.districts == map["test_district" := 1]
  {
    assert refs == [District(None, "test_district")];
    assert CountFresh(refs[..0]) == 0;
    assert RowIds(Empty, refs) == [1];
  }

  /** The districts one name resolves to. */
  lemma SingleNameImage(n: string, m: map<string, DistrictId>)
    requires n in m
    ensures Image([n], m) == {m[n]}
  {
  }

  /** A free courier that is the only courier is the whole free set. */
  lemma OnlyCourierFree(s: Store, district: string)
    requires s.couriers.Keys == {1} && IsFree(s, 1, district)
    ensures FreeCouriers(s, district) == {1}
  {
  }

  /**
   * From a valid store with no orders whose only free courier in `district` is
   * courier 1: dispatching makes order 1, in progress (status code 1), on
   * courier 1, after which no courier is free there. Completing it releases the
   * courier and sets both averages for its single order; completing it again is
   * rejected, and order 0 stays unknown.
   */
  lemma DispatchAndComplete(s1: Store, district: string, t0: Timestamp, t1: Timestamp)
    requires Valid(s1)
    requires s1.orders == map[] && s1.nextOrderId == 1
    requires FreeCouriers(s1, district) == {1}
    ensures var (s2, oid) := Dispatch(s1, 1, s1.districts[district], "test_order", t0);
      && oid == 1
      && GetOrder(s2, 1).Ok?
      && GetOrder(s2, 1).value.courier == 1
      && StatusCode(GetOrder(s2, 1).value.status) == 1
      && GetOrder(s2, 0) == Err(NoOrderInDB)
      && FreeCouriers(s2, district) == {}
      && CompleteOrder(s2, 0, t1) == Err(NoOrderInDB)
      && CompleteOrder(s2, 1, t1).Ok?
      && var s3 := CompleteOrder(s2, 1, t1).value;
      && s3.orders[1].status == Completed
      && s3.orders[1].completedAt == Some(t1)
      && s3.couriers[1].activeOrder == None
      && s3.couriers[1].avgDayOrders == 1
      && s3.couriers[1].avgOrderCompleteTime == Some(t1.micros - t0.micros)
      && CompleteOrder(s3, 1, t1) == Err(OrderIsAlreadyCompleted)
  {
    assert IsFree(s1, 1, district);
    var (s2, oid) := Dispatch(s1, 1, s1.districts[district], "test_order", t0);
    DispatchPreservesValid(s1, 1, district, "test_order", t0);
    DispatchClaimsCourier(s1, 1, district, "test_order", t0, district);
    assert s2.orders.Keys == {1};
    FirstCompletion(s2, 1, t1);
  }
}

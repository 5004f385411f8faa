/** Order history: the delivery clock that completes orders once their delivery time has
    passed, the status rewrite it uses, and the grouping of a user's finished orders. Works on
    the same order file as the order manager. */
module HistoryOrders {
  import opened Wrappers
  import opened FileErrors
  import opened FixedStrings
  import opened RecordFiles
  import opened TimeUtils
  import opened Products
  import opened Orders

  /** Days each delivery option takes (standard, fast, express). */
  const DELIVERY_DAYS: seq<int> := [5, 3, 1]

  /** A snapshot line of a past order: it keeps the product's name and price as they were. */
  datatype HistoryOrderItem = HistoryOrderItem(userId: int, productName: string, price: real, orderId: int,
                                               count: int, orderTime: int, deliverySelection: int,
                                               address: string, status: FullOrderStatus)

  /** The HistoryOrderItem constructor. */
  function NewHistoryOrderItem(userId: int, name: string, price: real, count: int, time: int, selection: int,
                               address: string, status: FullOrderStatus): HistoryOrderItem
  {
    HistoryOrderItem(userId, Fit(name, MAX_PRODUCT_NAME_SIZE), price, time + userId, count, time, selection,
                     Fit(address, MAX_ADDRESS_LENGTH), status)
  }

  /** A snapshot keeps the price it was given and (a prefix of) the product name, and its order
      id is derived like an order line's. */
  lemma HistoryItemSnapshot(userId: int, name: string, price: real, count: int, time: int, selection: int,
                            address: string, status: FullOrderStatus)
    ensures var h := NewHistoryOrderItem(userId, name, price, count, time, selection, address, status);
            && h.price == price && h.productName <= name
            && h.orderId == NewOrderItem(userId, 0, count, time, selection, address, status).orderId
            && |h.address| < MAX_ADDRESS_LENGTH
  {
    FitBounds(name, MAX_PRODUCT_NAME_SIZE);
    FitBounds(address, MAX_ADDRESS_LENGTH);
  }

  // ---------------------------------------------------------------------------
  // update_status_in_file on the line sequence

  /** Lines of this order whose status differs get the new status; nothing else changes. */
  function SetStatus(rs: seq<OrderItem>, orderId: int, s: FullOrderStatus): (r: seq<OrderItem>)
    ensures |r| == |rs|
  {
    seq(|rs|, i requires 0 <= i < |rs| =>
      if rs[i].orderId == orderId && rs[i].status != s then rs[i].(status := s) else rs[i])
  }

  /** Whether some line of the order has a different status, so a rewrite happens. */
  predicate Changes(rs: seq<OrderItem>, orderId: int, s: FullOrderStatus) {
    exists i | 0 <= i < |rs| :: rs[i].orderId == orderId && rs[i].status != s
  }

  /** update_status_in_file: OK when at least one line was rewritten, NotFound otherwise. */
  function UpdateStatusIn(rs: seq<OrderItem>, orderId: int, s: FullOrderStatus): Written<OrderItem> {
    Written(if Changes(rs, orderId, s) then OK else NotFound, SetStatus(rs, orderId, s))
  }

  /** Every line of the order ends with the new status, lines of other orders are untouched,
      and an immediate repeat reports NotFound and changes nothing. */
  lemma UpdateStatusSpec(rs: seq<OrderItem>, orderId: int, s: FullOrderStatus)
    ensures var w := UpdateStatusIn(rs, orderId, s);
            && (forall i | 0 <= i < |rs| && rs[i].orderId == orderId :: w.records[i] == rs[i].(status := s))
            && (forall i | 0 <= i < |rs| && rs[i].orderId != orderId :: w.records[i] == rs[i])
            && (w.code == OK <==> w.records != rs)
            && UpdateStatusIn(w.records, orderId, s) == Written(NotFound, w.records)
  {
    var w := UpdateStatusIn(rs, orderId, s);
    if Changes(rs, orderId, s) {
      var i :| 0 <= i < |rs| && rs[i].orderId == orderId && rs[i].status != s;
      assert w.records[i] != rs[i];
    }
  }

  // ---------------------------------------------------------------------------
  // The delivery clock

  /** DELIVERY_DAYS[selection], or 0 days for a selection outside it. */
  function DeliveryDays(selection: int): (d: int)
    ensures 0 <= d <= 5
  {
    if 0 <= selection < |DELIVERY_DAYS| then DELIVERY_DAYS[selection] else 0
  }

  /** When a line arrives: its order time plus its delivery days. */
  function Arrival(l: OrderItem): int {
    l.orderTime + DeliveryDays(l.deliverySelection) * 86400
  }

  /** Arrival is add_days_to_time applied to the order time. */
  lemma ArrivalIsAddDays(l: OrderItem)
    ensures Arrival(l) == AddDaysToTime(l.orderTime, DeliveryDays(l.deliverySelection))
    ensures l.orderTime <= Arrival(l) <= l.orderTime + 5 * SECONDS_PER_DAY
  {
  }

  /** A line of the user that is still under way and whose arrival time has been reached. */
  function Due(user: int, now: int): OrderItem -> bool {
    (l: OrderItem) => l.userId == user && l.status == NotCompleted && now >= Arrival(l)
  }

  /** The arrival rule: due exactly from the arrival second on, and not one second earlier. */
  lemma DueFromArrival(user: int, l: OrderItem)
    requires l.userId == user && l.status == NotCompleted
    ensures Due(user, Arrival(l))(l)
    ensures !Due(user, Arrival(l) - 1)(l)
    ensures forall now :: Due(user, now)(l) <==> now >= Arrival(l)
  {
  }

  /** The order ids the scan collects: each due line's id, once, in first-seen order. */
  function DueOrderIds(rs: seq<OrderItem>, user: int, now: int): seq<int> {
    if rs == [] then []
    else
      var ids := DueOrderIds(rs[..|rs| - 1], user, now);
      var l := rs[|rs| - 1];
      if Due(user, now)(l) && l.orderId !in ids then ids + [l.orderId] else ids
  }

  /** The collected ids are exactly the ids of due lines, without repetition. */
  lemma {:induction false} DueOrderIdsSpec(rs: seq<OrderItem>, user: int, now: int)
    ensures forall k :: k in DueOrderIds(rs, user, now) <==>
              exists i | 0 <= i < |rs| :: Due(user, now)(rs[i]) && rs[i].orderId == k
    ensures forall i, j | 0 <= i < j < |DueOrderIds(rs, user, now)| ::
              DueOrderIds(rs, user, now)[i] != DueOrderIds(rs, user, now)[j]
  {
    if rs != [] {
      var init := rs[..|rs| - 1];
      DueOrderIdsSpec(init, user, now);
      forall k
        ensures k in DueOrderIds(rs, user, now) <==>
                exists i | 0 <= i < |rs| :: Due(user, now)(rs[i]) && rs[i].orderId == k
      {
        if exists i | 0 <= i < |rs| :: Due(user, now)(rs[i]) && rs[i].orderId == k {
          var i :| 0 <= i < |rs| && Due(user, now)(rs[i]) && rs[i].orderId == k;
          if i < |init| {
            assert init[i] == rs[i];
          }
        }
        if k in DueOrderIds(init, user, now) {
          var i :| 0 <= i < |init| && Due(user, now)(init[i]) && init[i].orderId == k;
          assert rs[i] == init[i];
        }
      }
    }
  }

  /** The batch update: every collected order set to COMPLETED, one after the other. */
  function CompleteAll(rs: seq<OrderItem>, ids: seq<int>): (r: seq<OrderItem>)
    ensures |r| == |rs|
  {
    if ids == [] then rs
    else SetStatus(CompleteAll(rs, ids[..|ids| - 1]), ids[|ids| - 1], Completed)
  }

  /** The batch completes exactly the lines whose order id was collected. */
  lemma {:induction false} CompleteAllSpec(rs: seq<OrderItem>, ids: seq<int>)
    ensures forall i | 0 <= i < |rs| ::
              CompleteAll(rs, ids)[i] == if rs[i].orderId in ids then rs[i].(status := Completed) else rs[i]
  {
    if ids != [] {
      var init := ids[..|ids| - 1];
      CompleteAllSpec(rs, init);
      assert forall k :: k in ids <==> k in init || k == ids[|ids| - 1];
    }
  }

  /** check_and_update_arrived_orders on the lines. */
  function ArrivedUpdate(rs: seq<OrderItem>, user: int, now: int): seq<OrderItem> {
    CompleteAll(rs, DueOrderIds(rs, user, now))
  }

  /** A line becomes COMPLETED exactly when its order has a due line of the user; every other
      line, including the user's lines not yet arrived, is unchanged. Lines of the same order
      id that belong to another user are completed too. */
  lemma ArrivedUpdateSpec(rs: seq<OrderItem>, user: int, now: int)
    ensures forall i | 0 <= i < |rs| ::
              ArrivedUpdate(rs, user, now)[i] ==
                if exists j | 0 <= j < |rs| :: Due(user, now)(rs[j]) && rs[j].orderId == rs[i].orderId
                then rs[i].(status := Completed) else rs[i]
  {
    DueOrderIdsSpec(rs, user, now);
    CompleteAllSpec(rs, DueOrderIds(rs, user, now));
  }

  /** Running the arrival check twice at the same instant changes nothing the second time. */
  lemma ArrivedUpdateIdempotent(rs: seq<OrderItem>, user: int, now: int)
    ensures ArrivedUpdate(ArrivedUpdate(rs, user, now), user, now) == ArrivedUpdate(rs, user, now)
  {
    var once := ArrivedUpdate(rs, user, now);
    var twice := ArrivedUpdate(once, user, now);
    ArrivedUpdateSpec(rs, user, now);
    ArrivedUpdateSpec(once, user, now);
    forall j | 0 <= j < |once|
      ensures !Due(user, now)(once[j])
    {
    }
  }

  // ---------------------------------------------------------------------------
  // load_history_orders on values

  /** The lines that make up the user's history: COMPLETED or CANCEL. */
  function HistoryLine(user: int): OrderItem -> bool {
    (l: OrderItem) => l.userId == user && (l.status == Completed || l.status == Cancel)
  }

  function HistoryLineOf(user: int, orderId: int): OrderItem -> bool {
    (l: OrderItem) => HistoryLine(user)(l) && l.orderId == orderId
  }

  /** The header an order's first history line gives its entry: its id, time, address and
      status, and its delivery surcharge. */
  function Headed(o: FullOrder, l: OrderItem): (h: FullOrder)
    ensures h.totalPrice == o.totalPrice + Surcharge(l.deliverySelection) && h.items == o.items
  {
    var h := o.(orderId := l.orderId, orderTime := l.orderTime, address := l.address, status := l.status);
    if 0 <= l.deliverySelection < 3 then h.(totalPrice := h.totalPrice + DELIVERY_PRICES[l.deliverySelection]) else h
  }

  /** An order's entry after one more history line: add count * price, take the header from
      the order's first line, and append the line. */
  function Accounted(prev: FullOrder, l: OrderItem, unitPrice: real): FullOrder {
    var priced := prev.(totalPrice := prev.totalPrice + l.count as real * unitPrice);
    var headed := if priced.items == [] then Headed(priced, l) else priced;
    headed.(items := headed.items + [l])
  }

  /** Account for one history line in its order's entry, created on first use. */
  function AddHistoryLine(m: map<int, FullOrder>, l: OrderItem, unitPrice: real): map<int, FullOrder> {
    var prev := if l.orderId in m then m[l.orderId] else FreshFullOrder(l.orderId, l.orderTime);
    m[l.orderId := Accounted(prev, l, unitPrice)]
  }

  /** The history map after scanning `lines` in file order. */
  function GroupHistory(lines: seq<OrderItem>, user: int, price: int -> real): map<int, FullOrder> {
    if lines == [] then map[]
    else
      var m := GroupHistory(lines[..|lines| - 1], user, price);
      var l := lines[|lines| - 1];
      if HistoryLine(user)(l) then AddHistoryLine(m, l, price(l.productId)) else m
  }

  /** Σ count * price over some lines. */
  function GoodsSum(lines: seq<OrderItem>, price: int -> real): real {
    if lines == [] then 0.0
    else GoodsSum(lines[..|lines| - 1], price) + lines[|lines| - 1].count as real * price(lines[|lines| - 1].productId)
  }

  /** An entry built from `its`: those lines, the header of the first, and their goods plus
      the first line's surcharge. */
  ghost predicate EntryFits(e: FullOrder, its: seq<OrderItem>, price: int -> real, k: int) {
    && its != []
    && e.items == its
    && e.orderId == k
    && e.orderTime == its[0].orderTime && e.address == its[0].address && e.status == its[0].status
    && e.totalPrice == GoodsSum(its, price) + Surcharge(its[0].deliverySelection)
  }

  /** The entry for `k`, if any, is built from the order's history lines of the user. */
  ghost predicate HistoryEntryMatches(lines: seq<OrderItem>, user: int, price: int -> real, k: int) {
    k in GroupHistory(lines, user, price) ==>
      EntryFits(GroupHistory(lines, user, price)[k], Filter(lines, HistoryLineOf(user, k)), price, k)
  }

  /** The keys of the history map are exactly the ids of the user's finished lines. */
  lemma {:induction false} GroupHistoryKeys(lines: seq<OrderItem>, user: int, price: int -> real)
    ensures forall k :: k in GroupHistory(lines, user, price) <==>
              exists i | 0 <= i < |lines| :: HistoryLine(user)(lines[i]) && lines[i].orderId == k
  {
    if lines != [] {
      var init := lines[..|lines| - 1];
      GroupHistoryKeys(init, user, price);
      forall k
        ensures k in GroupHistory(lines, user, price) <==>
                exists i | 0 <= i < |lines| :: HistoryLine(user)(lines[i]) && lines[i].orderId == k
      {
        if exists i | 0 <= i < |lines| :: HistoryLine(user)(lines[i]) && lines[i].orderId == k {
          var i :| 0 <= i < |lines| && HistoryLine(user)(lines[i]) && lines[i].orderId == k;
          if i < |init| {
            assert init[i] == lines[i];
          }
        }
        if k in GroupHistory(init, user, price) {
          var i :| 0 <= i < |init| && HistoryLine(user)(init[i]) && init[i].orderId == k;
          assert lines[i] == init[i];
        }
      }
    }
  }

  /** One step of the scan. */
  lemma GroupHistoryUnfold(init: seq<OrderItem>, l: OrderItem, user: int, price: int -> real)
    ensures GroupHistory(init + [l], user, price) ==
              if HistoryLine(user)(l) then AddHistoryLine(GroupHistory(init, user, price), l, price(l.productId))
              else GroupHistory(init, user, price)
  {
    assert (init + [l])[..|init|] == init;
  }

  /** Accounting for a line of order `k` extends an entry built from `its` to one built from
      `its + [l]`, creating it when `its` is empty. */
  lemma FitsAfterAdd(m: map<int, FullOrder>, l: OrderItem, its: seq<OrderItem>, price: int -> real, k: int)
    requires l.orderId == k
    requires k in m ==> EntryFits(m[k], its, price, k)
    requires k !in m ==> its == []
    ensures EntryFits(AddHistoryLine(m, l, price(l.productId))[k], its + [l], price, k)
  {
    assert (its + [l])[..|its|] == its;
    if its == [] {
      assert GoodsSum([l], price) == l.count as real * price(l.productId) by {
        assert [l][..0] == [];
      }
    } else {
      assert (its + [l])[0] == its[0];
    }
  }

  /** One more line keeps every entry matching its lines. */
  lemma HistoryEntryStep(init: seq<OrderItem>, l: OrderItem, user: int, price: int -> real, k: int)
    requires HistoryEntryMatches(init, user, price, k)
    requires k !in GroupHistory(init, user, price) ==> Filter(init, HistoryLineOf(user, k)) == []
    ensures HistoryEntryMatches(init + [l], user, price, k)
  {
    var m := GroupHistory(init, user, price);
    GroupHistoryUnfold(init, l, user, price);
    FilterAppend(init, l, HistoryLineOf(user, k));
    if HistoryLineOf(user, k)(l) {
      FitsAfterAdd(m, l, Filter(init, HistoryLineOf(user, k)), price, k);
    }
  }

  /** The history grouping: each entry holds its order's COMPLETED and CANCEL lines of the
      user in file order, takes its time, address and status from the first of them, and
      totals Σ count * price plus that first line's surcharge, counted once. */
  lemma {:induction false} GroupHistorySpec(lines: seq<OrderItem>, user: int, price: int -> real)
    ensures forall k :: HistoryEntryMatches(lines, user, price, k)
  {
    if lines != [] {
      var init := lines[..|lines| - 1];
      var l := lines[|lines| - 1];
      assert lines == init + [l];
      GroupHistorySpec(init, user, price);
      GroupHistoryKeys(init, user, price);
      forall k
        ensures HistoryEntryMatches(lines, user, price, k)
      {
        if k !in GroupHistory(init, user, price) {
          forall x | x in init
            ensures !HistoryLineOf(user, k)(x)
          {
            var i :| 0 <= i < |init| && init[i] == x;
          }
          FilterNone(init, HistoryLineOf(user, k));
        }
        HistoryEntryStep(init, l, user, price, k);
      }
    }
  }

  // ---------------------------------------------------------------------------
  // The manager

  /** The first pass of check_and_update_arrived_orders over the file's lines: for each due
      line, its order id unless an earlier line already gave it. */
  method CollectDueOrderIds(rs: seq<OrderItem>, user: int, now: int) returns (ordersToComplete: seq<int>)
    ensures ordersToComplete == DueOrderIds(rs, user, now)
  {
    ordersToComplete := [];
    var i := 0;
    while i < |rs|
      invariant 0 <= i <= |rs|
      invariant ordersToComplete == DueOrderIds(rs[..i], user, now)
    {
      var temp := rs[i];
      assert rs[..i + 1][..i] == rs[..i];
      if temp.userId == user && temp.status == NotCompleted {
        var daysNeeded := 0;
        if 0 <= temp.deliverySelection < |DELIVERY_DAYS| {
          daysNeeded := DELIVERY_DAYS[temp.deliverySelection];
        }
        var arrivalTime := temp.orderTime + daysNeeded * 86400;
        if now >= arrivalTime {
          var alreadyAdded := false;
          var k := 0;
          while k < |ordersToComplete|
            invariant 0 <= k <= |ordersToComplete|
            invariant !alreadyAdded ==> temp.orderId !in ordersToComplete[..k]
            invariant alreadyAdded ==> temp.orderId in ordersToComplete
          {
            if ordersToComplete[k] == temp.orderId {
              alreadyAdded := true;
              break;
            }
            assert ordersToComplete[..k + 1] == ordersToComplete[..k] + [ordersToComplete[k]];
            k := k + 1;
          }
          if !alreadyAdded {
            assert ordersToComplete[..k] == ordersToComplete;
            ordersToComplete := ordersToComplete + [temp.orderId];
          }
        }
      }
      i := i + 1;
    }
    assert rs[..i] == rs;
  }

  class HistoryOrderManager {
    const file: RecordFile<OrderItem>
    var historyOrdersMap: map<int, FullOrder>
    var isLoaded: bool

    constructor (file: RecordFile<OrderItem>)
      ensures this.file == file && historyOrdersMap == map[] && !isLoaded
    {
      this.file := file;
      historyOrdersMap := map[];
      isLoaded := false;
    }

    /** get_history_map_ptr: the map, only once a load has completed. */
    function HistoryMapPtr(): (r: Option<map<int, FullOrder>>)
      reads this
      ensures r.Some? <==> isLoaded
      ensures r.Some? ==> r.value == historyOrdersMap
    {
      if isLoaded then Some(historyOrdersMap) else None
    }

    /** update_status_in_file: one pass rewriting every line of the order whose status
        differs, remembering whether any was rewritten. */
    method UpdateStatusInFile(orderId: int, newStatus: FullOrderStatus, opens: bool) returns (e: FileErrorCode)
      modifies file`records
      ensures opens ==> Written(e, file.records) == UpdateStatusIn(old(file.records), orderId, newStatus)
      ensures !opens ==> e == OpenFailure && file.records == old(file.records)
    {
      if !opens {
        return OpenFailure;
      }
      ghost var rs := file.records;
      var found := false;
      var i := 0;
      while i < |file.records|
        invariant |file.records| == |rs|
        invariant 0 <= i <= |rs|
        invariant forall j | 0 <= j < i :: file.records[j] == SetStatus(rs, orderId, newStatus)[j]
        invariant forall j | i <= j < |rs| :: file.records[j] == rs[j]
        invariant found <==> exists j | 0 <= j < i :: rs[j].orderId == orderId && rs[j].status != newStatus
      {
        var temp := file.records[i];
        if temp.orderId == orderId && temp.status != newStatus {
          temp := temp.(status := newStatus);
          file.RewriteAt(i, temp);
          found := true;
        }
        i := i + 1;
      }
      e := if found then OK else NotFound;
    }

    /** check_and_update_arrived_orders: collect the due order ids of the user (skipping ids
        already collected), then set each of those orders to COMPLETED. */
    method CheckAndUpdateArrivedOrders(user: int, now: int, opens: bool)
      modifies file`records
      ensures opens ==> file.records == ArrivedUpdate(old(file.records), user, now)
      ensures !opens ==> file.records == old(file.records)
    {
      if !opens {
        return;
      }
      var rs := file.records;
      var ordersToComplete := CollectDueOrderIds(rs, user, now);
      var j := 0;
      while j < |ordersToComplete|
        invariant 0 <= j <= |ordersToComplete|
        invariant file.records == CompleteAll(rs, ordersToComplete[..j])
      {
        assert ordersToComplete[..j + 1][..j] == ordersToComplete[..j];
        var _ := UpdateStatusInFile(ordersToComplete[j], Completed, opens);
        j := j + 1;
      }
      assert ordersToComplete[..j] == ordersToComplete;
    }

    /** load_history_orders: run the arrival check, clear the map, then account for the
        user's COMPLETED and CANCEL lines. */
    method LoadHistoryOrders(user: int, products: ProductManager, now: int, opens: bool, productOpens: bool)
      returns (e: FileErrorCode)
      modifies this, file`records
      ensures opens ==> && e == OK && isLoaded
                        && file.records == ArrivedUpdate(old(file.records), user, now)
                        && historyOrdersMap == GroupHistory(file.records, user, PriceTable(products.file.records, productOpens))
      ensures !opens ==> && e == OpenFailure && !isLoaded && historyOrdersMap == map[]
                         && file.records == old(file.records)
    {
      CheckAndUpdateArrivedOrders(user, now, opens);
      ghost var rs := file.records;
      historyOrdersMap := map[];
      isLoaded := false;
      if !opens {
        return OpenFailure;
      }
      ghost var price := PriceTable(products.file.records, productOpens);
      var i := 0;
      while i < |file.records|
        invariant file.records == rs
        invariant 0 <= i <= |rs|
        invariant historyOrdersMap == GroupHistory(rs[..i], user, price)
      {
        var temp := file.records[i];
        assert rs[..i + 1] == rs[..i] + [temp];
        GroupHistoryUnfold(rs[..i], temp, user, price);
        if temp.userId == user {
          if temp.status == Completed || temp.status == Cancel {
            var itemPrice := products.GetPriceById(temp.productId, productOpens);
            historyOrdersMap := AddHistoryLine(historyOrdersMap, temp, itemPrice);
          }
        }
        i := i + 1;
      }
      assert rs[..i] == rs;
      isLoaded := true;
      return OK;
    }
  }
}

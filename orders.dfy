/** Orders: a header-less record file of order lines, written by add_order from checked-out
    cart rows and grouped by order id into full orders with their totals. */
module Orders {
  import opened Wrappers
  import opened FileErrors
  import opened FixedStrings
  import opened RecordFiles
  import opened Carts
  import opened Products

  datatype FullOrderStatus = NotCompleted | Completed | Cancel

  const MAX_ADDRESS_LENGTH: nat := 50

  /** One line of an order, as stored in the order file; `orderId` is order time plus user id. */
  datatype OrderItem = OrderItem(userId: int, productId: int, orderId: int, count: int, orderTime: int,
                                 deliverySelection: int, address: string, status: FullOrderStatus)

  /** An order as shown to its user: its lines and their total. */
  datatype FullOrder = FullOrder(orderId: int, totalPrice: real, orderTime: int, items: seq<OrderItem>,
                                 address: string, status: FullOrderStatus)

  /** Surcharges for the three delivery options (standard, fast, express). */
  const DELIVERY_PRICES: seq<real> := [0.0, 3.0, 6.0]

  /** The surcharge of a delivery option, and none for a selection outside the three. */
  function Surcharge(selection: int): real {
    if 0 <= selection < |DELIVERY_PRICES| then DELIVERY_PRICES[selection] else 0.0
  }

  /** The seven-argument OrderItem constructor: the order id is derived from the time. */
  function NewOrderItem(userId: int, productId: int, count: int, time: int, selection: int,
                        address: string, status: FullOrderStatus): OrderItem
  {
    OrderItem(userId, productId, time + userId, count, time, selection, Fit(address, MAX_ADDRESS_LENGTH), status)
  }

  /** The entry orders_map[k] creates on first use (its id and time are then overwritten). */
  function FreshFullOrder(orderId: int, orderTime: int): (f: FullOrder)
    ensures f.totalPrice == 0.0 && f.status == NotCompleted && f.items == []
  {
    FullOrder(orderId, 0.0, orderTime, [], "", NotCompleted)
  }

  /** The valid delivery selections are exactly the indexes of DELIVERY_PRICES, and the three
      statuses are distinct. */
  lemma DeliveryChoices()
    ensures |DELIVERY_PRICES| == 3
    ensures DELIVERY_PRICES[0] < DELIVERY_PRICES[1] < DELIVERY_PRICES[2]
    ensures NotCompleted != Completed && Completed != Cancel && Cancel != NotCompleted
  {
  }

  // ---------------------------------------------------------------------------
  // add_order on values

  /** The lines add_order builds from cart rows: one per row, in order, all stamped with the
      same time. Each line takes its user from the cart row. */
  function OrderLines(cart: seq<CartItem>, address: string, now: int): (r: seq<OrderItem>)
    ensures |r| == |cart|
  {
    seq(|cart|, i requires 0 <= i < |cart| =>
      NewOrderItem(cart[i].userId, cart[i].productId, cart[i].count, now, cart[i].deliverySelection,
                   address, NotCompleted))
  }

  /** Every line of one add_order shares the order time, so lines of the same user share one
      order id; each copies its cart row's user, product, count and selection and starts
      NOT_COMPLETED. */
  lemma OrderLinesSpec(cart: seq<CartItem>, address: string, now: int)
    ensures forall i | 0 <= i < |cart| ::
              var l := OrderLines(cart, address, now)[i];
              && l.orderTime == now && l.orderId == now + cart[i].userId
              && l.userId == cart[i].userId && l.productId == cart[i].productId
              && l.count == cart[i].count && l.deliverySelection == cart[i].deliverySelection
              && l.status == NotCompleted
    ensures forall i, j | 0 <= i < j < |cart| && cart[i].userId == cart[j].userId ::
              OrderLines(cart, address, now)[i].orderId == OrderLines(cart, address, now)[j].orderId
  {
  }

  /** Checking out a cart and ordering what it hands over gives lines of that user only, all
      under the single order id now + user, each with a ticked delivery selection. */
  lemma {:induction false} CheckoutThenOrder(rs: seq<CartItem>, user: int, address: string, now: int)
    ensures forall l | l in OrderLines(CheckedOutItems(rs, user), address, now) ::
              l.userId == user && l.orderId == now + user && l.status == NotCompleted &&
              l.deliverySelection != UNSELECTED
  {
    var items := CheckedOutItems(rs, user);
    CheckoutSpec(rs, user);
    forall l | l in OrderLines(items, address, now)
      ensures l.userId == user && l.orderId == now + user && l.status == NotCompleted
      ensures l.deliverySelection != UNSELECTED
    {
      var k :| 0 <= k < |items| && OrderLines(items, address, now)[k] == l;
      assert items[k] in items;
    }
  }

  // ---------------------------------------------------------------------------
  // load_full_orders on values

  /** A selection DELIVERY_PRICES can be indexed with. */
  predicate ValidSelection(l: OrderItem) {
    0 <= l.deliverySelection < |DELIVERY_PRICES|
  }

  /** Every line of the user has a valid delivery selection (the others are never priced). */
  ghost predicate SelectionsValid(lines: seq<OrderItem>, user: int) {
    forall l | l in lines && l.userId == user :: ValidSelection(l)
  }

  /** What one line adds to its order's total: count times unit price, plus its surcharge. */
  function LineCharge(l: OrderItem, unitPrice: real): real
    requires ValidSelection(l)
  {
    l.count as real * unitPrice + DELIVERY_PRICES[l.deliverySelection]
  }

  /** Account for one line of the user: add its charge to its order's entry (created on first
      use), record the order's id and time, and append the line to its items. */
  function AddLine(m: map<int, FullOrder>, l: OrderItem, unitPrice: real): map<int, FullOrder>
    requires ValidSelection(l)
  {
    var prev := if l.orderId in m then m[l.orderId] else FreshFullOrder(l.orderId, l.orderTime);
    m[l.orderId := prev.(totalPrice := prev.totalPrice + LineCharge(l, unitPrice),
                         orderId := l.orderId, orderTime := l.orderTime, items := prev.items + [l])]
  }

  /** The orders map after scanning `lines` in file order for the user's lines. */
  function GroupOrders(lines: seq<OrderItem>, user: int, price: int -> real): map<int, FullOrder>
    requires SelectionsValid(lines, user)
  {
    if lines == [] then map[]
    else
      var m := GroupOrders(lines[..|lines| - 1], user, price);
      var l := lines[|lines| - 1];
      if l.userId == user then AddLine(m, l, price(l.productId)) else m
  }

  function LineOf(user: int, orderId: int): OrderItem -> bool {
    (l: OrderItem) => l.userId == user && l.orderId == orderId
  }

  /** The sum of the charges of some lines. */
  function ChargeSum(lines: seq<OrderItem>, price: int -> real): real
    requires forall l | l in lines :: ValidSelection(l)
  {
    if lines == [] then 0.0
    else ChargeSum(lines[..|lines| - 1], price) + LineCharge(lines[|lines| - 1], price(lines[|lines| - 1].productId))
  }

  /** The keys of the grouping are exactly the order ids of the user's lines. */
  lemma {:induction false} GroupOrdersKeys(lines: seq<OrderItem>, user: int, price: int -> real)
    requires SelectionsValid(lines, user)
    ensures forall k :: k in GroupOrders(lines, user, price) <==>
              exists i | 0 <= i < |lines| :: lines[i].userId == user && lines[i].orderId == k
  {
    if lines != [] {
      var init := lines[..|lines| - 1];
      var l := lines[|lines| - 1];
      GroupOrdersKeys(init, user, price);
      forall k
        ensures k in GroupOrders(lines, user, price) <==>
                exists i | 0 <= i < |lines| :: lines[i].userId == user && lines[i].orderId == k
      {
        if exists i | 0 <= i < |lines| :: lines[i].userId == user && lines[i].orderId == k {
          var i :| 0 <= i < |lines| && lines[i].userId == user && lines[i].orderId == k;
          if i < |init| {
            assert init[i] == lines[i];
          }
        }
      }
    }
  }

  /** One more line changes only its own order's entry, by appending it and adding its charge. */
  lemma GroupEntryStep(init: seq<OrderItem>, l: OrderItem, user: int, price: int -> real, k: int)
    requires SelectionsValid(init + [l], user)
    requires k in GroupOrders(init + [l], user, price)
    ensures (init + [l])[..|init|] == init
    ensures var m := GroupOrders(init, user, price);
            var m' := GroupOrders(init + [l], user, price);
            if l.userId == user && l.orderId == k then
              var prev := if k in m then m[k] else FreshFullOrder(k, l.orderTime);
              && m'[k].items == prev.items + [l]
              && m'[k].totalPrice == prev.totalPrice + LineCharge(l, price(l.productId))
              && m'[k].orderId == k && m'[k].status == prev.status
            else k in m && m'[k] == m[k]
  {
    assert (init + [l])[..|init|] == init;
  }

  /** The entry for `k` carries its id, is NOT_COMPLETED, holds that order's lines in file
      order and totals their charges. */
  ghost predicate EntryMatches(lines: seq<OrderItem>, user: int, price: int -> real, k: int)
    requires SelectionsValid(lines, user)
  {
    var m := GroupOrders(lines, user, price);
    k in m ==>
      && m[k].items == Filter(lines, LineOf(user, k))
      && m[k].orderId == k
      && m[k].status == NotCompleted
      && m[k].totalPrice == ChargeSum(Filter(lines, LineOf(user, k)), price)
  }

  /** EntryMatches survives one more line. */
  lemma EntryMatchesStep(init: seq<OrderItem>, l: OrderItem, user: int, price: int -> real, k: int)
    requires SelectionsValid(init + [l], user) && SelectionsValid(init, user)
    requires EntryMatches(init, user, price, k)
    requires k !in GroupOrders(init, user, price) ==> Filter(init, LineOf(user, k)) == []
    ensures EntryMatches(init + [l], user, price, k)
  {
    if k in GroupOrders(init + [l], user, price) {
      GroupEntryStep(init, l, user, price, k);
      FilterAppend(init, l, LineOf(user, k));
      var f := Filter(init, LineOf(user, k));
      if l.userId == user && l.orderId == k {
        assert (f + [l])[..|f + [l]| - 1] == f;
      }
    }
  }

  /** Each entry of the grouping carries its id, stays NOT_COMPLETED, holds that order's lines
      in file order and totals count * price + surcharge over them, so the surcharge is
      counted once per line. */
  lemma {:induction false} GroupOrdersEntries(lines: seq<OrderItem>, user: int, price: int -> real)
    requires SelectionsValid(lines, user)
    ensures forall k | k in GroupOrders(lines, user, price) ::
              && GroupOrders(lines, user, price)[k].items == Filter(lines, LineOf(user, k))
              && GroupOrders(lines, user, price)[k].orderId == k
              && GroupOrders(lines, user, price)[k].status == NotCompleted
              && GroupOrders(lines, user, price)[k].totalPrice == ChargeSum(Filter(lines, LineOf(user, k)), price)
  {
    if lines != [] {
      var init := lines[..|lines| - 1];
      var l := lines[|lines| - 1];
      assert lines == init + [l];
      GroupOrdersEntries(init, user, price);
      GroupOrdersKeys(init, user, price);
      forall k
        ensures EntryMatches(lines, user, price, k)
      {
        if k !in GroupOrders(init, user, price) {
          forall x | x in init
            ensures !LineOf(user, k)(x)
          {
            var i :| 0 <= i < |init| && init[i] == x;
          }
          FilterNone(init, LineOf(user, k));
        }
        EntryMatchesStep(init, l, user, price, k);
      }
      forall k | k in GroupOrders(lines, user, price)
        ensures && GroupOrders(lines, user, price)[k].items == Filter(lines, LineOf(user, k))
                && GroupOrders(lines, user, price)[k].orderId == k
                && GroupOrders(lines, user, price)[k].status == NotCompleted
                && GroupOrders(lines, user, price)[k].totalPrice == ChargeSum(Filter(lines, LineOf(user, k)), price)
      {
        assert EntryMatches(lines, user, price, k);
      }
    }
  }

  /** The price lookup load_full_orders uses: get_price_by_id against the product file. */
  function PriceTable(products: seq<Product>, opens: bool): int -> real {
    (id: int) => if opens then PriceById(products, id) else -1.0
  }

  // ---------------------------------------------------------------------------
  // The manager

  class OrderManager {
    const file: RecordFile<OrderItem>
    var ordersMap: map<int, FullOrder>
    var isLoaded: bool

    constructor (file: RecordFile<OrderItem>)
      ensures this.file == file && ordersMap == map[] && !isLoaded
    {
      this.file := file;
      ordersMap := map[];
      isLoaded := false;
    }

    /** get_orders_map_ptr: the map, only once a load has completed. */
    function OrdersMapPtr(): (r: Option<map<int, FullOrder>>)
      reads this
      ensures r.Some? <==> isLoaded
      ensures r.Some? ==> r.value == ordersMap
    {
      if isLoaded then Some(ordersMap) else None
    }

    /** load_full_orders: clear the map, then scan every line and account for the user's. */
    method LoadFullOrders(user: int, products: ProductManager, opens: bool, productOpens: bool)
      returns (e: FileErrorCode)
      requires SelectionsValid(file.records, user)
      modifies this
      ensures opens ==> && e == OK && isLoaded
                        && ordersMap == GroupOrders(file.records, user, PriceTable(products.file.records, productOpens))
      ensures !opens ==> e == OpenFailure && ordersMap == map[] && !isLoaded
    {
      ordersMap := map[];
      isLoaded := false;
      if !opens {
        return OpenFailure;
      }
      ghost var price := PriceTable(products.file.records, productOpens);
      var i := 0;
      while i < |file.records|
        invariant 0 <= i <= |file.records|
        invariant SelectionsValid(file.records[..i], user)
        invariant ordersMap == GroupOrders(file.records[..i], user, price)
      {
        var temp := file.records[i];
        assert file.records[..i + 1][..i] == file.records[..i];
        if temp.userId == user {
          var unitPrice := products.GetPriceById(temp.productId, productOpens);
          ordersMap := AddLine(ordersMap, temp, unitPrice);
        }
        i := i + 1;
      }
      assert file.records[..i] == file.records;
      isLoaded := true;
      return OK;
    }

    /** add_order: OpenFailure if the cart file cannot be opened; otherwise one line per cart
        row, all stamped with `now`, appended in order (nothing is written if the order file
        cannot be opened). */
    method AddOrder(user: int, cart: seq<CartItem>, address: string, now: int, cartOpens: bool, opens: bool)
      returns (e: FileErrorCode)
      modifies file`records
      ensures cartOpens && opens ==> e == OK && file.records == old(file.records) + OrderLines(cart, address, now)
      ensures !(cartOpens && opens) ==> e == OpenFailure && file.records == old(file.records)
    {
      if !cartOpens {
        return OpenFailure;
      }
      var orderList: seq<OrderItem> := [];
      var i := 0;
      while i < |cart|
        invariant 0 <= i <= |cart|
        invariant orderList == OrderLines(cart[..i], address, now)
      {
        var c := cart[i];
        orderList := orderList + [NewOrderItem(c.userId, c.productId, c.count, now, c.deliverySelection,
                                               address, NotCompleted)];
        i := i + 1;
      }
      assert cart[..i] == cart;
      if !opens {
        return OpenFailure;
      }
      var j := 0;
      while j < |orderList|
        invariant 0 <= j <= |orderList|
        invariant file.records == old(file.records) + orderList[..j]
      {
        file.Append(orderList[j]);
        assert orderList[..j + 1] == orderList[..j] + [orderList[j]];
        j := j + 1;
      }
      assert orderList[..j] == orderList;
      return OK;
    }
  }
}

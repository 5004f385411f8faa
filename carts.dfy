/** The shopping cart: a header-less record file of cart rows, one live (NOT_ORDERED) row per
    user and product, soft-deleted rows that can be revived, and the checkout pass that hands
    the selected rows over to ordering. */
module Carts {
  import opened Wrappers
  import opened FileErrors
  import opened RecordFiles

  datatype CartItemStatus = NotOrdered | Deleted

  /** A cart row; a delivery selection of -1 means "not ticked for checkout". */
  datatype CartItem = CartItem(userId: int, productId: int, count: int, status: CartItemStatus,
                               deliverySelection: int)

  const UNSELECTED: int := -1

  /** The CartItem(user_id, product_id, count, status, selection) constructor and its defaults. */
  function NewCartItem(userId: int, productId: int, count: int, status: CartItemStatus := NotOrdered,
                       selection: int := UNSELECTED): CartItem
  {
    CartItem(userId, productId, count, status, selection)
  }

  /** A row built with the defaults is NOT_ORDERED and not selected. */
  lemma NewCartItemDefaults(userId: int, productId: int, count: int)
    ensures NewCartItem(userId, productId, count).status == NotOrdered
    ensures NewCartItem(userId, productId, count).deliverySelection == UNSELECTED
    ensures NewCartItem(userId, productId, count).count == count
  {
  }

  /** The value-initialised row that find_item pairs with position -1. */
  const EMPTY_ITEM: CartItem := CartItem(0, 0, 0, NotOrdered, 0)

  /** mark_deleted: the status becomes DELETED and nothing else changes. */
  function MarkDeleted(it: CartItem): (r: CartItem)
    ensures r.status == Deleted
    ensures r.userId == it.userId && r.productId == it.productId && r.count == it.count
    ensures r.deliverySelection == it.deliverySelection
  {
    it.(status := Deleted)
  }

  /** find_item's test: this user and product, with one of the target statuses. */
  function Matches(user: int, product: int, targets: seq<CartItemStatus>): CartItem -> bool {
    (it: CartItem) => it.userId == user && it.productId == product && it.status in targets
  }

  function IsNotOrdered(): CartItem -> bool {
    (it: CartItem) => it.status == NotOrdered
  }

  /** The rows checkout takes: this user's, not yet ordered, ticked for delivery. */
  function Selected(user: int): CartItem -> bool {
    (it: CartItem) => it.userId == user && it.status == NotOrdered && it.deliverySelection != UNSELECTED
  }

  /** At most one NOT_ORDERED row per user and product: the invariant add_item relies on. */
  ghost predicate OneLiveRow(rs: seq<CartItem>) {
    forall i, j | 0 <= i < j < |rs| && rs[i].status == NotOrdered && rs[j].status == NotOrdered ::
      rs[i].userId != rs[j].userId || rs[i].productId != rs[j].productId
  }

  // ---------------------------------------------------------------------------
  // The operations on the row sequence

  /** find_item: the position and contents of the first matching row, or -1 and the empty row. */
  function FindItemIn(rs: seq<CartItem>, user: int, product: int, targets: seq<CartItemStatus>): (r: (int, CartItem))
    ensures -1 <= r.0 < |rs|
    ensures r.0 == -1 <==> forall i | 0 <= i < |rs| :: !(rs[i].userId == user && rs[i].productId == product && rs[i].status in targets)
    ensures r.0 == -1 ==> r.1 == EMPTY_ITEM
    ensures 0 <= r.0 ==> && r.1 == rs[r.0] && r.1.userId == user && r.1.productId == product
                         && r.1.status in targets
                         && forall i | 0 <= i < r.0 :: !(rs[i].userId == user && rs[i].productId == product && rs[i].status in targets)
  {
    var pos := IndexWhere(rs, Matches(user, product, targets));
    if pos < 0 then
      assert forall i | 0 <= i < |rs| :: !Matches(user, product, targets)(rs[i]);
      (-1, EMPTY_ITEM)
    else (pos, rs[pos])
  }

  /** add_item: merge into the live row, else revive a deleted row with the new count, else
      append a fresh NOT_ORDERED, unselected row. */
  function AddItemTo(rs: seq<CartItem>, user: int, product: int, count: int): seq<CartItem> {
    var (pos, item) := FindItemIn(rs, user, product, [NotOrdered]);
    if pos != -1 then rs[pos := item.(count := item.count + count)]
    else
      var (dpos, ditem) := FindItemIn(rs, user, product, [Deleted]);
      if dpos != -1 then rs[dpos := ditem.(status := NotOrdered, count := count)]
      else rs + [NewCartItem(user, product, count)]
  }

  /** update_item: replace the first row of this user and product with the given status. */
  function UpdateItemIn(rs: seq<CartItem>, user: int, product: int, count: int, status: CartItemStatus,
                        selection: int): Written<CartItem>
  {
    var (pos, _) := FindItemIn(rs, user, product, [status]);
    if pos == -1 then Written(NotFound, rs)
    else Written(OK, rs[pos := NewCartItem(user, product, count, status, selection)])
  }

  /** delete_item: the live row becomes DELETED with its count and an unticked selection. */
  function DeleteItemIn(rs: seq<CartItem>, user: int, product: int): Written<CartItem> {
    var (pos, item) := FindItemIn(rs, user, product, [NotOrdered]);
    if pos == -1 then Written(NotFound, rs)
    else Written(OK, rs[pos := NewCartItem(user, product, item.count, Deleted)])
  }

  /** The rows after checkout: every selected row of the user is DELETED. */
  function CheckoutRows(rs: seq<CartItem>, user: int): (r: seq<CartItem>)
    ensures |r| == |rs|
  {
    seq(|rs|, i requires 0 <= i < |rs| => CheckedRow(rs[i], user))
  }

  /** One row after checkout has seen it. */
  function CheckedRow(it: CartItem, user: int): CartItem {
    if Selected(user)(it) then MarkDeleted(it) else it
  }

  function MarkAll(s: seq<CartItem>): (r: seq<CartItem>)
    ensures |r| == |s|
  {
    seq(|s|, i requires 0 <= i < |s| => MarkDeleted(s[i]))
  }

  /** What checkout hands over: the selected rows in file order, as rewritten (DELETED). */
  function CheckedOutItems(rs: seq<CartItem>, user: int): seq<CartItem> {
    MarkAll(Filter(rs, Selected(user)))
  }

  // ---------------------------------------------------------------------------
  // Properties

  /** The row add_item leaves live for the pair, and where: the live row with the counts
      added, else the first deleted row revived with the new count (its old selection kept),
      else a fresh unselected row past the end. */
  function AddedRow(rs: seq<CartItem>, user: int, product: int, count: int): (int, CartItem) {
    var live := FindItemIn(rs, user, product, [NotOrdered]);
    var dead := FindItemIn(rs, user, product, [Deleted]);
    if live.0 != -1 then (live.0, live.1.(count := live.1.count + count))
    else if dead.0 != -1 then (dead.0, dead.1.(status := NotOrdered, count := count))
    else (|rs|, NewCartItem(user, product, count))
  }

  /** The property add_item keeps, for one call: find_item on the result reports the added
      row at its place, one live row per pair still holds, the file grows only when it had no
      row of the pair, and every other row is as it was. */
  ghost predicate AddItemPost(rs: seq<CartItem>, r: seq<CartItem>, user: int, product: int, count: int) {
    && OneLiveRow(r)
    && FindItemIn(r, user, product, [NotOrdered]) == AddedRow(rs, user, product, count)
    && (|r| == |rs| <==> exists i | 0 <= i < |rs| :: rs[i].userId == user && rs[i].productId == product)
    && (|r| == |rs| || |r| == |rs| + 1)
    && forall i | 0 <= i < |rs| && i != AddedRow(rs, user, product, count).0 :: r[i] == rs[i]
  }

  /** Merging into the live row. */
  lemma AddItemMerges(rs: seq<CartItem>, user: int, product: int, count: int)
    requires OneLiveRow(rs)
    requires FindItemIn(rs, user, product, [NotOrdered]).0 != -1
    ensures AddItemPost(rs, AddItemTo(rs, user, product, count), user, product, count)
  {
    var (pos, item) := FindItemIn(rs, user, product, [NotOrdered]);
    var x := item.(count := item.count + count);
    forall i | 0 <= i < |rs| && i != pos && rs[i].userId == user && rs[i].productId == product
      ensures rs[i].status != NotOrdered
    {
      if i > pos {
        assert rs[pos].status == NotOrdered;
      }
    }
    RewriteLive(rs, pos, x, user, product);
    assert AddItemTo(rs, user, product, count) == rs[pos := x];
  }

  /** Reviving a deleted row: there was no live row, so the revived one is the only one. */
  lemma AddItemRevives(rs: seq<CartItem>, user: int, product: int, count: int)
    requires OneLiveRow(rs)
    requires FindItemIn(rs, user, product, [NotOrdered]).0 == -1
    requires FindItemIn(rs, user, product, [Deleted]).0 != -1
    ensures AddItemPost(rs, AddItemTo(rs, user, product, count), user, product, count)
  {
    var (pos, item) := FindItemIn(rs, user, product, [Deleted]);
    var x := item.(status := NotOrdered, count := count);
    RewriteLive(rs, pos, x, user, product);
    assert AddItemTo(rs, user, product, count) == rs[pos := x];
  }

  /** Writing a live row of the pair over a row of the same pair, when no other row of the
      pair is live: one live row per pair still holds, and find_item now finds the new row. */
  lemma RewriteLive(rs: seq<CartItem>, pos: nat, x: CartItem, user: int, product: int)
    requires OneLiveRow(rs) && pos < |rs|
    requires rs[pos].userId == user && rs[pos].productId == product
    requires x.userId == user && x.productId == product && x.status == NotOrdered
    requires forall i | 0 <= i < |rs| && i != pos && rs[i].userId == user && rs[i].productId == product ::
               rs[i].status != NotOrdered
    ensures OneLiveRow(rs[pos := x])
    ensures FindItemIn(rs[pos := x], user, product, [NotOrdered]) == (pos, x)
  {
    var r := rs[pos := x];
    var now := FindItemIn(r, user, product, [NotOrdered]);
    assert r[pos] == x;
    assert now.0 == pos;
  }

  /** Appending a fresh row: the file had no row at all for the pair. */
  lemma AddItemAppends(rs: seq<CartItem>, user: int, product: int, count: int)
    requires OneLiveRow(rs)
    requires FindItemIn(rs, user, product, [NotOrdered]).0 == -1
    requires FindItemIn(rs, user, product, [Deleted]).0 == -1
    ensures AddItemPost(rs, AddItemTo(rs, user, product, count), user, product, count)
  {
    var r := AddItemTo(rs, user, product, count);
    assert r[|rs|] == NewCartItem(user, product, count);
    forall i | 0 <= i < |rs|
      ensures rs[i].userId != user || rs[i].productId != product
    {
      assert !(rs[i].userId == user && rs[i].productId == product && rs[i].status in [NotOrdered]);
      assert !(rs[i].userId == user && rs[i].productId == product && rs[i].status in [Deleted]);
      assert rs[i].status == NotOrdered || rs[i].status == Deleted;
    }
    assert FindItemIn(r, user, product, [NotOrdered]).0 == |rs|;
  }

  /** add_item leaves exactly one live row for the user and product, at the live row's place
      with old + new count and its selection, else at the first deleted row's place with the
      new count and that row's old selection, else appended NOT_ORDERED and unselected; the
      file grows only when it had no row for the pair, and no other row changes. */
  lemma AddItemSpec(rs: seq<CartItem>, user: int, product: int, count: int)
    requires OneLiveRow(rs)
    ensures var r := AddItemTo(rs, user, product, count);
            var live := FindItemIn(rs, user, product, [NotOrdered]);
            var dead := FindItemIn(rs, user, product, [Deleted]);
            var now := FindItemIn(r, user, product, [NotOrdered]);
            && OneLiveRow(r)
            && now.0 == (if live.0 != -1 then live.0 else if dead.0 != -1 then dead.0 else |rs|)
            && now.1.count == (if live.0 != -1 then live.1.count + count else count)
            && now.1.deliverySelection ==
                 (if live.0 != -1 then live.1.deliverySelection
                  else if dead.0 != -1 then dead.1.deliverySelection else UNSELECTED)
            && (|r| == |rs| <==> exists i | 0 <= i < |rs| :: rs[i].userId == user && rs[i].productId == product)
            && (|r| == |rs| || |r| == |rs| + 1)
            && forall i | 0 <= i < |rs| && i != now.0 :: r[i] == rs[i]
  {
    if FindItemIn(rs, user, product, [NotOrdered]).0 != -1 {
      AddItemMerges(rs, user, product, count);
    } else if FindItemIn(rs, user, product, [Deleted]).0 != -1 {
      AddItemRevives(rs, user, product, count);
    } else {
      AddItemAppends(rs, user, product, count);
    }
  }

  /** A row that checkout took keeps its selection when DELETED, so adding the product again
      revives it already ticked, and the next checkout takes it. */
  lemma ReAddAfterCheckoutSelected(rs: seq<CartItem>, user: int, product: int, count: int)
    requires OneLiveRow(rs)
    requires FindItemIn(rs, user, product, [NotOrdered]).0 == -1
    requires FindItemIn(rs, user, product, [Deleted]).0 != -1
    requires FindItemIn(rs, user, product, [Deleted]).1.deliverySelection != UNSELECTED
    ensures var r := AddItemTo(rs, user, product, count);
            var pos := FindItemIn(rs, user, product, [Deleted]).0;
            && Selected(user)(r[pos])
            && CheckoutRows(r, user)[pos] == MarkDeleted(r[pos])
  {
    AddItemRevives(rs, user, product, count);
    CheckoutSpec(AddItemTo(rs, user, product, count), user);
  }

  /** update_item writes the new row where the first row with that status was, changes
      nothing else, and reports NotFound exactly when there is no such row. */
  lemma UpdateItemSpec(rs: seq<CartItem>, user: int, product: int, count: int, status: CartItemStatus, selection: int)
    requires OneLiveRow(rs)
    ensures var w := UpdateItemIn(rs, user, product, count, status, selection);
            var pos := FindItemIn(rs, user, product, [status]).0;
            && (w.code == NotFound <==> pos == -1)
            && (w.code == OK ==> w.records == rs[pos := CartItem(user, product, count, status, selection)])
            && (w.code != OK ==> w.code == NotFound && w.records == rs)
            && OneLiveRow(w.records)
  {
    var w := UpdateItemIn(rs, user, product, count, status, selection);
    var pos := FindItemIn(rs, user, product, [status]).0;
    if pos != -1 && status == NotOrdered {
      forall i | 0 <= i < |rs| && i != pos && rs[i].status == NotOrdered
        ensures rs[i].userId != user || rs[i].productId != product
      {
        if i > pos {
          assert rs[pos].status == NotOrdered;
        }
      }
    }
  }

  /** delete_item removes the live row of the pair from the cart (it becomes DELETED with its
      count kept and its selection cleared) and reports NotFound when there is none. */
  lemma DeleteItemSpec(rs: seq<CartItem>, user: int, product: int)
    requires OneLiveRow(rs)
    ensures var w := DeleteItemIn(rs, user, product);
            var live := FindItemIn(rs, user, product, [NotOrdered]);
            && (w.code == NotFound <==> live.0 == -1)
            && (w.code != OK ==> w.code == NotFound && w.records == rs)
            && (w.code == OK ==> && w.records[live.0] == CartItem(user, product, live.1.count, Deleted, UNSELECTED)
                                 && FindItemIn(w.records, user, product, [NotOrdered]).0 == -1)
            && |w.records| == |rs|
            && (forall i | 0 <= i < |rs| && (w.code != OK || i != live.0) :: w.records[i] == rs[i])
            && OneLiveRow(w.records)
  {
    var w := DeleteItemIn(rs, user, product);
    var live := FindItemIn(rs, user, product, [NotOrdered]);
    if live.0 != -1 {
      var pos := live.0;
      forall i | 0 <= i < |rs| && i != pos
        ensures !(rs[i].userId == user && rs[i].productId == product && rs[i].status in [NotOrdered])
      {
        if i > pos {
          assert rs[pos].status == NotOrdered;
        }
      }
    }
  }

  /** checkout flips exactly the user's selected live rows to DELETED, hands them over in file
      order, and leaves every other row, the user's unselected ones included, as it was. */
  lemma {:induction false} CheckoutSpec(rs: seq<CartItem>, user: int)
    ensures forall i | 0 <= i < |rs| && Selected(user)(rs[i]) :: CheckoutRows(rs, user)[i] == MarkDeleted(rs[i])
    ensures forall i | 0 <= i < |rs| && !Selected(user)(rs[i]) :: CheckoutRows(rs, user)[i] == rs[i]
    ensures forall it | it in CheckedOutItems(rs, user) ::
              it.userId == user && it.status == Deleted && it.deliverySelection != UNSELECTED &&
              it.(status := NotOrdered) in rs
    ensures forall i | 0 <= i < |rs| && Selected(user)(rs[i]) :: MarkDeleted(rs[i]) in CheckedOutItems(rs, user)
    ensures OneLiveRow(rs) ==> OneLiveRow(CheckoutRows(rs, user))
  {
    var picked := Filter(rs, Selected(user));
    forall it | it in CheckedOutItems(rs, user)
      ensures it.userId == user && it.status == Deleted && it.deliverySelection != UNSELECTED
      ensures it.(status := NotOrdered) in rs
    {
      var k :| 0 <= k < |picked| && CheckedOutItems(rs, user)[k] == it;
      assert picked[k] in picked;
    }
    forall i | 0 <= i < |rs| && Selected(user)(rs[i])
      ensures MarkDeleted(rs[i]) in CheckedOutItems(rs, user)
    {
      assert rs[i] in picked;
      var k :| 0 <= k < |picked| && picked[k] == rs[i];
      assert CheckedOutItems(rs, user)[k] == MarkDeleted(rs[i]);
    }
  }

  /** Checkout's hand-over list grows row by row. */
  lemma CheckedOutStep(s: seq<CartItem>, x: CartItem, user: int)
    ensures CheckedOutItems(s + [x], user) ==
              CheckedOutItems(s, user) + (if Selected(user)(x) then [MarkDeleted(x)] else [])
  {
    FilterAppend(s, x, Selected(user));
  }

  /** A second checkout hands over nothing and changes nothing. */
  lemma CheckoutIdempotent(rs: seq<CartItem>, user: int)
    ensures CheckedOutItems(CheckoutRows(rs, user), user) == []
    ensures CheckoutRows(CheckoutRows(rs, user), user) == CheckoutRows(rs, user)
  {
    var after := CheckoutRows(rs, user);
    forall x | x in after
      ensures !Selected(user)(x)
    {
      var k :| 0 <= k < |after| && after[k] == x;
    }
    FilterNone(after, Selected(user));
  }

  /** The cart list load_cart builds: every NOT_ORDERED row, whoever it belongs to. */
  lemma LoadCartIgnoresUser(rs: seq<CartItem>)
    ensures forall it | it in Filter(rs, IsNotOrdered()) :: it in rs && it.status == NotOrdered
    ensures forall i | 0 <= i < |rs| && rs[i].status == NotOrdered :: rs[i] in Filter(rs, IsNotOrdered())
  {
    forall i | 0 <= i < |rs| && rs[i].status == NotOrdered
      ensures rs[i] in Filter(rs, IsNotOrdered())
    {
      assert rs[i] in rs && IsNotOrdered()(rs[i]);
    }
  }

  // ---------------------------------------------------------------------------
  // The manager

  class CartManager {
    const file: RecordFile<CartItem>
    var cartList: seq<CartItem>
    var isLoaded: bool

    /** The cart file has no header, so constructing the manager touches nothing. */
    constructor (file: RecordFile<CartItem>)
      ensures this.file == file && cartList == [] && !isLoaded
    {
      this.file := file;
      cartList := [];
      isLoaded := false;
    }

    /** get_cart_list_ptr: the list, only once a load has completed. */
    function CartListPtr(): (r: Option<seq<CartItem>>)
      reads this
      ensures r.Some? <==> isLoaded
      ensures r.Some? ==> r.value == cartList
    {
      if isLoaded then Some(cartList) else None
    }

    /** load_cart: clear the list, then collect every NOT_ORDERED row in file order; the user
        id is not used. */
    method LoadCart(userId: int, opens: bool) returns (e: FileErrorCode)
      modifies this
      ensures opens ==> e == OK && cartList == Filter(file.records, IsNotOrdered()) && isLoaded
      ensures !opens ==> e == OpenFailure && cartList == [] && !isLoaded
    {
      isLoaded := false;
      cartList := [];
      if !opens {
        return OpenFailure;
      }
      var i := 0;
      while i < |file.records|
        invariant 0 <= i <= |file.records|
        invariant cartList == Filter(file.records[..i], IsNotOrdered())
      {
        var temp := file.records[i];
        FilterAppend(file.records[..i], temp, IsNotOrdered());
        assert file.records[..i + 1] == file.records[..i] + [temp];
        if temp.status == NotOrdered {
          cartList := cartList + [temp];
        }
        i := i + 1;
      }
      assert file.records[..i] == file.records;
      isLoaded := true;
      return OK;
    }

    /** find_item: scan the rows, and for a row of this user and product try each target
        status in turn. */
    method FindItem(user: int, product: int, targets: seq<CartItemStatus>, opens: bool)
      returns (pos: int, item: CartItem)
      ensures (pos, item) == (if opens then FindItemIn(file.records, user, product, targets) else (-1, EMPTY_ITEM))
    {
      if !opens {
        return -1, EMPTY_ITEM;
      }
      var i := 0;
      while i < |file.records|
        invariant 0 <= i <= |file.records|
        invariant forall j | 0 <= j < i :: !Matches(user, product, targets)(file.records[j])
      {
        var temp := file.records[i];
        if temp.userId == user && temp.productId == product {
          var k := 0;
          while k < |targets|
            invariant 0 <= k <= |targets|
            invariant temp.status !in targets[..k]
          {
            if temp.status == targets[k] {
              return i, temp;
            }
            assert targets[..k + 1] == targets[..k] + [targets[k]];
            k := k + 1;
          }
          assert targets[..k] == targets;
        }
        i := i + 1;
      }
      return -1, EMPTY_ITEM;
    }

    /** update_item_at_pos: overwrite the row at a position find_item reported. */
    method UpdateItemAtPos(pos: nat, item: CartItem, opens: bool) returns (e: FileErrorCode)
      requires pos < |file.records|
      modifies file`records
      ensures opens ==> e == OK && file.records == old(file.records)[pos := item]
      ensures !opens ==> e == OpenFailure && file.records == old(file.records)
    {
      if !opens {
        return OpenFailure;
      }
      file.RewriteAt(pos, item);
      return OK;
    }

    /** add_item: merge, revive or append (the rewrite's own result is not checked). */
    method AddItem(user: int, product: int, count: int, opens: bool) returns (e: FileErrorCode)
      modifies file`records
      ensures opens ==> e == OK && file.records == AddItemTo(old(file.records), user, product, count)
      ensures !opens ==> e == OpenFailure && file.records == old(file.records)
    {
      var pos, item := FindItem(user, product, [NotOrdered], opens);
      if pos != -1 {
        var merged := item.(count := item.count + count);
        var _ := UpdateItemAtPos(pos, merged, opens);
        return OK;
      }
      var dpos, ditem := FindItem(user, product, [Deleted], opens);
      if dpos != -1 {
        var revived := ditem.(status := NotOrdered, count := count);
        var _ := UpdateItemAtPos(dpos, revived, opens);
        return OK;
      }
      if !opens {
        return OpenFailure;
      }
      file.Append(NewCartItem(user, product, count));
      return OK;
    }

    /** update_item: NotFound when find_item finds no row with that status (an unreadable
        file included); otherwise the row is replaced in place. */
    method UpdateItem(user: int, product: int, count: int, status: CartItemStatus, opens: bool,
                      selection: int := UNSELECTED) returns (e: FileErrorCode)
      modifies file`records
      ensures opens ==> Written(e, file.records) == UpdateItemIn(old(file.records), user, product, count, status, selection)
      ensures !opens ==> e == NotFound && file.records == old(file.records)
    {
      var pos, _ := FindItem(user, product, [status], opens);
      if pos == -1 {
        return NotFound;
      }
      file.RewriteAt(pos, NewCartItem(user, product, count, status, selection));
      return OK;
    }

    /** delete_item: NotFound without a live row (an unreadable file included); otherwise the
        live row is rewritten as DELETED with its count. */
    method DeleteItem(user: int, product: int, opens: bool) returns (e: FileErrorCode)
      modifies file`records
      ensures opens ==> Written(e, file.records) == DeleteItemIn(old(file.records), user, product)
      ensures !opens ==> e == NotFound && file.records == old(file.records)
    {
      var pos, item := FindItem(user, product, [NotOrdered], opens);
      if pos == -1 {
        return NotFound;
      }
      file.RewriteAt(pos, NewCartItem(user, product, item.count, Deleted));
      return OK;
    }

    /** checkout: one pass that rewrites each selected live row of the user as DELETED and
        collects the rewritten rows. */
    method Checkout(user: int, opens: bool) returns (items: seq<CartItem>)
      modifies file`records
      ensures opens ==> items == CheckedOutItems(old(file.records), user)
                        && file.records == CheckoutRows(old(file.records), user)
      ensures !opens ==> items == [] && file.records == old(file.records)
    {
      if !opens {
        return [];
      }
      ghost var rs := file.records;
      items := [];
      var i := 0;
      while i < |file.records|
        invariant |file.records| == |rs|
        invariant 0 <= i <= |rs|
        invariant forall j | 0 <= j < i :: file.records[j] == CheckedRow(rs[j], user)
        invariant forall j | i <= j < |rs| :: file.records[j] == rs[j]
        invariant items == CheckedOutItems(rs[..i], user)
      {
        var item := file.records[i];
        CheckedOutStep(rs[..i], item, user);
        assert rs[..i + 1] == rs[..i] + [item];
        if item.userId == user && item.status == NotOrdered && item.deliverySelection != UNSELECTED {
          item := item.(status := Deleted);
          file.RewriteAt(i, item);
          items := items + [item];
        }
        i := i + 1;
      }
      assert rs[..i] == rs;
    }
  }
}

/** The product store: a counted record file of Product records with stock, soft deletion,
    the out-of-stock maintenance scan and the loaded product list. */
module Products {
  import opened Wrappers
  import opened FileErrors
  import opened FixedStrings
  import opened RecordFiles

  const MAX_PRODUCT_NAME_SIZE: nat := 100

  datatype ProductStatus = Normal | Deleted | OutOfStock

  /** A product record; `name` is what its FixedString<100> field holds. */
  datatype Product = Product(name: string, id: int, price: real, stock: int, status: ProductStatus)

  /** The Product(name, price, stock, id, status) constructor with its default arguments. */
  function NewProduct(name: string, price: real, stock: int, id: int := -1,
                      status: ProductStatus := Normal): Product
  {
    Product(Fit(name, MAX_PRODUCT_NAME_SIZE), id, price, stock, status)
  }

  /** A product built without a status is NORMAL, keeps its price, stock and id, and its
      stored name is a prefix of at most 99 characters of the given one. */
  lemma NewProductDefaults(name: string, price: real, stock: int, id: int)
    ensures NewProduct(name, price, stock, id).status == Normal
    ensures NewProduct(name, price, stock, id).price == price
    ensures NewProduct(name, price, stock, id).stock == stock
    ensures NewProduct(name, price, stock, id).id == id
    ensures |NewProduct(name, price, stock, id).name| <= MAX_PRODUCT_NAME_SIZE - 1
    ensures NewProduct(name, price, stock, id).name <= name
  {
    FitBounds(name, MAX_PRODUCT_NAME_SIZE);
  }

  /** mark_deleted: set the status to DELETED and nothing else. */
  function MarkDeleted(p: Product): (q: Product)
    ensures q.status == Deleted
    ensures q.name == p.name && q.id == p.id && q.price == p.price && q.stock == p.stock
  {
    p.(status := Deleted)
  }

  function ProductId(p: Product): int {
    p.id
  }

  function HasId(id: int): Product -> bool {
    (p: Product) => p.id == id
  }

  /** The selector of get_product: this id and not DELETED (OUT_OF_STOCK stays visible). */
  function Visible(id: int): Product -> bool {
    (p: Product) => p.id == id && p.status != Deleted
  }

  function HasName(name: string): Product -> bool {
    (p: Product) => p.name == name
  }

  /** The first record with this id that is not DELETED. */
  function ProductById(rs: seq<Product>, id: int): Option<Product> {
    At(rs, IndexWhere(rs, Visible(id)))
  }

  /** get_price_by_id on the records: that product's price, or -1. */
  function PriceById(rs: seq<Product>, id: int): real {
    var p := ProductById(rs, id);
    if p.Some? then p.value.price else -1.0
  }

  /** A lookup returns a non-deleted record with the id, OUT_OF_STOCK ones included, and
      nothing exactly when every record with the id is deleted; the price comes from it. */
  lemma ProductByIdSpec(rs: seq<Product>, id: int)
    ensures ProductById(rs, id).Some? <==>
              exists i | 0 <= i < |rs| :: rs[i].id == id && rs[i].status != Deleted
    ensures ProductById(rs, id).Some? ==>
              ProductById(rs, id).value in rs &&
              ProductById(rs, id).value.id == id && ProductById(rs, id).value.status != Deleted
    ensures PriceById(rs, id) == if ProductById(rs, id).Some? then ProductById(rs, id).value.price else -1.0
  {
    if exists i | 0 <= i < |rs| :: rs[i].id == id && rs[i].status != Deleted {
      var i :| 0 <= i < |rs| && rs[i].id == id && rs[i].status != Deleted;
      assert Visible(id)(rs[i]);
    }
  }

  // ---------------------------------------------------------------------------
  // check_stock on the record sequence

  /** One record after the out-of-stock scan has seen it. */
  function Restock(p: Product): Product {
    if p.stock == 0 && p.status != OutOfStock then p.(status := OutOfStock) else p
  }

  /** The records after check_stock. */
  function CheckStockAt(rs: seq<Product>): (r: seq<Product>)
    ensures |r| == |rs|
  {
    seq(|rs|, i requires 0 <= i < |rs| => Restock(rs[i]))
  }

  /** After check_stock no record has stock 0 without being OUT_OF_STOCK; records with
      stock are unchanged; only statuses ever change; and a second run changes nothing. */
  lemma CheckStockSpec(rs: seq<Product>)
    ensures forall i | 0 <= i < |rs| :: CheckStockAt(rs)[i].stock == 0 ==> CheckStockAt(rs)[i].status == OutOfStock
    ensures forall i | 0 <= i < |rs| :: rs[i].stock != 0 ==> CheckStockAt(rs)[i] == rs[i]
    ensures forall i | 0 <= i < |rs| :: CheckStockAt(rs)[i] == rs[i].(status := CheckStockAt(rs)[i].status)
    ensures CheckStockAt(CheckStockAt(rs)) == CheckStockAt(rs)
  {
  }

  /** The scan also rewrites DELETED records with stock 0, which makes such a product
      visible to get_product again, as OUT_OF_STOCK. */
  lemma CheckStockResurfacesDeleted(rs: seq<Product>, pos: nat)
    requires pos < |rs| && rs[pos].status == Deleted && rs[pos].stock == 0
    requires forall i | 0 <= i < |rs| && i != pos :: rs[i].id != rs[pos].id
    ensures ProductById(rs, rs[pos].id).None?
    ensures ProductById(CheckStockAt(rs), rs[pos].id) == Some(rs[pos].(status := OutOfStock))
  {
    var id := rs[pos].id;
    var after := CheckStockAt(rs);
    assert Visible(id)(after[pos]);
  }

  // ---------------------------------------------------------------------------
  // Deletion and update on the record sequence

  /** delete_product on the records: only a NORMAL record is flipped to DELETED; an absent,
      DELETED or OUT_OF_STOCK record gives NotFound. */
  function DeleteProductAt(rs: seq<Product>, id: int): Written<Product> {
    var pos := IndexWhere(rs, HasId(id));
    if pos < 0 || rs[pos].status != Normal then Written(NotFound, rs)
    else Written(OK, rs[pos := MarkDeleted(rs[pos])])
  }

  /** update_product on the records: the first record with this id is replaced by a fresh
      NORMAL product with the new name, price and stock. */
  function UpdateProductAt(rs: seq<Product>, name: string, id: int, price: real, stock: int): Written<Product> {
    var pos := IndexWhere(rs, HasId(id));
    if pos < 0 then Written(NotFound, rs) else Written(OK, rs[pos := NewProduct(name, price, stock, id)])
  }

  /** With distinct ids, a successful delete hides the product from get_product and touches
      no other record; deleting an OUT_OF_STOCK product is refused. */
  lemma {:induction false} DeleteProductHides(rs: seq<Product>, id: int)
    requires KeysDistinct(rs, ProductId)
    ensures var w := DeleteProductAt(rs, id);
            && |w.records| == |rs|
            && (w.code == OK ==> ProductById(w.records, id).None?)
            && (w.code == OK <==> ProductById(rs, id).Some? && ProductById(rs, id).value.status == Normal)
            && forall i | 0 <= i < |rs| && rs[i].id != id :: w.records[i] == rs[i]
  {
    var pos := IndexWhere(rs, HasId(id));
    var w := DeleteProductAt(rs, id);
    ProductByIdSpec(rs, id);
    ProductByIdSpec(w.records, id);
    if 0 <= pos {
      forall i | 0 <= i < |rs| && i != pos
        ensures rs[i].id != id
      {
        assert ProductId(rs[i]) != ProductId(rs[pos]);
      }
      var v := IndexWhere(rs, Visible(id));
      if 0 <= v {
        assert v == pos;
      }
    }
  }

  /** update_product keeps the record at its position, leaves the others alone, and makes
      the new values visible to get_product (the status is reset to NORMAL). */
  lemma {:induction false} UpdateProductVisible(rs: seq<Product>, name: string, id: int, price: real, stock: int)
    requires KeysDistinct(rs, ProductId)
    ensures var w := UpdateProductAt(rs, name, id, price, stock);
            && |w.records| == |rs|
            && (w.code == OK <==> exists i | 0 <= i < |rs| :: rs[i].id == id)
            && (w.code == OK ==> ProductById(w.records, id) == Some(NewProduct(name, price, stock, id)))
            && forall i | 0 <= i < |rs| && rs[i].id != id :: w.records[i] == rs[i]
  {
    var pos := IndexWhere(rs, HasId(id));
    var w := UpdateProductAt(rs, name, id, price, stock);
    if exists i | 0 <= i < |rs| :: rs[i].id == id {
      var i :| 0 <= i < |rs| && rs[i].id == id;
      assert HasId(id)(rs[i]);
    }
    if 0 <= pos {
      var p := NewProduct(name, price, stock, id);
      assert Visible(id)(w.records[pos]);
    }
  }

  /** Round trip: a product appended under the id the header issued is what get_product
      returns for that id. */
  lemma {:induction false} AddThenGetProduct(rs: seq<Product>, next: int, name: string, price: real, stock: int)
    requires KeysBelow(rs, ProductId, next)
    ensures ProductById(rs + [NewProduct(name, price, stock, next)], next) == Some(NewProduct(name, price, stock, next))
  {
    forall j | 0 <= j < |rs|
      ensures !Visible(next)(rs[j])
    {
      assert ProductId(rs[j]) < next;
    }
    IndexWhereAfterAppend(rs, Visible(next), NewProduct(name, price, stock, next));
  }

  // ---------------------------------------------------------------------------
  // The byte image of the file, for get_id_by_name

  /** How records are laid out as bytes: a header of `headerSize` bytes and records of
      `recordSize` bytes, with an encoding that decodes back. */
  datatype Layout = Layout(headerSize: nat, recordSize: nat,
                           encodeHeader: int -> seq<bv8>,
                           encode: Product -> seq<bv8>,
                           decode: seq<bv8> -> Product)

  ghost predicate ValidLayout(l: Layout) {
    && 0 < l.headerSize < l.recordSize
    && (forall n :: |l.encodeHeader(n)| == l.headerSize)
    && (forall p :: |l.encode(p)| == l.recordSize)
    && (forall p :: l.decode(l.encode(p)) == p)
  }

  /** The header image: the first headerSize bytes of a counted file. */
  function HeaderBytes(l: Layout, next: int): (b: seq<bv8>)
    requires ValidLayout(l)
    ensures |b| == l.headerSize
  {
    l.encodeHeader(next)
  }

  /** The records' images, back to back. */
  function Concat(l: Layout, rs: seq<Product>): seq<bv8> {
    if rs == [] then [] else l.encode(rs[0]) + Concat(l, rs[1..])
  }

  /** The whole file: the header image (when there is one), then the records. */
  function FileBytes(l: Layout, header: Option<int>, rs: seq<Product>): seq<bv8> {
    (if header.Some? then l.encodeHeader(header.value) else []) + Concat(l, rs)
  }

  /** Reading record-sized frames from the start of `bytes` until a read comes up short:
      the id of the first decoded frame with this name. */
  function ScanFrames(l: Layout, bytes: seq<bv8>, name: string): Option<int>
    requires l.recordSize > 0
    decreases |bytes|
  {
    if |bytes| < l.recordSize then None
    else
      var p := l.decode(bytes[..l.recordSize]);
      if p.name == name then Some(p.id) else ScanFrames(l, bytes[l.recordSize..], name)
  }

  /** The id of the first product in `ps` with this name. */
  function FirstIdNamed(ps: seq<Product>, name: string): Option<int> {
    var i := IndexWhere(ps, HasName(name));
    if i < 0 then None else Some(ps[i].id)
  }

  /** The frames a scan from offset 0 decodes when `carry` (header-sized) precedes the
      records: each frame straddles the tail of one block and the head of the next record. */
  function Straddled(l: Layout, carry: seq<bv8>, rs: seq<Product>): (r: seq<Product>)
    requires ValidLayout(l) && |carry| == l.headerSize
    ensures |r| == |rs|
    decreases |rs|
  {
    if rs == [] then []
    else
      var e := l.encode(rs[0]);
      [l.decode(carry + e[..l.recordSize - l.headerSize])] +
        Straddled(l, e[l.recordSize - l.headerSize..], rs[1..])
  }

  lemma {:induction false} FirstIdNamedCons(p: Product, ps: seq<Product>, name: string)
    ensures FirstIdNamed([p] + ps, name) == if p.name == name then Some(p.id) else FirstIdNamed(ps, name)
  {
    assert ([p] + ps)[1..] == ps;
  }

  /** A scan aligned on record boundaries decodes exactly the records. */
  lemma {:induction false} AlignedScan(l: Layout, rs: seq<Product>, name: string)
    requires ValidLayout(l)
    ensures ScanFrames(l, Concat(l, rs), name) == FirstIdNamed(rs, name)
  {
    if rs != [] {
      var e := l.encode(rs[0]);
      var bytes := Concat(l, rs);
      assert bytes[..l.recordSize] == e;
      assert bytes[l.recordSize..] == Concat(l, rs[1..]);
      AlignedScan(l, rs[1..], name);
      FirstIdNamedCons(rs[0], rs[1..], name);
      assert [rs[0]] + rs[1..] == rs;
    }
  }

  /** A frame of R bytes read at the start of `carry + e + rest` takes all of `carry` and
      the head of `e`; what follows it is the tail of `e`, then `rest`. */
  lemma FrameSplit(carry: seq<bv8>, e: seq<bv8>, rest: seq<bv8>, H: int, R: int)
    requires 0 < H < R && |carry| == H && |e| == R
    ensures (carry + (e + rest))[..R] == carry + e[..R - H]
    ensures (carry + (e + rest))[R..] == e[R - H..] + rest
  {
  }

  /** A scan that starts inside the header reads one frame per record, each made of the
      previous block's last headerSize bytes and the record's first bytes; the last
      headerSize bytes of the file are never read. */
  lemma {:induction false} MisalignedScan(l: Layout, carry: seq<bv8>, rs: seq<Product>, name: string)
    requires ValidLayout(l) && |carry| == l.headerSize
    ensures ScanFrames(l, carry + Concat(l, rs), name) == FirstIdNamed(Straddled(l, carry, rs), name)
    decreases |rs|
  {
    var R, H := l.recordSize, l.headerSize;
    if rs != [] {
      var e := l.encode(rs[0]);
      var rest := Concat(l, rs[1..]);
      var bytes := carry + (e + rest);
      assert carry + Concat(l, rs) == bytes;
      FrameSplit(carry, e, rest, H, R);
      var p := l.decode(carry + e[..R - H]);
      assert ScanFrames(l, bytes, name) == if p.name == name then Some(p.id) else ScanFrames(l, e[R - H..] + rest, name);
      MisalignedScan(l, e[R - H..], rs[1..], name);
      assert Straddled(l, carry, rs) == [p] + Straddled(l, e[R - H..], rs[1..]);
      FirstIdNamedCons(p, Straddled(l, e[R - H..], rs[1..]), name);
    }
  }

  // ---------------------------------------------------------------------------
  // The manager

  class ProductManager {
    const file: RecordFile<Product>
    var productList: seq<Product>
    var isLoaded: bool

    /** Constructing a manager runs init_db_file on its file; nothing is loaded yet. */
    constructor (file: RecordFile<Product>, readOpens: bool, writeOpens: bool)
      modifies file
      ensures this.file == file && productList == [] && !isLoaded
      ensures (!readOpens || old(file.IsEmpty())) && writeOpens ==> file.header == Some(1) && file.records == []
      ensures !((!readOpens || old(file.IsEmpty())) && writeOpens) ==>
                file.header == old(file.header) && file.records == old(file.records)
    {
      this.file := file;
      productList := [];
      isLoaded := false;
      new;
      file.InitHeader(readOpens, writeOpens);
    }

    /** get_product_list_ptr: the loaded list, only once a load has completed. */
    function ProductListPtr(): (r: Option<seq<Product>>)
      reads this
      ensures r.Some? <==> isLoaded
      ensures r.Some? ==> r.value == productList
    {
      if isLoaded then Some(productList) else None
    }

    /** check_stock: mark every record with stock 0 OUT_OF_STOCK, in place, during one scan. */
    method CheckStock(opens: bool) returns (e: FileErrorCode)
      modifies file`records
      ensures opens ==> e == OK && file.records == CheckStockAt(old(file.records))
      ensures !opens ==> e == OpenFailure && file.records == old(file.records)
    {
      if !opens {
        return OpenFailure;
      }
      var i := 0;
      while i < |file.records|
        invariant 0 <= i <= |file.records| == |old(file.records)|
        invariant forall j | 0 <= j < i :: file.records[j] == Restock(old(file.records)[j])
        invariant forall j | i <= j < |file.records| :: file.records[j] == old(file.records)[j]
      {
        var temp := file.records[i];
        if temp.stock == 0 && temp.status != OutOfStock {
          temp := temp.(status := OutOfStock);
          file.RewriteAt(i, temp);
        }
        i := i + 1;
      }
      return OK;
    }

    /** load_product: run check_stock (OpenFailure, with nothing else touched, if it fails),
        then load every record, deleted ones included, in file order. */
    method LoadProduct(opens: bool) returns (e: FileErrorCode)
      modifies this, file`records
      ensures opens ==> && e == OK && file.records == CheckStockAt(old(file.records))
                        && productList == file.records && isLoaded
      ensures !opens ==> && e == OpenFailure && file.records == old(file.records)
                         && productList == old(productList) && isLoaded == old(isLoaded)
    {
      var checked := CheckStock(opens);
      if checked != OK {
        return OpenFailure;
      }
      isLoaded := false;
      productList := [];
      var i := 0;
      while i < |file.records|
        invariant file.records == CheckStockAt(old(file.records))
        invariant 0 <= i <= |file.records|
        invariant productList == file.records[..i]
      {
        productList := productList + [file.records[i]];
        i := i + 1;
      }
      isLoaded := true;
      return OK;
    }

    /** add_product: a fresh header id (WriteFailure without one), then one NORMAL record
        appended with the given name, price and stock. */
    method AddProduct(name: string, price: real, stock: int, opens: bool) returns (e: FileErrorCode)
      modifies file
      ensures var issued := if opens && old(file.header).Some? then old(file.header).value else -1;
              && file.header == (if !(opens && old(file.header).Some?) then old(file.header) else Some(issued + 1))
              && (e == OK <==> issued != -1)
              && (e != OK ==> e == WriteFailure && file.records == old(file.records))
              && (e == OK ==> file.records == old(file.records) + [NewProduct(name, price, stock, issued)])
      ensures IdsFresh(old(file.header), old(file.records), ProductId) ==> IdsFresh(file.header, file.records, ProductId)
    {
      ghost var wasFresh := IdsFresh(file.header, file.records, ProductId);
      var id := file.GenerateId(opens);
      if id == -1 {
        return WriteFailure;
      }
      var temp := NewProduct(name, price, stock, id);
      if wasFresh {
        AppendFreshId(id, file.records, temp, ProductId);
      }
      file.Append(temp);
      return OK;
    }

    /** get_product_pos: the position of the first record with this id, whatever its status. */
    method GetProductPos(id: int, opens: bool) returns (pos: Option<nat>)
      ensures opens && 0 <= IndexWhere(file.records, HasId(id)) ==> pos == Some(IndexWhere(file.records, HasId(id)) as nat)
      ensures !(opens && 0 <= IndexWhere(file.records, HasId(id))) ==> pos == None
      ensures pos.Some? ==> pos.value < |file.records| && file.records[pos.value].id == id
    {
      if !opens {
        return None;
      }
      var i := file.FindFirst(HasId(id));
      pos := if i < 0 then None else Some(i as nat);
    }

    /** delete_product: flip the record at get_product_pos to DELETED when it is NORMAL. */
    method DeleteProduct(id: int, opens: bool) returns (e: FileErrorCode)
      modifies file`records
      ensures opens ==> Written(e, file.records) == DeleteProductAt(old(file.records), id)
      ensures !opens ==> e == OpenFailure && file.records == old(file.records)
    {
      if !opens {
        return OpenFailure;
      }
      var pos := GetProductPos(id, opens);
      if pos.None? {
        return NotFound;
      }
      var temp := file.records[pos.value];
      if temp.status == Normal {
        temp := MarkDeleted(temp);
      } else {
        return NotFound;
      }
      file.RewriteAt(pos.value, temp);
      return OK;
    }

    /** update_product: overwrite the record at get_product_pos with a new NORMAL product. */
    method UpdateProduct(name: string, id: int, price: real, stock: int, opens: bool) returns (e: FileErrorCode)
      modifies file`records
      ensures opens ==> Written(e, file.records) == UpdateProductAt(old(file.records), name, id, price, stock)
      ensures !opens ==> e == OpenFailure && file.records == old(file.records)
      ensures IdsFresh(file.header, old(file.records), ProductId) ==> IdsFresh(file.header, file.records, ProductId)
    {
      if !opens {
        return OpenFailure;
      }
      var pos := GetProductPos(id, opens);
      if pos.None? {
        return NotFound;
      }
      var temp := NewProduct(name, price, stock, id);
      if IdsFresh(file.header, file.records, ProductId) {
        RewriteKeepsIds(file.header.value, file.records, pos.value, temp, ProductId);
      }
      file.RewriteAt(pos.value, temp);
      return OK;
    }

    /** get_product: the first record with this id that is not DELETED. */
    method GetProduct(id: int, opens: bool) returns (r: Option<Product>)
      ensures r == (if opens then ProductById(file.records, id) else None)
      ensures r.Some? ==> r.value in file.records && r.value.id == id && r.value.status != Deleted
    {
      if !opens {
        return None;
      }
      var pos := file.FindFirst(Visible(id));
      r := At(file.records, pos);
    }

    /** get_price_by_id: the price of the product get_product finds, otherwise -1. */
    method GetPriceById(id: int, opens: bool) returns (price: real)
      ensures price == (if opens then PriceById(file.records, id) else -1.0)
    {
      var p := GetProduct(id, opens);
      if p.Some? {
        return p.value.price;
      }
      return -1.0;
    }

    /** get_id_by_name: reads record-sized frames starting at offset 0, without skipping the
        header, and returns the id decoded from the first frame whose name matches. */
    method GetIdByName(name: string, layout: Layout, opens: bool) returns (r: Option<int>)
      requires ValidLayout(layout)
      ensures !opens ==> r == None
      ensures opens && file.header.Some? ==>
                r == FirstIdNamed(Straddled(layout, HeaderBytes(layout, file.header.value), file.records), name)
      ensures opens && file.header.None? ==> r == FirstIdNamed(file.records, name)
    {
      if !opens {
        return None;
      }
      var bytes := FileBytes(layout, file.header, file.records);
      var off := 0;
      while off + layout.recordSize <= |bytes|
        invariant 0 <= off <= |bytes|
        invariant ScanFrames(layout, bytes[off..], name) == ScanFrames(layout, bytes, name)
      {
        var temp := layout.decode(bytes[off..off + layout.recordSize]);
        assert bytes[off..][..layout.recordSize] == bytes[off..off + layout.recordSize];
        assert bytes[off..][layout.recordSize..] == bytes[off + layout.recordSize..];
        if temp.name == name {
          r := Some(temp.id);
          break;
        }
        off := off + layout.recordSize;
      }
      if off + layout.recordSize > |bytes| {
        r := None;
      }
      if file.header.Some? {
        MisalignedScan(layout, HeaderBytes(layout, file.header.value), file.records, name);
      } else {
        AlignedScan(layout, file.records, name);
        assert bytes == Concat(layout, file.records);
      }
    }
  }
}

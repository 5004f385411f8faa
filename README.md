# ShoppingApp model layer in Dafny

This project models the storage and order-lifecycle core of ShoppingApp, a terminal
shopping application. Every entity lives in a flat binary file of fixed-size records.

- **Counted files.** The user and product files start with a `FileHeader` holding `next_id`.
  `generate_and_update_id` reads it, increments it and writes it back.
- **Header-less files.** The cart and order files have no header and are read from offset 0.
- **Updates.** Records are found by sequential scans and rewritten in place at their position.
- **Deletion.** Nothing is ever removed: users, products and cart rows are soft-deleted by a
  status flip. Users can be restored, and cart rows can be revived.

The module layout follows the source files:

| module | file | models |
|---|---|---|
| `RecordFiles` | `record_file.dfy` | The shared file shape: `RecordFile<T>`, an optional header (`next_id`) and a `seq` of records whose index is the record's position. It holds the scans, the in-place rewrite, the append and the id counter, plus the identity discipline (`IdsFresh`: ids are below `next_id` and distinct). |
| `Users` | `users.dfy` | `User`, the format validators, registration, login and logout, lookups, search, and delete/restore/update. |
| `Products` | `products.dfy` | `Product` (with `stock` and `OUT_OF_STOCK`), the out-of-stock scan, the product list, lookups and prices. It also models the byte-level scan of `get_id_by_name`. |
| `Carts` | `carts.dfy` | `CartItem`, `find_item`, and add (merge / revive / append), update, delete and checkout. |
| `Orders` | `orders.dfy` | `OrderItem`, `FullOrder`, the lines `add_order` writes, and the per-order grouping and totals of `load_full_orders`. |
| `HistoryOrders` | `history_orders.dfy` | `update_status_in_file`, the delivery clock of `check_and_update_arrived_orders`, and the history grouping of `load_history_orders`. |
| `FixedStrings` | `fixed_string.dfy` | `FixedString<N>` as a class over a `char` array (memset/memcpy loops). `Fit(s, N)` is the string such a buffer holds after assigning `s`. |
| `TimeUtils` | `time_utils.dfy` | `add_days_to_time`. |

## How the model works

- **Managers are classes.** Each manager is a `class` whose methods change its file's `records` (and
  `header`), and its own list, map and `is_loaded` fields, in place.
- **Specification functions.** What a method does to the file is stated against a pure function on
  record sequences: `DeleteUserAt`, `CheckStockAt`, `AddItemTo`, `CheckoutRows`, `GroupOrders`,
  `ArrivedUpdate`, `GroupHistory`, and so on. Lemmas then prove what the source promises about
  those functions.
- **Environment inputs.** File-open failures are a boolean `opens` argument. It means "every open of
  this file during the call succeeds". The clock is a `now` argument.
- **Hashing.** The password hash and the password check are uninterpreted function values held by
  the user manager.
- **Prices.** Prices are `real`.

Where the specification and the code disagree, the model follows the code:

- **Product fields.** `Product` has a `stock` field and an `OUT_OF_STOCK` status, and is built by
  `Product(name, price, stock, id)` with status NORMAL. This is what model/ProductManager.cpp
  uses at lines 30, 36, 160 and 235. The declaration in model/ProductManager.h lacks both.
- **`add_order` signature.** `add_order` follows the declaration in model/OrderManager.h:109-110,
  which takes an address, and the seven-argument `OrderItem` constructor. Lines start
  NOT_COMPLETED and take their user from the cart row.
- **History file and map types.** The history manager works on the order file with
  `OrderItem` lines and `FullOrder` entries, as model/HistoryOrderManager.cpp does. The header
  names `m_db_filename` and `HistoryFullOrder` instead.

## Model

| member | source | states |
|---|---|---|
| `TimeUtils.AddDaysToTime` | ui_utils/Utils.h:45-47 | the result differs from the base by exactly `days` whole days of 86400 s, and is not earlier than the base iff `days >= 0`; defined for day counts whose product with 86400 fits a 32-bit int |
| `TimeUtils.AddZeroDays` | ui_utils/Utils.h:46 | adding 0 days is the identity |
| `TimeUtils.AddDaysCompose` | ui_utils/Utils.h:45 | adding a days, then b days, equals adding a + b days |
| `TimeUtils.AddDaysMonotone` | ui_utils/Utils.h:47 | for a fixed base, more days gives a later (never earlier) instant, both directions |
| `FixedStrings.CStr` | model_utils/FixedString.h:50 | the string_view of a buffer is its prefix before the first NUL: NUL-free and followed by NUL when shorter than the buffer |
| `FixedStrings.ImageShape` | model_utils/FixedString.h:13-15 | the buffer `assign` leaves has N bytes, holds the copied prefix of min(\|s\|, N-1) characters, is NUL past it, ends in NUL, and reads back as `Fit(s, N)` |
| `FixedStrings.FitBounds` | model_utils/FixedString.h:14 | a stored string has at most N-1 characters and is a prefix of the assigned one; a NUL-free string that fits is kept whole |
| `FixedStrings.FixedString.constructor` | model_utils/FixedString.h:22 | the default constructor zeroes the buffer, so the string is empty with length 0 |
| `FixedStrings.FixedString.FromString` | model_utils/FixedString.h:25 | constructing from a string assigns it |
| `FixedStrings.FixedString.Assign` | model_utils/FixedString.h:12-16 | after memset and memcpy the buffer equals the padded image of the assigned string and its view is `Fit(s, N)` |
| `FixedStrings.FixedString.View` | model_utils/FixedString.h:49-50 | the view has at most N-1 characters, equals the buffer's prefix and is followed by a NUL |
| `FixedStrings.FixedString.Length` | model_utils/FixedString.h:27-30 | `length()` is the index of the first NUL: every earlier byte is non-NUL, and it is at most N-1 |
| `FixedStrings.FixedString.Empty` | model_utils/FixedString.h:32 | `empty()` holds iff the length is 0 |
| `FixedStrings.FixedString.Capacity` | model_utils/FixedString.h:34 | `capacity()` is the buffer size N, always larger than the length |
| `FixedStrings.FixedString.Plus` | model_utils/FixedString.h:42-47 | `fs + str` is the stored string followed by `str` |
| `RecordFiles.IndexWhere` | model/UserManager.cpp:420-427 | a scan's result is the first position whose record matches, or -1 when no record matches |
| `RecordFiles.Filter` | model/CartManager.cpp:27-40 | a collecting scan keeps exactly the matching records of the file |
| `RecordFiles.AppendFreshId` | model/UserManager.cpp:141-146 | appending a record under the id the header issued keeps all ids distinct and below the new `next_id` |
| `RecordFiles.RewriteKeepsIds` | model/UserManager.cpp:192-200 | rewriting a record in place with one that keeps its id keeps the id discipline |
| `RecordFiles.RecordFile.InitHeader` | model/UserManager.cpp:20-35 | a header with `next_id = 1` is written only when the file is unreadable or empty (and can be written); otherwise nothing changes |
| `RecordFiles.RecordFile.GenerateId` | model/ProductManager.cpp:76-98 | returns the old `next_id` and stores `next_id + 1`; -1 and no change when the file cannot be opened (or, in this model only, holds no header) |
| `RecordFiles.RecordFile.Append` | model/UserManager.cpp:159-165 | one record is written past the end |
| `RecordFiles.RecordFile.RewriteAt` | model/UserManager.cpp:192-200 | the record at the position is replaced and nothing moves |
| `RecordFiles.RecordFile.FindFirst` | model/UserManager.cpp:229-234 | the scan loop returns the first matching position, or -1 when nothing matches |
| `Users.NewUserDefaults` | model/UserManager.h:37-41 | a user built without id and status has id -1, status NORMAL, is not admin, and keeps at most 16 characters of its name |
| `Users.LookupsSkipDeleted` | model/UserManager.cpp:255-259 | lookups by name and by id find a user iff some NORMAL record matches, and what they return is such a record; deleted users are never returned |
| `Users.UsernameFormatAsWritten` | model/UserManager.cpp:80-95 | the username check as written: empty, longer than 17, or shorter than 3 fail with their messages; every other name passes |
| `Users.UsernameAcceptedButTruncated` | model/UserManager.h:28 | a 17-character name passes the check as written but is stored cut to 16 characters |
| `Users.UsernameFormat` | model/UserManager.cpp:85-87 | the corrected username check: names of 3 to 16 characters pass; each failure reason holds iff its length condition does |
| `Users.UsernameFormatFits` | model/UserManager.h:19 | every NUL-free name the corrected check accepts is stored unchanged |
| `Users.PasswordFormat` | model/UserManager.cpp:97-111 | passwords of 6 to 17 characters pass; empty, too long and too short fail with their own reason, each iff its condition holds |
| `Users.DeleteUserChangesOnlyStatus` | model/UserManager.cpp:347-364 | deletion succeeds iff the first record with the id is NORMAL; it flips only that record's status, keeps the record count, and the user then disappears from id lookups at or before that position |
| `Users.DeleteTwiceNotFound` | model/UserManager.cpp:356-361 | deleting again reports NotFound and changes nothing |
| `Users.DeleteRestoreRoundTrip` | model/UserManager.cpp:390-395 | restoring a just-deleted user succeeds and gives back the original records |
| `Users.RestoreDeleteRoundTrip` | model/UserManager.cpp:379-399 | deleting a just-restored user gives back the original records, and restoring twice reports NotFound |
| `Users.UpdateUserStable` | model/UserManager.cpp:184-200 | an update succeeds iff a record has the id, keeps the record count, and puts the new record at the position of the first record with that id, where later scans find it |
| `Users.AppendThenGetById` | model/UserManager.cpp:141-146 | a NORMAL user appended under the issued id is what a lookup by that id returns |
| `Users.Find` | model/UserManager.cpp:325-327 | `std::string::find`: the first position at which the query occurs, or -1 (npos) when it occurs nowhere |
| `Users.SearchAsWrittenMissesPrefix` | model/UserManager.cpp:327 | with `find` used as a truth value, the query "ab" leaves out the user "abc" and lists the user "zzz" |
| `Users.ListedByQuerySpec` | model/UserManager.cpp:319-328 | the corrected test lists a user iff the query is empty, equals its decimal id, or occurs in its name |
| `Users.UserManager.constructor` | model/UserManager.h:82-84 | constructing a manager runs header initialisation and leaves no active user |
| `Users.UserManager.CheckPassword` | model/UserManager.h:72-78 | SUCCESS iff the opaque password check accepts |
| `Users.UserManager.Logout` | model/UserManager.h:102 | afterwards `get_current_user` returns none |
| `Users.UserManager.GenerateAndUpdateId` | model/UserManager.cpp:37-59 | returns the old `next_id` and advances the header by one; -1 when the file cannot be opened |
| `Users.UserManager.GetUserByName` | model/UserManager.cpp:214-239 | the first NORMAL user with the name, none when the file cannot be opened |
| `Users.UserManager.GetUserById` | model/UserManager.cpp:241-265 | the first NORMAL user with the id, none when the file cannot be opened |
| `Users.UserManager.GetUserPos` | model/UserManager.cpp:404-432 | the index of the first record with the id, whatever its status; none when there is no such record |
| `Users.UserManager.GetIdByUsername` | model/UserManager.cpp:434-468 | the id of the first record with the name, deleted or not; -1 when none or when the file cannot be opened |
| `Users.UserManager.SearchUser` | model/UserManager.cpp:267-298 | the number of NORMAL users whose name starts with the keyword |
| `Users.UserManager.SearchUsersList` | model/UserManager.cpp:300-334 | the records the corrected query test selects (deleted ones included), in file order; all records for an empty query |
| `Users.UserManager.CheckLogin` | model/UserManager.cpp:61-78 | SUCCESS iff a NORMAL user has the name and the password check accepts its stored hash; that user then becomes the active user, otherwise the active user is unchanged |
| `Users.UserManager.AppendUser` | model/UserManager.cpp:139-173 | on success exactly one record is appended, carrying the freshly issued id; an id of -1 gives OpenFailure without a write; id freshness is preserved |
| `Users.UserManager.UpdateUser` | model/UserManager.cpp:175-212 | the file becomes `UpdateUserAt` of the old records (NotFound without a record with that id); OpenFailure without change when the file cannot be opened |
| `Users.UserManager.DeleteUser` | model/UserManager.cpp:336-369 | the file and result are `DeleteUserAt` of the old records |
| `Users.UserManager.RestoreUser` | model/UserManager.cpp:371-402 | the file and result are `RestoreUserAt` of the old records |
| `Users.UserManager.CheckRegister` | model/UserManager.cpp:113-137 | passes iff both formats pass, the name is free and the passwords agree; the first failing format check is reported; nothing is written on failure; on success the header advances to `next_id + 1` and one non-admin user holding the hash is appended under the old `next_id` (nothing is appended when no id can be issued, the -1 header included); ids stay distinct and below `next_id` |
| `Products.NewProductDefaults` | model/ProductManager.h:27-29 | a product built without status is NORMAL and keeps its price, stock and id; its name keeps at most 99 characters |
| `Products.MarkDeleted` | model/ProductManager.h:56-58 | `mark_deleted` sets DELETED and changes no other field |
| `Products.ProductByIdSpec` | model/ProductManager.cpp:268-273 | a lookup finds a product iff some record with the id is not DELETED (OUT_OF_STOCK included), and returns such a record; the price comes from it, else -1 |
| `Products.CheckStockSpec` | model/ProductManager.cpp:29-51 | after the scan no record has stock 0 without OUT_OF_STOCK, records with stock are unchanged, only statuses change, and a second run changes nothing |
| `Products.CheckStockResurfacesDeleted` | model/ProductManager.cpp:30 | the scan also flips a DELETED product with stock 0 to OUT_OF_STOCK, making it visible to `get_product` again |
| `Products.DeleteProductHides` | model/ProductManager.cpp:182-201 | with distinct ids, deletion succeeds iff the product is found and NORMAL (OUT_OF_STOCK is refused); it hides the product and touches no other record |
| `Products.UpdateProductVisible` | model/ProductManager.cpp:219-237 | an update succeeds iff the id is present, leaves other records alone, and makes the new NORMAL product what `get_product` returns |
| `Products.AddThenGetProduct` | model/ProductManager.cpp:148-163 | a product appended under the issued id is what `get_product` returns for it |
| `Products.AlignedScan` | model/ProductManager.cpp:294-303 | record-sized frames read from the start of a header-less byte image decode exactly the records |
| `Products.MisalignedScan` | model/ProductManager.cpp:292-303 | reading frames from offset 0 of a file with a header decodes one frame per record, each made of the last header-size bytes of the previous block and the head of the record |
| `Products.ProductManager.constructor` | model/ProductManager.h:61-64 | constructing a manager runs header initialisation; nothing is loaded |
| `Products.ProductManager.ProductListPtr` | model/ProductManager.h:70-75 | the list is available iff a load has completed |
| `Products.ProductManager.CheckStock` | model/ProductManager.cpp:17-57 | the file becomes `CheckStockAt` of the old records, rewritten in place during the scan; OpenFailure without change otherwise |
| `Products.ProductManager.LoadProduct` | model/ProductManager.cpp:100-144 | runs the stock scan first (OpenFailure, nothing loaded, if it fails); then the list is every record in file order, deleted ones included, and the list is marked loaded |
| `Products.ProductManager.AddProduct` | model/ProductManager.cpp:146-172 | appends one NORMAL record under the freshly issued id; without an id it gives WriteFailure and no write; id freshness is preserved |
| `Products.ProductManager.GetProductPos` | model/ProductManager.cpp:310-339 | the index of the first record with the id, whatever its status |
| `Products.ProductManager.DeleteProduct` | model/ProductManager.cpp:174-206 | the file and result are `DeleteProductAt` of the old records |
| `Products.ProductManager.UpdateProduct` | model/ProductManager.cpp:208-249 | the file and result are `UpdateProductAt` of the old records; id freshness is preserved |
| `Products.ProductManager.GetProduct` | model/ProductManager.cpp:251-279 | the first record with the id that is not DELETED |
| `Products.ProductManager.GetPriceById` | model/ProductManager.h:94-102 | the price of what `get_product` finds, otherwise -1 |
| `Products.ProductManager.GetIdByName` | model/ProductManager.cpp:281-308 | the id decoded from the first frame whose name matches, reading frames from offset 0 without skipping the header; none when the file cannot be opened |
| `Carts.NewCartItemDefaults` | model/CartManager.h:28-32 | a row built with the defaults is NOT_ORDERED with selection -1 and keeps its count |
| `Carts.MarkDeleted` | model/CartManager.h:50-52 | `mark_deleted` changes only the status |
| `Carts.FindItemIn` | model/CartManager.cpp:63-79 | the first row of the user and product whose status is one of the targets, with its index; -1 and the zeroed row when none matches |
| `Carts.AddItemMerges` | model/CartManager.cpp:93-103 | with a live row, find_item then reports that same row, at its index, with count old + count and its selection kept; it stays the only live row of the pair, and no other row changes |
| `Carts.AddItemRevives` | model/CartManager.cpp:106-116 | with no live row, the first deleted row of the pair, at its index, becomes the single live row with the new count and keeps its old selection; no other row changes |
| `Carts.AddItemAppends` | model/CartManager.cpp:119-135 | with no row for the pair, find_item then reports the appended row at the old end of the file: NOT_ORDERED with selection -1; no existing row changes |
| `Carts.AddItemSpec` | model/CartManager.cpp:82-136 | `add_item` leaves exactly one live row for the pair: at the live row's index with old + new count and its selection, else at the first deleted row's index with the new count and that row's old selection, else appended with selection -1; it adds a row iff the file had no row for the pair, and changes no other row |
| `Carts.ReAddAfterCheckoutSelected` | model/CartManager.cpp:109-113 | adding again a product whose row checkout took (DELETED with its selection kept) revives it already ticked, so the next checkout takes it |
| `Carts.UpdateItemSpec` | model/CartManager.cpp:163-184 | NotFound iff no row has the status; otherwise the row is replaced at its index; one live row per pair is kept |
| `Carts.DeleteItemSpec` | model/CartManager.cpp:201-219 | NotFound iff there is no live row; otherwise the live row becomes DELETED with its count and selection -1, the pair has no live row left, and no other row changes |
| `Carts.CheckoutSpec` | model/CartManager.cpp:238-251 | checkout flips exactly the user's selected NOT_ORDERED rows to DELETED and returns them; every other row is unchanged, the user's unselected ones included; one live row per pair is kept |
| `Carts.CheckoutIdempotent` | model/CartManager.cpp:240-241 | a second checkout returns nothing and changes nothing |
| `Carts.LoadCartIgnoresUser` | model/CartManager.cpp:27-39 | the loaded list holds exactly the NOT_ORDERED rows of all users |
| `Carts.CartManager.constructor` | model/CartManager.h:58-59 | constructing a manager touches no file; nothing is loaded |
| `Carts.CartManager.CartListPtr` | model/CartManager.h:65-70 | the list is available iff a load has completed |
| `Carts.CartManager.LoadCart` | model/CartManager.cpp:13-47 | clears the list first; on success the list is every NOT_ORDERED row in file order and is marked loaded; OpenFailure leaves it empty and unloaded |
| `Carts.CartManager.FindItem` | model/CartManager.cpp:49-80 | the nested scan returns what `FindItemIn` gives, or -1 and the zeroed row when the file cannot be opened |
| `Carts.CartManager.UpdateItemAtPos` | model/CartManager.cpp:138-156 | the row at the position is overwritten; OpenFailure without change |
| `Carts.CartManager.AddItem` | model/CartManager.cpp:82-136 | the file becomes `AddItemTo` of the old rows; OpenFailure without change when the file cannot be opened |
| `Carts.CartManager.UpdateItem` | model/CartManager.cpp:158-196 | the file and result are `UpdateItemIn` of the old rows; the selection defaults to -1 |
| `Carts.CartManager.DeleteItem` | model/CartManager.cpp:198-224 | the file and result are `DeleteItemIn` of the old rows |
| `Carts.CartManager.Checkout` | model/CartManager.cpp:226-254 | in one pass the file becomes `CheckoutRows` of the old rows, and the returned rows are the selected rows as rewritten, in file order |
| `Orders.FreshFullOrder` | model/OrderManager.h:38-46 | a new entry has total 0, status NOT_COMPLETED and no items |
| `Orders.DeliveryChoices` | model/OrderManager.h:48-52 | there are three surcharges, 0 < 3 < 6, and the three statuses are distinct |
| `Orders.OrderLinesSpec` | model/OrderManager.cpp:72-81 | one line per cart row, in order: each has the shared time and order id time + user, copies user, product, count and selection, and is NOT_COMPLETED |
| `Orders.CheckoutThenOrder` | model/OrderManager.cpp:76-80 | ordering what checkout returns gives lines of that user only, all under order id now + user, each with a ticked delivery option |
| `Orders.GroupOrdersKeys` | model/OrderManager.cpp:32-52 | the map's keys are exactly the order ids of the user's lines |
| `Orders.GroupOrdersEntries` | model/OrderManager.cpp:34-51 | each entry carries its id, is NOT_COMPLETED, holds its order's lines in file order, and totals count × price + surcharge over them |
| `Orders.OrderManager.constructor` | model/OrderManager.h:92-93 | a new manager has an empty, unloaded map |
| `Orders.OrderManager.OrdersMapPtr` | model/OrderManager.h:101-106 | the map is available iff a load has completed |
| `Orders.OrderManager.LoadFullOrders` | model/OrderManager.cpp:17-60 | clears the map; on success it is `GroupOrders` of the file under `get_price_by_id` and is marked loaded; OpenFailure leaves it empty |
| `Orders.OrderManager.AddOrder` | model/OrderManager.cpp:62-97 | OpenFailure and no write when the cart file or the order file cannot be opened; otherwise exactly `OrderLines` of the cart is appended |
| `HistoryOrders.HistoryItemSnapshot` | model/HistoryOrderManager.h:27-33 | a snapshot keeps its price and a prefix of the product name, and its order id is derived as an order line's |
| `HistoryOrders.UpdateStatusSpec` | model/HistoryOrderManager.cpp:27-43 | every line of the order ends with the new status and other lines are untouched; OK iff something changed; an immediate repeat reports NotFound and changes nothing |
| `HistoryOrders.DeliveryDays` | model/HistoryOrderManager.cpp:62-66 | every selection, valid or not, gives between 0 and 5 delivery days (0 outside the table) |
| `HistoryOrders.ArrivalIsAddDays` | model/HistoryOrderManager.cpp:69 | arrival is `add_days_to_time` of the order time, at most five days after it |
| `HistoryOrders.DueFromArrival` | model/HistoryOrderManager.cpp:58-72 | a NOT_COMPLETED line of the user is due exactly from its arrival second on, and not one second earlier |
| `HistoryOrders.DueOrderIdsSpec` | model/HistoryOrderManager.cpp:74-83 | the collected ids are exactly the order ids of due lines, without duplicates |
| `HistoryOrders.CompleteAllSpec` | model/HistoryOrderManager.cpp:90-92 | the batch update completes exactly the lines whose order id was collected |
| `HistoryOrders.ArrivedUpdateSpec` | model/HistoryOrderManager.cpp:46-93 | a line becomes COMPLETED iff its order id has a due line of the user; every other line is unchanged |
| `HistoryOrders.ArrivedUpdateIdempotent` | model/HistoryOrderManager.cpp:58-59 | running the arrival check twice at the same instant changes nothing the second time |
| `HistoryOrders.Headed` | model/HistoryOrderManager.cpp:125-136 | the first line of an entry adds its surcharge once and leaves the items alone |
| `HistoryOrders.GroupHistoryKeys` | model/HistoryOrderManager.cpp:111-117 | the history map's keys are exactly the order ids of the user's COMPLETED or CANCEL lines |
| `HistoryOrders.GroupHistorySpec` | model/HistoryOrderManager.cpp:117-137 | each entry holds its order's finished lines in file order, takes time, address and status from the first, and totals Σ count × price plus that first line's surcharge |
| `HistoryOrders.CollectDueOrderIds` | model/HistoryOrderManager.cpp:57-86 | the collecting loop with its de-duplication returns exactly `DueOrderIds` |
| `HistoryOrders.HistoryOrderManager.constructor` | model/HistoryOrderManager.h:80-81 | a new manager has an empty, unloaded map |
| `HistoryOrders.HistoryOrderManager.HistoryMapPtr` | model/HistoryOrderManager.h:105-111 | the map is available iff a load has completed |
| `HistoryOrders.HistoryOrderManager.UpdateStatusInFile` | model/HistoryOrderManager.cpp:15-44 | the file and result are `UpdateStatusIn` of the old lines; OpenFailure without change |
| `HistoryOrders.HistoryOrderManager.CheckAndUpdateArrivedOrders` | model/HistoryOrderManager.cpp:46-93 | the file becomes `ArrivedUpdate` of the old lines at `now`; nothing changes when the file cannot be opened |
| `HistoryOrders.HistoryOrderManager.LoadHistoryOrders` | model/HistoryOrderManager.cpp:95-145 | runs the arrival check, clears the map, then on success the map is `GroupHistory` of the updated lines under `get_price_by_id` and is marked loaded |

## Left out

- `cancel_order`, `update_order_info`, `update_order_in_file` and `update_stock_by_order_id` (model/OrderManager.h) are not modelled. They are declared without bodies.
- `add_history_order`, `cancel_history_order`, `update_history_order_info` and `update_history_order_in_file` (model/HistoryOrderManager.h) are not modelled. They are declared without bodies.
- The user interface, the MySQL layer, the logger and the `data/debug.log` writes are not modelled. They are presentation, foreign libraries or side channels.
- `hash_password` and `check_password` are uninterpreted functions. They stand for OpenSSL calls.
- Stream failures after a successful open are not modelled: seek failures, short writes, and `fail()` after `write`. Only the failure to open a file is modelled, as one boolean per call. So `SeekFailure`, and `WriteFailure` after an open, are never produced.
- `RecordFiles.RecordFile.GenerateId`: a file that opens but holds no header (an empty file whose header write failed in `init_db_file`) gives -1 in the model. The source does not check the header read (model/UserManager.cpp:48-58, model/ProductManager.cpp:84-97): it returns the `next_id` of a `FileHeader` that was never filled (whatever its default initialisation gives; the `FileHeader` definition is not part of this model), writes nothing back because the stream has failed, and when that value is not -1 its caller appends a record under it.
- `Users.UserManager.AppendUser`, `Products.ProductManager.AddProduct`: one open flag covers both the header update and the append, so the model cannot reach the state in which the header open succeeds and advances `next_id` but the append open then fails, burning an id with no record written. In the source that sequence is possible (model/UserManager.cpp:141-163, model/ProductManager.cpp:149-158).
- The byte layout of records and `streampos` arithmetic are modelled only in `get_id_by_name`, whose behaviour depends on them. That model uses an abstract encoder/decoder (`Layout`). Everywhere else a position is an index.
- Integer widths are not modelled: `next_id` and counts are unbounded, and `time_t` arithmetic is exact. A 32-bit `int` overflow in `next_id++`, in `count + count` or in `order_time + user_id` is therefore not represented. The exception is `add_days_to_time`, which is defined only for day counts whose product with 86400 fits an `int`.
- Prices are exact reals, not `double`, so rounding is not modelled.
- `Orders.OrderManager.LoadFullOrders`: requires every line of the user to carry a delivery selection in 0..2. The source indexes `DELIVERY_PRICES` with the stored selection unchecked, which is undefined behaviour for any other value.
- `Orders.OrderManager.AddOrder`: takes the address of the header's signature. The user-id parameter is unused, as in the source, where each line takes its user from the cart row.
- `Users.UserManager.CheckRegister`: the appended user passes through the corrected username check (see Findings), not the one as written.
- `Users.UserManager.SearchUsersList`: uses the corrected substring test (see Findings). The case-folded copy of the query, which the source computes but never uses, is not modelled.
- The grouping maps of `load_full_orders` and `load_history_orders` are `map<int, FullOrder>`. The `std::map` key order is not modelled because no caller depends on it here.
- `get_current_user` returns a value (`Option<User>`), not a shared pointer, so aliasing of the active user is not modelled.

## Findings

| source | as written | input that shows it | evidently intended | confidence | as-written member | corrected member |
|---|---|---|---|---|---|---|
| model/UserManager.cpp:85 | `username.size() > User::MAX_USERNAME_SIZE` rejects only names longer than 17 characters, but `MAX_USERNAME_SIZE` (17) counts the NUL of `FixedString<17>`, which keeps at most 16 | the 17-character name `abcdefghijklmnopq` passes the check and is stored as `abcdefghijklmnop`, so that user cannot log in under the registered name | reject names longer than `MAX_USERNAME_SIZE - 1` (16) characters | high; not executed | `Users.UsernameAcceptedButTruncated` | `Users.UsernameFormatFits` |
| model/UserManager.cpp:327 | `username_str.find(query)` is used as a truth value: it is true for npos (query absent) and for matches past position 0, and false when the name starts with the query | query `ab`: the user `abc` (id 5) is left out and the user `zzz` (id 6) is listed | list the user when the query occurs in its name (`find(query) != npos`) | high; not executed | `Users.SearchAsWrittenMissesPrefix` | `Users.ListedByQuerySpec` |

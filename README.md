# Order store of the "American Pizza" ordering terminal

This project models the record-keeping core of a small console ordering
program. The program keeps four SQLite tables:

- `users`: accounts, with a protected `admin` account;
- `item_counts`: stock counts, seeded once per item;
- `orders`: orders with an AUTOINCREMENT id and a status;
- `deliveries`: at most one delivery flag per order id.

The model also covers the confirmation step that writes orders and
delivery flags once a customer has picked a menu entry.

Each table is a Dafny class. It holds the rows in rowid order as a `seq` and,
for AUTOINCREMENT tables, the counter of the last id handed out. Every
writer is a method whose postcondition ties the new table to a pure
function of the old one (`Registered`, `Renamed`, `Seeded`, `Recounted`,
`Appended`, `WithStatus`, `Upserted`, `Reflagged`). The properties of
those functions are proved as lemmas and as the functions' own
postconditions. Every reader is a function with a `reads` clause.
`Tables` gives the row-level meaning of the two SQL statement shapes used
throughout:

- `fetch_one` returns the first matching row in rowid order;
- `UPDATE ... WHERE` rewrites exactly the matching rows.

Behaviour of the program that the model keeps as written:

- No operation reserves or releases stock, so no path changes `item_counts`.
- A cancelled order gets the status `Deleted`.
- The delivery row written on cancellation belongs to the order that was
  latest before the call. When the `orders` table is empty, that order id
  is NULL.
- `WHERE order_id = NULL` matches nothing in SQL. Every cancellation on an
  empty `orders` table therefore appends another row with a NULL order id.
  UNIQUE admits any number of NULLs.
- Unknown order ids and unseeded items are silent no-ops, not errors.
- Confirming with any delivery answer other than "yes" writes nothing and
  asks again. The pickup branch re-tests the confirmation answer, which
  is already known to be "yes", so that branch can never run.

The `item` column of an order stores the subsection's position in the
menu list (`choice2`), not a stock item id.

## Model

| member | source | states |
|---|---|---|
| Tables.FindFirst | prak4.py:17-19 | fetch_one returns the first row in rowid order that satisfies the WHERE clause, or None exactly when no row does |
| Tables.FindFirstIs | prak4.py:17-19 | a row that matches, with no earlier row matching, is the row fetch_one returns |
| Tables.UpdateWhere | prak4.py:140-143 | an UPDATE ... WHERE rewrites exactly the matching rows and keeps every other row, the length and the order |
| Users.Registered | prak4.py:40-47 | a taken username leaves the table unchanged; a free one gets exactly one new row with the next id, appended after the others; the username is registered afterwards; unique usernames are preserved |
| Users.Renamed | prak4.py:85-89 | for `admin` nothing changes; otherwise only the nickname of rows with that username changes; `admin` rows never change; the invariant is preserved |
| Users.RegisterOnce | prak4.py:99-106 | registering an already registered username again, with any password or nickname, changes nothing, so add_default_admin is idempotent |
| Users.UserDatabase.constructor | prak4.py:29-38 | a newly created users table is empty and valid |
| Users.UserDatabase.UserExists | prak4.py:66-69 | true exactly when some row has that username |
| Users.UserDatabase.CheckCredentials | prak4.py:55-64 | true exactly when some row has both that username and that password |
| Users.UserDatabase.GetUser | prak4.py:71-83 | the first row whose username or nickname equals the identifier; None exactly when no row matches; a NULL nickname matches nothing |
| Users.UserDatabase.RegisterUser | prak4.py:40-47 | the new table is Registered of the old one; the invariant is kept |
| Users.UserDatabase.UpdateNickname | prak4.py:85-97 | the new table is Renamed of the old one, so the admin nickname is protected |
| Users.UserDatabase.AddDefaultAdmin | prak4.py:99-106 | registers admin/admin_password with a NULL nickname unless admin exists; afterwards admin is present exactly once |
| Items.Seeded | prak4.py:126-135 | INSERT ... WHERE NOT EXISTS: a present item leaves the table unchanged; an absent one gets one row appended; existing rows never change; at most one row per item_id is preserved |
| Items.Recounted | prak4.py:140-143 | rows with that item_id get the new count; every other row, the length and the order stay as they were; item_ids stay unique |
| Items.SeedKeepsFirstCount | prak4.py:126-135 | after a seed, the item's count is its first seeded count if it was present, else the new count |
| Items.SeedLeavesOthers | prak4.py:126-135 | seeding one item leaves every other item's count unchanged |
| Items.SeedTwice | prak4.py:126-135 | seeding an item a second time, with any count, is a no-op |
| Items.RecountSetsCount | prak4.py:140-143 | a seeded item reads back the new count; for an unseeded item the table is unchanged and the item stays unseeded |
| Items.RecountLeavesOthers | prak4.py:140-143 | updating one item leaves every other item's count unchanged |
| Items.LookupFindsEveryRow | prak4.py:148-159 | with unique item_ids, looking up any row's item returns that row's count, so the listing agrees with get_item_count |
| Items.ItemDatabase.constructor | prak4.py:115-123 | a newly created item_counts table is empty and valid |
| Items.ItemDatabase.AddItemCount | prak4.py:126-138 | the new rows are Seeded of the old ones; item_ids stay unique |
| Items.ItemDatabase.UpdateItemCount | prak4.py:140-146 | the new rows are Recounted of the old ones; item_ids stay unique |
| Items.ItemDatabase.GetItemCount | prak4.py:148-155 | None exactly when no row has the item_id; otherwise the count of a row with that item_id, 0 included |
| Items.ItemDatabase.GetAllItemCounts | prak4.py:157-159 | one (item_id, count) pair per row in table order; with unique item_ids each pair agrees with get_item_count |
| Orders.Appended | prak4.py:372-373 | one row with the next AUTOINCREMENT id is appended after the old rows; the new id exceeds every earlier id; the id invariant is preserved |
| Orders.LatestId | prak4.py:374 | ORDER BY id DESC LIMIT 1: None exactly for an empty table, otherwise an id in the table that is at least every id |
| Orders.AppendedIsLatest | prak4.py:372-374 | right after an insert, the latest-id query returns the inserted row's id |
| Orders.LatestBelowCounter | prak4.py:384-387 | the latest-id query never returns an id above the counter, so never the id of a later insert |
| Orders.WithStatus | prak4.py:177-180 | only the status of the row with that id changes; an unknown id changes nothing; ids stay valid |
| Orders.OrderDatabase.constructor | prak4.py:164-175 | a newly created orders table is empty and valid |
| Orders.OrderDatabase.InsertOrder | prak4.py:388-389 | the new table is Appended of the old one |
| Orders.OrderDatabase.UpdateOrderStatus | prak4.py:177-183 | the new table is WithStatus of the old one |
| Orders.OrderDatabase.GetAllOrders | prak4.py:185-187 | one (id, timestamp, status) per row, in table order, which is ascending id order |
| Deliveries.Reflagged | prak4.py:216-219 | only the flag of rows whose order_id equals the given non-NULL id changes; a NULL id changes nothing; the invariant is preserved |
| Deliveries.Upserted | prak4.py:201-214 | when a row matches the order id, the result is Reflagged of the table, with nothing appended; otherwise exactly one row (next id, order id, flag) is appended; a NULL order id never matches, so it always appends; unique non-NULL order_ids are kept |
| Deliveries.UpsertSingleRecord | prak4.py:201-214 | afterwards exactly one row belongs to the order and its flag is the one given; rows of other orders are untouched; at most one row is added |
| Deliveries.ReflagTwice | prak4.py:216-219 | two flag updates for one order equal the second alone |
| Deliveries.ReflagAppended | prak4.py:201-219 | updating the flag of a row just inserted for a new order is the same as inserting it with that flag |
| Deliveries.UpsertLastWriteWins | prak4.py:201-219 | two upserts for one order equal the second alone |
| Deliveries.UpsertIdempotent | prak4.py:201-214 | upserting the same (order, flag) twice equals upserting it once |
| Deliveries.UpsertTrueThenFalse | prak4.py:201-219 | upserting (o, true) then (o, false) leaves exactly one row for o, with flag false |
| Deliveries.DeliveryDatabase.constructor | prak4.py:190-199 | a newly created deliveries table is empty and valid |
| Deliveries.DeliveryDatabase.AddDeliveryStatus | prak4.py:201-214 | looks the row up, then updates it or inserts one; the new table is Upserted of the old one |
| Deliveries.DeliveryDatabase.UpdateDeliveryStatus | prak4.py:216-222 | the new table is Reflagged of the old one |
| Ordering.Welcome.constructor | prak4.py:278-283 | keeps the four tables it is given; is_admin starts false |
| Ordering.Welcome.ConfirmStep | prak4.py:366-393 | confirm yes, delivery yes: a Completed order plus delivery (its id, true). Confirm no: delivery (previous latest id or NULL, false), then a Deleted order. Otherwise nothing is written. Stock and users never change |
| Ordering.Welcome.PlaceDelivery | prak4.py:369-377 | appends one Completed order whose id exceeds every earlier id; afterwards exactly one delivery row belongs to that id, flagged true |
| Ordering.Welcome.CancelOrder | prak4.py:383-391 | upserts delivery (id of the latest order before the call, or NULL, false), then appends one Deleted order; that row never refers to the new order |
| Ordering.PassAt | prak4.py:360-396 | one pass reads at least one answer and stays within the input; it delivers exactly on "no","yes","yes", cancels exactly on "no","no", leaves to choose again exactly on "yes"; it ends the loop for lack of input only at the end of the input; any other answer asks again |
| Ordering.LoopEnd | prak4.py:359-398 | the loop stops at the first pass that does not ask again, or at the end of the input; the stop lies within the input |
| Ordering.LoopEndShape | prak4.py:359-398 | whatever the answers, the ending is fixed by the last answers read: "no","yes","yes" for a delivery, "no","no" for a cancellation, "yes" for choosing again; running out reads every answer |
| Ordering.Welcome.ConfirmPass | prak4.py:360-396 | one pass reads exactly the answers PassAt says; a pass that asks again writes nothing; a pass that stops writes as ConfirmStep does |
| Ordering.Welcome.ConfirmLoop | prak4.py:359-398 | the outcome and the answers consumed are exactly LoopEnd of the input, and the last answers read have the shape of that outcome (no/yes/yes delivers, no/no cancels, yes chooses again); only the last pass writes, as ConfirmStep does; stock and users never change |

## Left out

- The sqlite3 connection, cursor, commit and close are not modelled. The tables are in-memory values, and a freshly constructed table is empty; a database file left by an earlier run is any state satisfying the invariant.
- Storage errors are not modelled, so the `sqlite3.Error` and `Exception` handlers and their messages are absent. The model has no storage failures.
- Console output and the `user_registrations.txt` log are not modelled.
- The `LogIn` menu and its fixed admin password check are left out: they are interactive console input.
- The greeting, the nickname/identifier choice and the admin menu of `welcome` are left out. The admin menu only calls `get_all_orders` and `get_all_item_counts`.
- The section and subsection menus are left out. Subsections come from a Python set whose iteration order is hash-randomised, so the model takes the subsection list as a parameter. It keeps only the bound `1 <= choice2 <= len`.
- The bootstrap in `main` is left out: creating the tables, adding the default admin, seeding sixteen item counts and the nickname prompt. Each operation it calls is modelled on its own.
- `timestamp DEFAULT CURRENT_TIMESTAMP` is a wall-clock value. The model takes it as a given parameter.
- The FOREIGN KEY clauses are not modelled: SQLite does not enforce them by default, and `items` is never created.
- Integers are unbounded. SQLite's 64-bit INTEGER limits are not modelled; neither is the exhaustion of AUTOINCREMENT ids.
- `str.lower()` is modelled on ASCII letters only. No other character lower-cases to a letter of "yes" or "no", so the classification of answers is unchanged.
- Nothing else writes to the database while the program runs. The id read back as the latest order right after an insert is the inserted order's id only under that single-writer assumption.
- Running out of input ends the loop without a write. The source ends the same way, by an exception that is either caught and reported or propagated; which of the two happens is not distinguished.

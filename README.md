# Parking-association registry: a Dafny model of app.py

`app.py` is a Flask application that a residents' association uses to keep
a register of neighbors, their vehicles and the payments they make, with a
receipt image or PDF optionally uploaded for each payment, and a public
portal that searches the register. This project models its logic with the
web framework, the ORM and the file system abstracted away:

- `Uploads`: `ALLOWED_EXTENSIONS`, `allowed_file` (with Python's
  `rsplit(".", 1)` and `lower()`), and the name under which an accepted
  receipt is saved.
- `Text`: Python's `str.strip()` (over exactly the characters for which
  `str.isspace()` holds), ASCII lower-casing, substring search and the
  code-point order of text.
- `Ordering`: `ORDER BY` over a set of row ids, as a sort of the ids by a
  key under a total preorder.
- `Records`: the `Neighbor`, `Vehicle` and `Payment` rows, the database and
  the upload folder as one value `Db`, one function per mutation a handler
  performs (inserts under SQLite's next rowid, the `all, delete-orphan`
  cascade, deletion of one vehicle or payment), the two invariants the
  handlers keep (referential integrity, and receipts that name files which
  exist and are not shared), and the listings and the portal search.
- `Handlers`: the class `Store`, whose fields are the three tables and the
  set of uploaded file names, with one method per POST handler
  (`manage_users`, `delete_user`, `manage_vehicles`, `delete_vehicle`,
  `manage_payments`, `delete_payment`). Each method validates its form
  fields in the handler's order and then either leaves the store unchanged
  or applies exactly one `Db` mutation. It reports the outcome the handler
  flashes or answers with (`Created`, `Deleted`, `Invalid`,
  `DisallowedFile`, `NotFound`).

Parameters stand in for what the model cannot see. `CreatePayment` takes
`parseAmount` for `float(...)` and `secureFilename` for werkzeug's
`secure_filename`. It also takes `stamp` for the formatted
`datetime.utcnow()` of the upload and `now` for the row's `created_at`.

Some consequences of how app.py is written, which the model keeps:

- Deleting a neighbor deletes no receipt files (app.py:133-139). `delete_user`
  deletes only the row, and the cascade removes the payments but not their
  files. `DeletedNeighborOrphansReceipts` states the result: the files stay,
  and no payment names them any more.
- A saved receipt's name is the timestamp, `_`, and the sanitised name, with
  no random suffix (app.py:198-200).
- A receipt is saved only once the method, the amount and the extension have
  all been accepted (app.py:192-202), and the payment row is added right
  after it (app.py:211-219).
- The home and admin listings are ordered by last name (app.py:106, app.py:130).

## Model

| member | source | states |
|---|---|---|
| Uploads.AllowedFileIff | app.py:23-24 | `allowed_file(f)` holds exactly when `f` has a dot with no dot after it and the lower-cased text after that dot is png, jpg, jpeg, gif or pdf |
| Uploads.LastDotAt | app.py:24 | when no dot follows the dot at `i`, the part `rsplit(".", 1)[1]` is the text after `i`, and the verdict is whether its lower-cased form is allowed |
| Uploads.AllowedFileIgnoresCase | app.py:24 | lower-casing the whole name first never changes the verdict |
| Uploads.IgnoresCaseAt | app.py:24 | the same, for a name whose last dot is at a given position |
| Uploads.AllowedFileExamples | app.py:18-24 | "x.PDF", "recibo.final.Jpeg" and ".png" are accepted; "x.tar.gz", "pdf", "x." and "notes.txt" are rejected |
| Uploads.LastIndexOf | app.py:24 | finds no position exactly when the character is absent; otherwise the position holds the character and no later position does |
| Uploads.LastDotOfLower | app.py:24 | lower-casing a name does not move its last dot |
| Uploads.RSplitOnce | app.py:24 | `[s]` when the separator is absent; otherwise two parts that rebuild `s` around the separator, with no separator in the second |
| Uploads.StoredNameExtension | app.py:198-200 | when the sanitised name has a dot, the text after the last dot of the saved name is that of the sanitised name, so `allowed_file` gives both the same verdict |
| Uploads.ExtensionOfSuffix | app.py:198-200 | putting any text in front of a name that has a dot leaves the text after its last dot unchanged |
| Uploads.SavedNameMayLoseExtension | app.py:196-200 | `allowed_file` accepts the uploaded name "x.png", but rejects the saved name when the sanitised name has lost its dot |
| Text.TrimStartShape | app.py:113 | `lstrip` keeps a suffix, drops only whitespace, and keeps nothing that starts with whitespace |
| Text.TrimEndShape | app.py:113 | `rstrip` keeps a prefix, drops only whitespace, and keeps nothing that ends with whitespace |
| Text.StripEnds | app.py:113-115 | a non-empty stripped value neither starts nor ends with whitespace |
| Text.StripEmpty | app.py:113-117 | a stripped field is empty exactly when the submitted value is all whitespace, which is what `not first_name` tests |
| Text.StripInfix | app.py:113-115 | the stripped value is the infix between a leading and a trailing run of whitespace |
| Text.StripIdempotent | app.py:253 | stripping an already stripped value changes nothing |
| Text.LowerIdempotent | app.py:24 | lower-casing twice is lower-casing once |
| Text.LowerSlice | app.py:24 | lower-casing commutes with slicing |
| Text.LowerStrip | app.py:253-258 | lower-casing and stripping commute, because lower-casing makes no whitespace and removes none |
| Text.LowerTrimStart | app.py:253 | lower-casing commutes with `lstrip` |
| Text.LowerTrimEnd | app.py:253 | lower-casing commutes with `rstrip` |
| Text.ContainsIff | app.py:255-261 | the recursive substring test agrees with "the query occurs at some index", which is what `ILIKE '%q%'` selects |
| Text.LexLeTotal | app.py:106 | any two last names are comparable in text order |
| Text.LexLeTransitive | app.py:106 | text order is transitive |
| Ordering.MaxWitness | app.py:52 | a non-empty set of ids has a largest element |
| Ordering.MaxOf | app.py:52 | returns that largest element |
| Ordering.Insert | app.py:262 | inserting an id adds exactly that id to the sequence |
| Ordering.InsertSorted | app.py:262 | inserting an id into a key-ordered sequence keeps it key-ordered |
| Ordering.CountPair | app.py:262 | an id that appears at two positions is counted twice |
| Ordering.DistinctByCount | app.py:262 | a sequence in which each id is counted at most once repeats no id |
| Ordering.SortStep | app.py:262 | inserting the largest id into the sorted rest yields the ids once each, in key order |
| Ordering.SortIds | app.py:262 | `ORDER BY` returns a permutation of the selected ids, each once, in non-decreasing key order |
| Records.NextId | app.py:52 | a new row's id is above every id in use, 1 for an empty table, and one more than the largest id otherwise |
| Records.LexLeIsTotalPreorder | app.py:106 | the order `ORDER BY last_name` uses is a total preorder |
| Records.OwnedSetsDisjoint | app.py:57-68 | `neighbor.vehicles` and `neighbor.payments` of two different neighbors share no row |
| Records.Db.WithNeighbor | app.py:120-126 | adds one neighbor under a fresh id, changes no other row or file, and keeps both invariants |
| Records.Db.WithVehicle | app.py:154-162 | adds one vehicle under a fresh id to its owner's vehicles, and keeps integrity when the owner exists |
| Records.Db.WithPayment | app.py:195-219 | saves the receipt (if any) and adds one payment under a fresh id to its owner's payments, and keeps integrity; receipts stay consistent when the saved name is new |
| Records.Db.WithoutNeighbor | app.py:57-68 | removes the neighbor and exactly its vehicles and payments, keeps every other row and every file, leaves the neighbor owning nothing, and keeps both invariants |
| Records.Db.WithoutVehicle | app.py:171-173 | removes exactly that vehicle, and keeps everything else and both invariants |
| Records.Db.WithoutPayment | app.py:237-243 | removes exactly that payment and, when it names a receipt, that file, and keeps both invariants |
| Records.Db.VehiclesAfterInsert | app.py:154-162 | a vehicle inserted under a fresh id joins exactly its owner's vehicles |
| Records.Db.ReceiptsAfterInsert | app.py:196-219 | inserting a payment whose receipt name is new keeps receipts present and unshared |
| Records.Db.NeighborsByLastName | app.py:130 | the admin and home listing shows every neighbor once, by last name |
| Records.Db.PaymentHistory | app.py:223-227 | a neighbor's payments, each once, newest first |
| Records.Db.PortalSearch | app.py:249-263 | a blank query finds nothing; otherwise exactly the matching neighbors for the stripped query, once each, by last name |
| Records.SearchStripsQuery | app.py:253 | the query is stripped once; searching for the stripped query gives the same result as for the raw one |
| Records.SearchIgnoresCase | app.py:253-262 | searching for the lower-cased query gives the same result |
| Records.HitsByLower | app.py:258-260 | which neighbors match depends only on the lower-cased query |
| Records.SearchFindsSubstring | app.py:255-262 | a neighbor whose column contains the stripped query, up to case, is found |
| Records.CreatedNeighborIsListed | app.py:125-130 | a newly registered neighbor appears in the listing |
| Records.DeletedNeighborOrphansReceipts | app.py:133-139 | after a neighbor is deleted, each of its receipt files is still in the folder and no payment names it |
| Records.ReusedNameBreaksConsistency | app.py:198-203 | a payment saved under the receipt name of an existing payment leaves two payments sharing one file, so the receipts are no longer consistent |
| Records.CreateThenDeleteNeighbor | app.py:120-139 | in a database with referential integrity, deleting the neighbor just registered gives back the database as it was |
| Records.NeighborRoundTripRows | app.py:120-139 | the neighbors table part of that round trip |
| Records.NeighborRoundTripOwned | app.py:57-68 | the cascade of that round trip deletes no vehicle and no payment |
| Records.OwnsNothing | app.py:57-68 | deleting a neighbor that owns no row leaves the vehicles and payments tables as they were |
| Records.CreateThenDeleteVehicle | app.py:154-173 | deleting the vehicle just added gives back the database as it was |
| Records.CreateThenDeletePayment | app.py:196-243 | deleting the payment just added gives back the database as it was, folder included, when its receipt name was new |
| Records.PaymentRoundTripRows | app.py:211-243 | the payments table part of that round trip |
| Records.PaymentRoundTripFiles | app.py:196-243 | the upload folder part of that round trip: the receipt saved is the receipt removed |
| Handlers.Store.constructor | app.py:38-41 | on a first start, the tables and the upload folder are empty and satisfy both invariants |
| Handlers.Store.CreateNeighbor | app.py:112-128 | `Invalid` and no change when a stripped field is empty; otherwise the stripped neighbor is added under the next id; both invariants are kept |
| Handlers.Store.DeleteNeighbor | app.py:133-139 | `NotFound` and no change for an unknown id; otherwise the cascade delete; both invariants are kept |
| Handlers.Store.CreateVehicle | app.py:143-164 | `NotFound` for an unknown neighbor, then `Invalid` for an empty stripped field, no change in either case; otherwise the stripped vehicle is added for that neighbor; both invariants are kept |
| Handlers.Store.DeleteVehicle | app.py:169-175 | `NotFound` and no change unless the neighbor exists and owns the vehicle; otherwise only that vehicle is removed |
| Handlers.Store.CreatePayment | app.py:179-221 | checks in order: unknown neighbor, then empty method or unparsable amount, then a non-empty upload name `allowed_file` rejects. Each failure changes nothing, files included. Otherwise the receipt is saved under its stored name and the payment row is added, with a blank deposit account stored as null. Integrity is kept, and receipt consistency is kept when the stored name is new |
| Handlers.Store.DeletePayment | app.py:233-245 | `NotFound` and no change unless the payment belongs to that neighbor; otherwise the row and its receipt file (if named) are removed; both invariants are kept |

## Left out

- HTTP routing, templates, `flash` and `redirect`: modelled only as the `Outcome` value a handler reports.
- The GET side of the views, including `portal_detail`, `uploaded_file` and the templates' data: only the orderings they use are modelled (`NeighborsByLastName`, `PaymentHistory`).
- SQLAlchemy sessions, transactions and `commit` failures: each handler applies its mutation atomically.
- The file system: the upload folder is a set of names. Writing, overwriting and `os.remove` are set insertion and removal. A missing file on delete is tolerated, as in app.py.
- `float(...)`, the `Float` column, NaN and infinity: the parse is the parameter `parseAmount` and amounts are reals.
- `secure_filename` and the clock: parameters (`secureFilename`, `stamp`, `now`).
- Column lengths (`String(120)` and so on): SQLite does not enforce them.
- `ILIKE` treats `%` and `_` in the user's query as wildcards. The model instead searches for the query literally.
- Records.Matches: lower-cases ASCII letters only (SQLite's `lower()` and `LIKE`) and not Unicode case folding.
- Text.Lower: ASCII-only, whereas Python's `str.lower()` in `allowed_file` handles all of Unicode. The verdict is the same, because no non-ASCII character lowers to exactly one of the letters of an allowed extension.
- Handlers.Store.CreatePayment: promises receipt consistency only when the stored name is not already in the folder. `Records.ReusedNameBreaksConsistency` shows the case it excludes.
- Handlers.Store.CreatePayment: does not promise that only allow-listed extensions are saved. `allowed_file` checks the uploaded name, and the saved name keeps an allowed extension only if `secure_filename` keeps the dot and the extension. `secureFilename` is a parameter, so `Uploads.StoredNameExtension` states when the saved name keeps the verdict, and `Uploads.SavedNameMayLoseExtension` shows a sanitised name that loses it.
- Handlers.Store.constructor: models only a first start. On a later start `create_all` and `makedirs` keep the existing tables and files (app.py:38-41).
- `register_cli`, `create_app` and `app.run`: startup glue.

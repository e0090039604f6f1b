/**
 * The three tables of app.py and the upload folder, as one value, with
 * one function per mutation the handlers perform and the queries their
 * views run.
 */
module Records {
  import opened Wrappers
  import opened Text
  import opened Ordering

  /** A row of `neighbors`. */
  datatype Neighbor = Neighbor(firstName: string, lastName: string, address: string)

  /** A row of `vehicles`; `neighborId` is the foreign key to its owner. */
  datatype Vehicle = Vehicle(
    neighborId: nat,
    licensePlate: string,
    make: string,
    model: string,
    controlNumber: string)

  /**
   * A row of `payments`. `amount` is the parsed amount, `depositAccount`
   * and `screenshotPath` are the nullable columns, `createdAt` the insertion
   * time (any monotone encoding of the timestamp).
   */
  datatype Payment = Payment(
    neighborId: nat,
    paymentMethod: string,
    amount: real,
    depositAccount: Option<string>,
    screenshotPath: Option<string>,
    createdAt: nat)

  /** Whether `delete_payment` treats the row as naming a file (`if payment.screenshot_path:`). */
  predicate HasReceipt(p: Payment) {
    p.screenshotPath.Some? && p.screenshotPath.value != []
  }

  /**
   * The id SQLite gives a new row of an `INTEGER PRIMARY KEY` table: one
   * more than the largest id in use, or 1 for an empty table. So the id
   * of a deleted last row is handed out again.
   */
  function NextId(keys: set<nat>): (id: nat)
    ensures 0 < id && id !in keys
    ensures forall k :: k in keys ==> k < id
    ensures keys == {} ==> id == 1
    ensures keys != {} ==> id - 1 in keys
  {
    if keys == {} then 1 else MaxOf(keys) + 1
  }

  /** The portal filter: the query occurs in one of the three columns, ignoring ASCII case. */
  predicate Matches(n: Neighbor, query: string) {
    var q := Lower(query);
    Contains(Lower(n.firstName), q) || Contains(Lower(n.lastName), q) || Contains(Lower(n.address), q)
  }

  /** `ORDER BY last_name` compares with a total preorder. */
  lemma LexLeIsTotalPreorder()
    ensures TotalPreorder(LexLe)
  {
    forall a: string, b: string ensures LexLe(a, b) || LexLe(b, a) {
      LexLeTotal(a, b);
    }
    forall a: string, b: string, c: string | LexLe(a, b) && LexLe(b, c) ensures LexLe(a, c) {
      LexLeTransitive(a, b, c);
    }
  }

  /** The database and the upload folder (as the set of file names in it). */
  datatype Db = Db(
    neighbors: map<nat, Neighbor>,
    vehicles: map<nat, Vehicle>,
    payments: map<nat, Payment>,
    uploads: set<string>)
  {
    /** Referential integrity: every vehicle and payment belongs to a neighbor that exists. */
    predicate Valid() {
      && (forall v :: v in vehicles ==> vehicles[v].neighborId in neighbors)
      && (forall p :: p in payments ==> payments[p].neighborId in neighbors)
    }

    /** Every receipt a payment names is in the upload folder, and no two payments name the same file. */
    predicate ReceiptsConsistent() {
      && (forall p :: p in payments && HasReceipt(payments[p]) ==> payments[p].screenshotPath.value in uploads)
      && (forall p, q ::
            p in payments && q in payments && p != q && HasReceipt(payments[p]) && HasReceipt(payments[q]) ==>
              payments[p].screenshotPath != payments[q].screenshotPath)
    }

    /** The ids of the vehicles of neighbor `nid` (`neighbor.vehicles`). */
    function VehiclesOf(nid: nat): (ids: set<nat>)
      ensures forall v :: v in ids <==> v in vehicles && vehicles[v].neighborId == nid
    {
      set v | v in vehicles && vehicles[v].neighborId == nid
    }

    /** The ids of the payments of neighbor `nid` (`neighbor.payments`). */
    function PaymentsOf(nid: nat): (ids: set<nat>)
      ensures forall p :: p in ids <==> p in payments && payments[p].neighborId == nid
    {
      set p | p in payments && payments[p].neighborId == nid
    }

    /** Inserts a neighbor row under the next id. */
    function WithNeighbor(n: Neighbor): (r: Db)
      ensures var id := NextId(neighbors.Keys);
        && id !in neighbors
        && r.neighbors.Keys == neighbors.Keys + {id}
        && r.neighbors[id] == n
        && (forall k :: k in neighbors ==> r.neighbors[k] == neighbors[k])
      ensures |r.neighbors| == |neighbors| + 1
      ensures r.vehicles == vehicles && r.payments == payments && r.uploads == uploads
      ensures Valid() ==> r.Valid()
      ensures ReceiptsConsistent() ==> r.ReceiptsConsistent()
    {
      this.(neighbors := neighbors[NextId(neighbors.Keys) := n])
    }

    /** Inserts a vehicle row under the next id. */
    function WithVehicle(v: Vehicle): (r: Db)
      ensures var id := NextId(vehicles.Keys);
        && id !in vehicles
        && r.vehicles.Keys == vehicles.Keys + {id}
        && r.vehicles[id] == v
        && (forall k :: k in vehicles ==> r.vehicles[k] == vehicles[k])
        && r.VehiclesOf(v.neighborId) == VehiclesOf(v.neighborId) + {id}
      ensures |r.vehicles| == |vehicles| + 1
      ensures r.neighbors == neighbors && r.payments == payments && r.uploads == uploads
      ensures Valid() && v.neighborId in neighbors ==> r.Valid()
      ensures ReceiptsConsistent() ==> r.ReceiptsConsistent()
    {
      var id := NextId(vehicles.Keys);
      var r := this.(vehicles := vehicles[id := v]);
      VehiclesAfterInsert(this, id, v, r);
      r
    }

    /** Saves the receipt `p` names, if any, and inserts the payment row under the next id. */
    function WithPayment(p: Payment): (r: Db)
      ensures var id := NextId(payments.Keys);
        && id !in payments
        && r.payments.Keys == payments.Keys + {id}
        && r.payments[id] == p
        && (forall k :: k in payments ==> r.payments[k] == payments[k])
        && r.PaymentsOf(p.neighborId) == PaymentsOf(p.neighborId) + {id}
      ensures |r.payments| == |payments| + 1
      ensures r.uploads == if p.screenshotPath.Some? then uploads + {p.screenshotPath.value} else uploads
      ensures r.neighbors == neighbors && r.vehicles == vehicles
      ensures Valid() && p.neighborId in neighbors ==> r.Valid()
      ensures ReceiptsConsistent() && (HasReceipt(p) ==> p.screenshotPath.value !in uploads) ==>
        r.ReceiptsConsistent()
    {
      var files := if p.screenshotPath.Some? then uploads + {p.screenshotPath.value} else uploads;
      var id := NextId(payments.Keys);
      var r := this.(payments := payments[id := p], uploads := files);
      assert r.PaymentsOf(p.neighborId) == PaymentsOf(p.neighborId) + {id};
      ReceiptsAfterInsert(this, id, p, r);
      r
    }

    /**
     * Deletes a neighbor row and, by the `all, delete-orphan` cascade, every
     * vehicle and payment row it owns. The upload folder is left as it is.
     */
    function WithoutNeighbor(id: nat): (r: Db)
      ensures r.neighbors.Keys == neighbors.Keys - {id}
      ensures forall k :: k in r.neighbors ==> r.neighbors[k] == neighbors[k]
      ensures r.vehicles.Keys == vehicles.Keys - VehiclesOf(id)
      ensures forall k :: k in r.vehicles ==> r.vehicles[k] == vehicles[k]
      ensures r.payments.Keys == payments.Keys - PaymentsOf(id)
      ensures forall k :: k in r.payments ==> r.payments[k] == payments[k]
      ensures r.uploads == uploads
      ensures r.VehiclesOf(id) == {} && r.PaymentsOf(id) == {}
      ensures Valid() ==> r.Valid()
      ensures ReceiptsConsistent() ==> r.ReceiptsConsistent()
    {
      var r := Db(neighbors - {id},
         map v | v in vehicles && vehicles[v].neighborId != id :: vehicles[v],
         map p | p in payments && payments[p].neighborId != id :: payments[p],
         uploads);
      assert r.vehicles.Keys == vehicles.Keys - VehiclesOf(id);
      assert r.payments.Keys == payments.Keys - PaymentsOf(id);
      r
    }

    /** Deletes one vehicle row. */
    function WithoutVehicle(id: nat): (r: Db)
      ensures r.vehicles.Keys == vehicles.Keys - {id}
      ensures forall k :: k in r.vehicles ==> r.vehicles[k] == vehicles[k]
      ensures r.neighbors == neighbors && r.payments == payments && r.uploads == uploads
      ensures Valid() ==> r.Valid()
      ensures ReceiptsConsistent() ==> r.ReceiptsConsistent()
    {
      this.(vehicles := vehicles - {id})
    }

    /** Removes the receipt file the payment names, if any, and deletes the payment row. */
    function WithoutPayment(id: nat): (r: Db)
      requires id in payments
      ensures r.payments.Keys == payments.Keys - {id}
      ensures forall k :: k in r.payments ==> r.payments[k] == payments[k]
      ensures r.uploads ==
        if HasReceipt(payments[id]) then uploads - {payments[id].screenshotPath.value} else uploads
      ensures r.neighbors == neighbors && r.vehicles == vehicles
      ensures Valid() ==> r.Valid()
      ensures ReceiptsConsistent() ==> r.ReceiptsConsistent()
    {
      var p := payments[id];
      var files := if HasReceipt(p) then uploads - {p.screenshotPath.value} else uploads;
      this.(payments := payments - {id}, uploads := files)
    }

    /** A vehicle inserted under a fresh id joins its owner's vehicles. */
    static lemma VehiclesAfterInsert(db: Db, id: nat, v: Vehicle, r: Db)
      requires id !in db.vehicles
      requires r.vehicles == db.vehicles[id := v]
      ensures r.VehiclesOf(v.neighborId) == db.VehiclesOf(v.neighborId) + {id}
    {
      assert r.VehiclesOf(v.neighborId) == db.VehiclesOf(v.neighborId) + {id};
    }

    /** Inserting a payment under a fresh id keeps the receipts consistent when its file is new. */
    static lemma ReceiptsAfterInsert(db: Db, id: nat, p: Payment, r: Db)
      requires id !in db.payments
      requires r.payments == db.payments[id := p]
      requires r.uploads == if p.screenshotPath.Some? then db.uploads + {p.screenshotPath.value} else db.uploads
      ensures db.ReceiptsConsistent() && (HasReceipt(p) ==> p.screenshotPath.value !in db.uploads) ==>
        r.ReceiptsConsistent()
    {
      if db.ReceiptsConsistent() && (HasReceipt(p) ==> p.screenshotPath.value !in db.uploads) {
        forall a, b | a in r.payments && b in r.payments && a != b && HasReceipt(r.payments[a]) && HasReceipt(r.payments[b])
          ensures r.payments[a].screenshotPath != r.payments[b].screenshotPath
        {
          if a == id {
            assert db.payments[b].screenshotPath.value in db.uploads;
          } else if b == id {
            assert db.payments[a].screenshotPath.value in db.uploads;
          }
        }
      }
    }

    /** The last name of every neighbor, the key of `ORDER BY Neighbor.last_name`. */
    function LastNames(): (key: map<nat, string>)
      ensures key.Keys == neighbors.Keys
      ensures forall id :: id in key ==> key[id] == neighbors[id].lastName
    {
      map id | id in neighbors :: neighbors[id].lastName
    }

    /** `Neighbor.query.order_by(Neighbor.last_name).all()`: every neighbor once, by last name. */
    function NeighborsByLastName(): (r: seq<nat>)
      ensures forall id :: id in r <==> id in neighbors
      ensures Distinct(r)
      ensures forall i, j :: 0 <= i < j < |r| ==> LexLe(neighbors[r[i]].lastName, neighbors[r[j]].lastName)
    {
      LexLeIsTotalPreorder();
      SortIds(neighbors.Keys, LastNames(), LexLe)
    }

    /** The creation time of every payment, the key of `ORDER BY created_at DESC`. */
    function CreationTimes(): (key: map<nat, nat>)
      ensures key.Keys == payments.Keys
      ensures forall id :: id in key ==> key[id] == payments[id].createdAt
    {
      map id | id in payments :: payments[id].createdAt
    }

    /** The payments of neighbor `nid`, each once, newest first. */
    function PaymentHistory(nid: nat): (r: seq<nat>)
      ensures forall p :: p in r <==> p in payments && payments[p].neighborId == nid
      ensures Distinct(r)
      ensures forall i, j :: 0 <= i < j < |r| ==> payments[r[i]].createdAt >= payments[r[j]].createdAt
    {
      SortIds(PaymentsOf(nid), CreationTimes(), (a: nat, b: nat) => a >= b)
    }

    /** The neighbors the three `ILIKE` conditions of the portal select for `q`. */
    function Hits(q: string): (ids: set<nat>)
      ensures forall id :: id in ids <==> id in neighbors && Matches(neighbors[id], q)
    {
      set id | id in neighbors && Matches(neighbors[id], q)
    }

    /**
     * `portal_search` on a submitted query: nothing for a blank query,
     * otherwise every neighbor the stripped query matches, once each, by last name.
     */
    function PortalSearch(query: string): (r: seq<nat>)
      ensures Strip(query) == [] ==> r == []
      ensures Strip(query) != [] ==>
        forall id :: id in r <==> id in neighbors && Matches(neighbors[id], Strip(query))
      ensures forall id :: id in r ==> id in neighbors
      ensures Distinct(r)
      ensures forall i, j :: 0 <= i < j < |r| ==> LexLe(neighbors[r[i]].lastName, neighbors[r[j]].lastName)
    {
      var q := Strip(query);
      if q == [] then []
      else
        LexLeIsTotalPreorder();
        SortIds(Hits(q), LastNames(), LexLe)
    }
  }

  /** The portal search ignores the case of the query. */
  lemma SearchIgnoresCase(db: Db, query: string)
    ensures db.PortalSearch(Lower(query)) == db.PortalSearch(query)
  {
    LowerStrip(query);
    var q := Strip(query);
    var lq := Strip(Lower(query));
    assert lq == Lower(q);
    LowerIdempotent(q);
    HitsByLower(db, lq, q);
  }

  /** The route strips the query once; a query that is already stripped is searched as it is. */
  lemma SearchStripsQuery(db: Db, query: string)
    ensures db.PortalSearch(Strip(query)) == db.PortalSearch(query)
  {
    StripIdempotent(query);
  }

  /** Each vehicle and each payment belongs to one neighbor only. */
  lemma OwnedSetsDisjoint(db: Db, a: nat, b: nat)
    requires a != b
    ensures db.VehiclesOf(a) * db.VehiclesOf(b) == {}
    ensures db.PaymentsOf(a) * db.PaymentsOf(b) == {}
  {
  }

  /** Which neighbors match depends only on the lower-cased query. */
  lemma HitsByLower(db: Db, a: string, b: string)
    requires Lower(a) == Lower(b)
    ensures db.Hits(a) == db.Hits(b)
  {
  }

  /** A non-blank query that occurs, up to case, in a column of a neighbor finds that neighbor. */
  lemma SearchFindsSubstring(db: Db, id: nat, query: string, field: string, i: nat)
    requires id in db.neighbors
    requires var n := db.neighbors[id]; field == n.firstName || field == n.lastName || field == n.address
    requires Strip(query) != []
    requires i <= |field| && Lower(Strip(query)) <= Lower(field)[i..]
    ensures id in db.PortalSearch(query)
  {
    ContainsIff(Lower(field), Lower(Strip(query)));
  }

  /** Every registered neighbor appears in the listings once it is created. */
  lemma CreatedNeighborIsListed(db: Db, n: Neighbor)
    ensures NextId(db.neighbors.Keys) in db.WithNeighbor(n).NeighborsByLastName()
  {
  }

  /**
   * Deleting a neighbor leaves each of its receipt files in the upload folder
   * with no payment naming it any more: the file is orphaned.
   */
  lemma DeletedNeighborOrphansReceipts(db: Db, id: nat, p: nat)
    requires db.ReceiptsConsistent()
    requires p in db.payments && db.payments[p].neighborId == id && HasReceipt(db.payments[p])
    ensures var r := db.WithoutNeighbor(id); var f := db.payments[p].screenshotPath;
      && f.value in r.uploads
      && forall q :: q in r.payments ==> r.payments[q].screenshotPath != f
  {
  }

  /**
   * Why `WithPayment` keeps the receipts consistent only for a new file name:
   * a payment given the name of a receipt another payment already has shares
   * that file, so deleting either payment would remove the other's receipt.
   */
  lemma ReusedNameBreaksConsistency(db: Db, p: Payment, q: nat)
    requires HasReceipt(p)
    requires q in db.payments && db.payments[q].screenshotPath == p.screenshotPath
    ensures !db.WithPayment(p).ReceiptsConsistent()
  {
    var r := db.WithPayment(p);
    var id := NextId(db.payments.Keys);
    assert r.payments[id] == p && r.payments[q] == db.payments[q];
  }

  /** Deleting the neighbor just registered restores the database: nobody can own a row under a fresh id. */
  lemma CreateThenDeleteNeighbor(db: Db, n: Neighbor)
    requires db.Valid()
    ensures db.WithNeighbor(n).WithoutNeighbor(NextId(db.neighbors.Keys)) == db
  {
    NeighborRoundTripRows(db, n);
    NeighborRoundTripOwned(db, n);
  }

  /** The neighbors table of `CreateThenDeleteNeighbor`. */
  lemma NeighborRoundTripRows(db: Db, n: Neighbor)
    ensures db.WithNeighbor(n).WithoutNeighbor(NextId(db.neighbors.Keys)).neighbors == db.neighbors
  {
    var r := db.WithNeighbor(n).WithoutNeighbor(NextId(db.neighbors.Keys));
    assert r.neighbors.Keys == db.neighbors.Keys;
  }

  /** The vehicles and payments tables of `CreateThenDeleteNeighbor`. */
  lemma NeighborRoundTripOwned(db: Db, n: Neighbor)
    requires db.Valid()
    ensures var r := db.WithNeighbor(n).WithoutNeighbor(NextId(db.neighbors.Keys));
      r.vehicles == db.vehicles && r.payments == db.payments
  {
    var id := NextId(db.neighbors.Keys);
    var w := db.WithNeighbor(n);
    assert w.vehicles == db.vehicles && w.payments == db.payments;
    OwnsNothing(w, id);
  }

  /** Deleting a neighbor that owns no row deletes no vehicle or payment. */
  lemma OwnsNothing(db: Db, id: nat)
    requires forall v :: v in db.vehicles ==> db.vehicles[v].neighborId != id
    requires forall p :: p in db.payments ==> db.payments[p].neighborId != id
    ensures db.WithoutNeighbor(id).vehicles == db.vehicles
    ensures db.WithoutNeighbor(id).payments == db.payments
  {
    var r := db.WithoutNeighbor(id);
    assert r.vehicles.Keys == db.vehicles.Keys;
    assert r.payments.Keys == db.payments.Keys;
  }

  /** Deleting the vehicle just added restores the database. */
  lemma CreateThenDeleteVehicle(db: Db, v: Vehicle)
    ensures db.WithVehicle(v).WithoutVehicle(NextId(db.vehicles.Keys)) == db
  {
    var r := db.WithVehicle(v).WithoutVehicle(NextId(db.vehicles.Keys));
    assert r.vehicles == db.vehicles;
  }

  /** Deleting the payment just added restores the database, its receipt file included, when that file was new. */
  lemma CreateThenDeletePayment(db: Db, p: Payment)
    requires p.screenshotPath.Some? ==> HasReceipt(p) && p.screenshotPath.value !in db.uploads
    ensures db.WithPayment(p).WithoutPayment(NextId(db.payments.Keys)) == db
  {
    PaymentRoundTripRows(db, p);
    PaymentRoundTripFiles(db, p);
  }

  /** The payments table of `CreateThenDeletePayment`. */
  lemma PaymentRoundTripRows(db: Db, p: Payment)
    ensures db.WithPayment(p).WithoutPayment(NextId(db.payments.Keys)).payments == db.payments
  {
    var r := db.WithPayment(p).WithoutPayment(NextId(db.payments.Keys));
    assert r.payments.Keys == db.payments.Keys;
  }

  /** The upload folder of `CreateThenDeletePayment`. */
  lemma PaymentRoundTripFiles(db: Db, p: Payment)
    requires p.screenshotPath.Some? ==> HasReceipt(p) && p.screenshotPath.value !in db.uploads
    ensures db.WithPayment(p).WithoutPayment(NextId(db.payments.Keys)).uploads == db.uploads
  {
    var w := db.WithPayment(p);
    assert w.payments[NextId(db.payments.Keys)] == p;
    if p.screenshotPath.Some? {
      var name := p.screenshotPath.value;
      assert w.uploads == db.uploads + {name};
      assert (db.uploads + {name}) - {name} == db.uploads;
    }
  }
}

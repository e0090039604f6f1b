/**
 * The POST handlers of app.py as methods on the store they update. Each
 * one validates its form fields the way the route does, then either leaves
 * the store as it was or applies exactly one of the `Db` mutations.
 */
module Handlers {
  import opened Wrappers
  import opened Text
  import opened Uploads
  import opened Records

  /** What a handler reports (by flash message and redirect) to the browser. */
  datatype Outcome =
    | Created(id: nat)   // a row was inserted under this id
    | Deleted            // a row was deleted
    | Invalid            // a required field is blank, or the amount does not parse
    | DisallowedFile     // the receipt's extension is not on the allow-list
    | NotFound           // `get_or_404` / `first_or_404` answered 404

  /** An upload is present when the form carried a file with a non-empty name. */
  predicate HasUpload(screenshot: Option<string>) {
    screenshot.Some? && screenshot.value != []
  }

  /** The SQLite database and the upload folder the routes share. */
  class Store {
    var neighbors: map<nat, Neighbor>
    var vehicles: map<nat, Vehicle>
    var payments: map<nat, Payment>
    var uploads: set<string>

    /** The tables and the folder as one value. */
    function State(): Db
      reads this
    {
      Db(neighbors, vehicles, payments, uploads)
    }

    /**
     * The first start of the application: no `parking.db` yet, so
     * `db.create_all()` creates empty tables, and an empty upload folder.
     * On a later start both keep what they already hold; the model does not
     * cover that case.
     */
    constructor ()
      ensures State() == Db(map[], map[], map[], {})
      ensures State().Valid() && State().ReceiptsConsistent()
    {
      neighbors, vehicles, payments, uploads := map[], map[], map[], {};
    }

    /** `manage_users`, POST: register a neighbor from three required fields. */
    method CreateNeighbor(firstName: string, lastName: string, address: string) returns (outcome: Outcome)
      modifies this
      ensures var f, l, a := Strip(firstName), Strip(lastName), Strip(address);
        if f == [] || l == [] || a == [] then
          outcome == Invalid && State() == old(State())
        else
          && outcome == Created(NextId(old(neighbors).Keys))
          && State() == old(State()).WithNeighbor(Neighbor(f, l, a))
      ensures old(State().Valid()) ==> State().Valid()
      ensures old(State().ReceiptsConsistent()) ==> State().ReceiptsConsistent()
    {
      var f, l, a := Strip(firstName), Strip(lastName), Strip(address);
      if f == [] || l == [] || a == [] {
        outcome := Invalid;
        return;
      }
      var id := NextId(neighbors.Keys);
      neighbors := neighbors[id := Neighbor(f, l, a)];
      outcome := Created(id);
    }

    /** `delete_user`: delete a neighbor, its vehicles and its payments; receipt files stay. */
    method DeleteNeighbor(neighborId: nat) returns (outcome: Outcome)
      modifies this
      ensures if neighborId !in old(neighbors) then
          outcome == NotFound && State() == old(State())
        else
          outcome == Deleted && State() == old(State()).WithoutNeighbor(neighborId)
      ensures old(State().Valid()) ==> State().Valid()
      ensures old(State().ReceiptsConsistent()) ==> State().ReceiptsConsistent()
    {
      if neighborId !in neighbors {
        outcome := NotFound;
        return;
      }
      neighbors := neighbors - {neighborId};
      vehicles := map v | v in vehicles && vehicles[v].neighborId != neighborId :: vehicles[v];
      payments := map p | p in payments && payments[p].neighborId != neighborId :: payments[p];
      outcome := Deleted;
    }

    /** `manage_vehicles`, POST: add a vehicle to an existing neighbor; plates need not be unique. */
    method CreateVehicle(neighborId: nat, licensePlate: string, make: string, model: string, controlNumber: string)
      returns (outcome: Outcome)
      modifies this
      ensures var p, mk, md, c := Strip(licensePlate), Strip(make), Strip(model), Strip(controlNumber);
        if neighborId !in old(neighbors) then
          outcome == NotFound && State() == old(State())
        else if p == [] || mk == [] || md == [] || c == [] then
          outcome == Invalid && State() == old(State())
        else
          && outcome == Created(NextId(old(vehicles).Keys))
          && State() == old(State()).WithVehicle(Vehicle(neighborId, p, mk, md, c))
      ensures old(State().Valid()) ==> State().Valid()
      ensures old(State().ReceiptsConsistent()) ==> State().ReceiptsConsistent()
    {
      if neighborId !in neighbors {
        outcome := NotFound;
        return;
      }
      var p, mk, md, c := Strip(licensePlate), Strip(make), Strip(model), Strip(controlNumber);
      if p == [] || mk == [] || md == [] || c == [] {
        outcome := Invalid;
        return;
      }
      var id := NextId(vehicles.Keys);
      vehicles := vehicles[id := Vehicle(neighborId, p, mk, md, c)];
      outcome := Created(id);
    }

    /** `delete_vehicle`: delete a vehicle only through the neighbor that owns it. */
    method DeleteVehicle(neighborId: nat, vehicleId: nat) returns (outcome: Outcome)
      modifies this
      ensures if neighborId !in old(neighbors)
                 || vehicleId !in old(vehicles)
                 || old(vehicles)[vehicleId].neighborId != neighborId then
          outcome == NotFound && State() == old(State())
        else
          outcome == Deleted && State() == old(State()).WithoutVehicle(vehicleId)
      ensures old(State().Valid()) ==> State().Valid()
      ensures old(State().ReceiptsConsistent()) ==> State().ReceiptsConsistent()
    {
      if neighborId !in neighbors || vehicleId !in vehicles || vehicles[vehicleId].neighborId != neighborId {
        outcome := NotFound;
        return;
      }
      vehicles := vehicles - {vehicleId};
      outcome := Deleted;
    }

    /**
     * `manage_payments`, POST. `parseAmount` stands for `float(...)`,
     * `secureFilename` for werkzeug's `secure_filename`, `stamp` for the
     * formatted `utcnow()` of the upload and `now` for the row's `created_at`.
     */
    method CreatePayment(
      neighborId: nat,
      paymentMethod: string,
      amount: string,
      depositAccount: string,
      screenshot: Option<string>,
      parseAmount: string -> Option<real>,
      secureFilename: string -> string,
      stamp: string,
      now: nat)
      returns (outcome: Outcome)
      modifies this
      ensures var m, value := Strip(paymentMethod), parseAmount(Strip(amount));
        var account := if Strip(depositAccount) == [] then None else Some(Strip(depositAccount));
        if neighborId !in old(neighbors) then
          outcome == NotFound && State() == old(State())
        else if m == [] || value.None? then
          outcome == Invalid && State() == old(State())
        else if HasUpload(screenshot) && !AllowedFile(screenshot.value) then
          outcome == DisallowedFile && State() == old(State())
        else
          var path := if HasUpload(screenshot) then Some(StoredName(stamp, secureFilename(screenshot.value))) else None;
          && outcome == Created(NextId(old(payments).Keys))
          && State() == old(State()).WithPayment(Payment(neighborId, m, value.value, account, path, now))
      ensures old(State().Valid()) ==> State().Valid()
      ensures outcome.Created? && HasUpload(screenshot) ==>
        var name := StoredName(stamp, secureFilename(screenshot.value));
        (old(State().ReceiptsConsistent()) && name !in old(uploads) ==> State().ReceiptsConsistent())
      ensures outcome.Created? && !HasUpload(screenshot) ==>
        (old(State().ReceiptsConsistent()) ==> State().ReceiptsConsistent())
    {
      if neighborId !in neighbors {
        outcome := NotFound;
        return;
      }
      var m := Strip(paymentMethod);
      var value := parseAmount(Strip(amount));
      var account := if Strip(depositAccount) == [] then None else Some(Strip(depositAccount));
      if m == [] || value.None? {
        outcome := Invalid;
        return;
      }
      var path: Option<string> := None;
      if HasUpload(screenshot) {
        if !AllowedFile(screenshot.value) {
          outcome := DisallowedFile;
          return;
        }
        path := Some(StoredName(stamp, secureFilename(screenshot.value)));
      }
      var row := Payment(neighborId, m, value.value, account, path, now);
      var id := NextId(payments.Keys);
      uploads, payments := if path.Some? then uploads + {path.value} else uploads, payments[id := row];
      outcome := Created(id);
    }

    /** `delete_payment`: remove the receipt file, if any (a missing one is fine), then the row. */
    method DeletePayment(neighborId: nat, paymentId: nat) returns (outcome: Outcome)
      modifies this
      ensures if paymentId !in old(payments) || old(payments)[paymentId].neighborId != neighborId then
          outcome == NotFound && State() == old(State())
        else
          outcome == Deleted && State() == old(State()).WithoutPayment(paymentId)
      ensures old(State().Valid()) ==> State().Valid()
      ensures old(State().ReceiptsConsistent()) ==> State().ReceiptsConsistent()
    {
      if paymentId !in payments || payments[paymentId].neighborId != neighborId {
        outcome := NotFound;
        return;
      }
      var p := payments[paymentId];
      if HasReceipt(p) {
        uploads := uploads - {p.screenshotPath.value};
      }
      payments := payments - {paymentId};
      outcome := Deleted;
    }
  }
}

/**
 * The tables the views update in place, with the operations of the core: bank and donor
 * saving (the latter behind the email gate), donation logging and deletion, request
 * creation (behind the email gate), suggestion and assignment, and marking fulfilled.
 * Donors and inventory rows are kept in insertion order, the order in which the queries
 * return them; banks, donations and requests are looked up by id only.
 */
module Registry {
  import opened Text
  import opened Validators
  import opened Records
  import opened Inventory
  import opened Allocation
  import opened Gate

  /** The constant credential of the destructive operations. */
  const AdminPin := "1234"

  datatype BankOutcome = BankMissingFields | BankUpdated | BankAdded(id: nat)

  /** The messages of the donor form, by the branch that produced them. */
  datatype DonorOutcome = DonorNotVerified | MissingFields | BadPhone | BadEmail | DonorUpdated | DonorAdded(id: nat)

  datatype CreateOutcome = RequestNotVerified | RequestCreated(id: nat)

  datatype AssignOutcome = NotListed | BankAssigned(bankId: nat) | DonorAssigned(donorId: nat) | NothingToAssign

  /** The ids of a table with counter `next`: positive and below it. */
  ghost predicate IdsBelow(ids: set<nat>, next: nat)
  {
    0 < next && forall id :: id in ids ==> 0 < id < next
  }

  /** Donor ids are positive, below the counter and increasing along the table. */
  ghost predicate DonorIdsValid(donors: seq<Donor>, next: nat)
  {
    && 0 < next
    && (forall i :: 0 <= i < |donors| ==> 0 < donors[i].id < next)
    && (forall i, j :: 0 <= i < j < |donors| ==> donors[i].id < donors[j].id)
  }

  /** One row per (bank, group), no negative stock, and every row refers to a known bank. */
  ghost predicate InventoryValid(inv: seq<InventoryRow>, bankIds: set<nat>)
  {
    && UniquePairs(inv)
    && NonNegative(inv)
    && (forall i :: 0 <= i < |inv| ==> inv[i].bankId in bankIds)
  }

  /** What the assign button reports for a listed request, given its suggestion. */
  function OutcomeOf(s: Suggestion): AssignOutcome
  {
    match s
    case BankSuggestion(_, b) => BankAssigned(b)
    case DonorSuggestion(_, d) => DonorAssigned(d)
    case NoSuggestion => NothingToAssign
  }

  /** Some row of `donors` has the id. */
  predicate HasDonorId(donors: seq<Donor>, id: nat)
  {
    exists i :: 0 <= i < |donors| && donors[i].id == id
  }

  /** The first row of `donors` with the id, or `|donors|`. */
  function FindDonor(donors: seq<Donor>, id: nat): (k: nat)
    ensures k <= |donors|
    ensures k < |donors| <==> HasDonorId(donors, id)
    ensures k < |donors| ==> donors[k].id == id
    ensures forall i :: 0 <= i < k ==> donors[i].id != id
  {
    if donors == [] then 0
    else if donors[0].id == id then 0
    else
      var k := 1 + FindDonor(donors[1..], id);
      assert HasDonorId(donors[1..], id) ==> HasDonorId(donors, id);
      assert HasDonorId(donors, id) ==> HasDonorId(donors[1..], id) by {
        if HasDonorId(donors, id) {
          var i :| 0 <= i < |donors| && donors[i].id == id;
          assert donors[1..][i - 1] == donors[i];
        }
      }
      k
  }

  class Database {
    var banks: map<nat, Bank>
    var donors: seq<Donor>
    var inventory: seq<InventoryRow>
    var donations: map<nat, Donation>
    var requests: map<nat, Request>
    /** The AUTOINCREMENT counters: the id the next insert receives. */
    var nextBankId: nat
    var nextDonorId: nat
    var nextDonationId: nat
    var nextRequestId: nat

    /**
     * Ids are positive and below their counter, donor ids increase along the table,
     * there is one inventory row per (bank, group), no stock is negative, and every
     * inventory row refers to an existing bank.
     */
    ghost predicate Valid()
      reads this
    {
      && IdsBelow(banks.Keys, nextBankId)
      && DonorIdsValid(donors, nextDonorId)
      && InventoryValid(inventory, banks.Keys)
      && IdsBelow(donations.Keys, nextDonationId)
      && IdsBelow(requests.Keys, nextRequestId)
    }

    constructor ()
      ensures Valid()
      ensures banks == map[] && donors == [] && inventory == [] && donations == map[] && requests == map[]
      ensures nextBankId == 1 && nextDonorId == 1 && nextDonationId == 1 && nextRequestId == 1
    {
      banks, donors, inventory, donations, requests := map[], [], [], map[], map[];
      nextBankId, nextDonorId, nextDonationId, nextRequestId := 1, 1, 1, 1;
    }

    // ------------------------------------------------------------ banks

    /**
     * The bank form. `selected` is the bank picked for editing, `None` for "Add New". Every
     * required field must be non-empty; then a selected bank is updated in place (a missing id
     * changes nothing) and otherwise a bank is inserted under the next id. As `if bid:` is
     * false for 0, a selected id of 0 inserts.
     */
    method SaveBank(selected: Option<nat>, name: string, address: string, phone: string, lat: real, lon: real, city: string)
      returns (o: BankOutcome)
      requires Valid()
      modifies this
      ensures Valid()
      ensures name == "" || address == "" || phone == "" || city == "" ==> o == BankMissingFields && unchanged(this)
      ensures name != "" && address != "" && phone != "" && city != "" ==> (
        if selected.Some? && selected.value != 0 then
          && o == BankUpdated
          && banks == (if selected.value in old(banks)
                       then old(banks)[selected.value := Bank(name, address, phone, lat, lon, city)]
                       else old(banks))
          && nextBankId == old(nextBankId)
        else
          && o == BankAdded(old(nextBankId))
          && banks == old(banks)[old(nextBankId) := Bank(name, address, phone, lat, lon, city)]
          && nextBankId == old(nextBankId) + 1)
      ensures donors == old(donors) && inventory == old(inventory)
      ensures donations == old(donations) && requests == old(requests)
      ensures nextDonorId == old(nextDonorId) && nextDonationId == old(nextDonationId) && nextRequestId == old(nextRequestId)
    {
      if name == "" || address == "" || phone == "" || city == "" {
        return BankMissingFields;
      }
      if selected.Some? && selected.value != 0 {
        if selected.value in banks {
          banks := banks[selected.value := Bank(name, address, phone, lat, lon, city)];
        }
        return BankUpdated;
      }
      banks := banks[nextBankId := Bank(name, address, phone, lat, lon, city)];
      o := BankAdded(nextBankId);
      nextBankId := nextBankId + 1;
    }

    // ------------------------------------------------------------ donors

    /**
     * The donor form. `selected` is the donor picked for editing, `None` for "Add New";
     * `otpEmail` is the OTP email field. Adding requires the donor flag to match the
     * stripped OTP email; editing bypasses the gate. The required fields, the phone and the
     * (unstripped) form email are then checked in that order. A successful add clears the flag.
     * A selected id of 0 skips the gate but still inserts, as `if donor_id:` is false for it.
     */
    method SaveDonor(session: Session, selected: Option<nat>, otpEmail: string,
                     name: string, gender: string, dob: Date, blood: BloodGroup, phone: string,
                     email: string, lat: real, lon: real, city: string, lastDonation: Date)
      returns (o: DonorOutcome)
      requires Valid()
      modifies this, session
      ensures Valid()
      ensures selected.None? && !Admits(old(session.verified), DonorFlagKey, otpEmail) ==>
        o == DonorNotVerified && unchanged(this) && unchanged(session)
      ensures selected.Some? || Admits(old(session.verified), DonorFlagKey, otpEmail) ==> (
        if name == "" || phone == "" || city == "" then
          o == MissingFields && unchanged(this) && unchanged(session)
        else if !ValidPhone(phone) then
          o == BadPhone && unchanged(this) && unchanged(session)
        else if !ValidEmail(email) then
          o == BadEmail && unchanged(this) && unchanged(session)
        else if selected.Some? && selected.value != 0 then
          && o == DonorUpdated && unchanged(session)
          && |donors| == |old(donors)|
          && (forall i :: 0 <= i < |donors| ==>
                donors[i] == if old(donors)[i].id == selected.value
                  then Donor(selected.value, name, gender, dob, blood, phone, email, lat, lon, city, lastDonation)
                  else old(donors)[i])
          && nextDonorId == old(nextDonorId)
        else
          && o == DonorAdded(old(nextDonorId))
          && donors == old(donors) + [Donor(old(nextDonorId), name, gender, dob, blood, phone, email, lat, lon, city, lastDonation)]
          && nextDonorId == old(nextDonorId) + 1
          && session.verified == old(session.verified) - {DonorFlagKey}
          && session.challenges == old(session.challenges))
      ensures banks == old(banks) && inventory == old(inventory)
      ensures donations == old(donations) && requests == old(requests)
      ensures nextBankId == old(nextBankId) && nextDonationId == old(nextDonationId) && nextRequestId == old(nextRequestId)
    {
      if selected.None? && !Admits(session.verified, DonorFlagKey, otpEmail) {
        return DonorNotVerified;
      }
      if name == "" || phone == "" || city == "" {
        return MissingFields;
      }
      if !ValidPhone(phone) {
        return BadPhone;
      }
      if !ValidEmail(email) {
        return BadEmail;
      }
      if selected.Some? && selected.value != 0 {
        var id := selected.value;
        UpdateDonor(Donor(id, name, gender, dob, blood, phone, email, lat, lon, city, lastDonation));
        o := DonorUpdated;
      } else {
        var id := InsertDonor(name, gender, dob, blood, phone, email, lat, lon, city, lastDonation);
        o := DonorAdded(id);
        session.ConsumeFlag(DonorFlagKey);
      }
    }

    /** `UPDATE Donor SET ... WHERE DonorID = ?`: every row with the id is replaced. */
    method UpdateDonor(row: Donor)
      requires Valid()
      modifies this`donors
      ensures Valid()
      ensures |donors| == |old(donors)|
      ensures forall i :: 0 <= i < |donors| ==> donors[i] == if old(donors)[i].id == row.id then row else old(donors)[i]
    {
      var ds := donors;
      donors := seq(|ds|, i requires 0 <= i < |ds| => if ds[i].id == row.id then row else ds[i]);
    }

    /** `INSERT INTO Donor`: the row is appended under the next id. */
    method InsertDonor(name: string, gender: string, dob: Date, blood: BloodGroup, phone: string,
                       email: string, lat: real, lon: real, city: string, lastDonation: Date)
      returns (id: nat)
      requires Valid()
      modifies this`donors, this`nextDonorId
      ensures Valid()
      ensures id == old(nextDonorId) && nextDonorId == id + 1
      ensures donors == old(donors) + [Donor(id, name, gender, dob, blood, phone, email, lat, lon, city, lastDonation)]
    {
      id := nextDonorId;
      donors := donors + [Donor(id, name, gender, dob, blood, phone, email, lat, lon, city, lastDonation)];
      nextDonorId := nextDonorId + 1;
    }

    // ------------------------------------------------------------ donations

    /**
     * Logging a donation: the donation row is inserted, the donor's last donation date is
     * set, and the (bank, donor's group) stock grows by `units`, its row being created
     * when the pair is new. The donor and the bank come from the form's lists.
     */
    method LogDonation(donorId: nat, bankId: nat, date: Date, units: int, hemoglobin: real)
      requires Valid()
      requires HasDonorId(donors, donorId) && bankId in banks
      requires 1 <= units <= 5
      modifies this
      ensures Valid()
      ensures donations == old(donations)[old(nextDonationId) := Donation(donorId, bankId, date, units, hemoglobin)]
      ensures nextDonationId == old(nextDonationId) + 1
      ensures |donors| == |old(donors)|
      ensures forall i :: 0 <= i < |donors| ==>
        donors[i] == if old(donors)[i].id == donorId then old(donors)[i].(lastDonation := date) else old(donors)[i]
      ensures inventory == Restock(old(inventory), (bankId, old(donors)[FindDonor(old(donors), donorId)].blood), units, date)
      ensures banks == old(banks) && requests == old(requests)
      ensures nextBankId == old(nextBankId) && nextDonorId == old(nextDonorId) && nextRequestId == old(nextRequestId)
    {
      InsertDonation(Donation(donorId, bankId, date, units, hemoglobin));
      // Stamping the date changes no blood group, so the group read afterwards is this one.
      var g := donors[FindDonor(donors, donorId)].blood;
      StampLastDonation(donorId, date);
      AddStock(bankId, g, units, date);
    }

    /** The `INSERT INTO Donation` of logging a donation. */
    method InsertDonation(d: Donation)
      requires Valid()
      modifies this`donations, this`nextDonationId
      ensures Valid()
      ensures donations == old(donations)[old(nextDonationId) := d]
      ensures nextDonationId == old(nextDonationId) + 1
    {
      donations := donations[nextDonationId := d];
      nextDonationId := nextDonationId + 1;
    }

    /** `UPDATE Donor SET LastDonationDate`: every row with the id gets the date, nothing else changes. */
    method StampLastDonation(donorId: nat, date: Date)
      requires Valid()
      modifies this`donors
      ensures Valid()
      ensures |donors| == |old(donors)|
      ensures forall i :: 0 <= i < |donors| ==>
        donors[i] == if old(donors)[i].id == donorId then old(donors)[i].(lastDonation := date) else old(donors)[i]
    {
      var ds := donors;
      donors := seq(|ds|, i requires 0 <= i < |ds| =>
        if ds[i].id == donorId then ds[i].(lastDonation := date) else ds[i]);
    }

    /** The inventory half of logging a donation, on an existing bank. */
    method AddStock(bankId: nat, g: BloodGroup, units: int, date: Date)
      requires Valid() && bankId in banks && units >= 0
      modifies this`inventory
      ensures Valid()
      ensures inventory == Restock(old(inventory), (bankId, g), units, date)
    {
      var inv := inventory;
      RestockKeepsNonNegative(inv, (bankId, g), units, date);
      RestockStaysWithin(inv, banks.Keys, (bankId, g), units, date);
      inventory := Restock(inv, (bankId, g), units, date);
    }

    /** Deleting a donation behind the PIN; the inventory increment it caused is not reversed. */
    method DeleteDonation(id: int, pin: string) returns (deleted: bool)
      requires Valid()
      modifies this
      ensures Valid()
      ensures deleted <==> id > 0 && pin == AdminPin
      ensures donations == if deleted then old(donations) - {id as nat} else old(donations)
      ensures inventory == old(inventory)
      ensures banks == old(banks) && donors == old(donors) && requests == old(requests)
      ensures nextDonationId == old(nextDonationId)
      ensures nextBankId == old(nextBankId) && nextDonorId == old(nextDonorId) && nextRequestId == old(nextRequestId)
    {
      deleted := id > 0 && pin == AdminPin;
      if deleted {
        donations := donations - {id as nat};
      }
    }

    // ------------------------------------------------------------ requests

    /**
     * The request form. The request flag must match the stripped OTP email; the new row
     * carries that email, is Pending and unassigned; the flag is then cleared. The form fields
     * are not validated. `units` is bounded by its input widget.
     */
    method CreateRequest(session: Session, otpEmail: string, patient: string, group: BloodGroup,
                         units: int, city: string, lat: real, lon: real, date: Date)
      returns (o: CreateOutcome)
      requires Valid()
      requires 1 <= units <= 10
      modifies this, session
      ensures Valid()
      ensures !Admits(old(session.verified), RequestFlagKey, otpEmail) ==>
        o == RequestNotVerified && unchanged(this) && unchanged(session)
      ensures Admits(old(session.verified), RequestFlagKey, otpEmail) ==>
        && o == RequestCreated(old(nextRequestId))
        && requests == old(requests)[old(nextRequestId) :=
             Request(patient, group, units, city, Strip(otpEmail), lat, lon, date, Pending, None, None)]
        && nextRequestId == old(nextRequestId) + 1
        && session.verified == old(session.verified) - {RequestFlagKey}
        && session.challenges == old(session.challenges)
      ensures o.RequestCreated? ==> forall e :: !Admits(session.verified, RequestFlagKey, e)
      ensures banks == old(banks) && donors == old(donors)
      ensures inventory == old(inventory) && donations == old(donations)
      ensures nextBankId == old(nextBankId) && nextDonorId == old(nextDonorId) && nextDonationId == old(nextDonationId)
    {
      if !Admits(session.verified, RequestFlagKey, otpEmail) {
        return RequestNotVerified;
      }
      var email := Strip(otpEmail);
      requests := requests[nextRequestId := Request(patient, group, units, city, email, lat, lon, date, Pending, None, None)];
      o := RequestCreated(nextRequestId);
      nextRequestId := nextRequestId + 1;
      session.ConsumeFlag(RequestFlagKey);
    }

    /**
     * The suggestion shown for a pending request: the bank query, the loop attaching
     * `dist2` to each row, and the head of the stable sort; the same for donors when no
     * bank row qualifies.
     */
    method SuggestFor(r: Request) returns (s: Suggestion)
      ensures s == Suggest(inventory, banks, donors, r)
    {
      var rows := QualifyingRows(inventory, banks, r, |inventory|);
      if |rows| > 0 {
        s := NearestBankOf(r, rows);
      } else {
        s := NearestDonorOf(r);
      }
    }

    /** The bank branch: the head of the bank rows sorted by their keys. */
    method NearestBankOf(r: Request, rows: seq<nat>) returns (s: Suggestion)
      requires rows == QualifyingRows(inventory, banks, r, |inventory|) && |rows| > 0
      ensures s == Suggest(inventory, banks, donors, r)
    {
      var ds := BankDistancesOf(r, rows);
      var k := NearestIndex(ds);
      s := BankSuggestion(rows[k], inventory[rows[k]].bankId);
    }

    /** The donor branch, reached only when no bank row qualifies. */
    method NearestDonorOf(r: Request) returns (s: Suggestion)
      requires |QualifyingRows(inventory, banks, r, |inventory|)| == 0
      ensures s == Suggest(inventory, banks, donors, r)
    {
      var idx := MatchingDonors(donors, r, |donors|);
      if |idx| > 0 {
        var ds := DonorDistancesOf(r, idx);
        var k := NearestIndex(ds);
        s := DonorSuggestion(idx[k], donors[idx[k]].id);
      } else {
        s := NoSuggestion;
      }
    }

    /** The loop attaching `dist2` to every returned bank row. */
    method BankDistancesOf(r: Request, rows: seq<nat>) returns (ds: seq<real>)
      requires forall q :: 0 <= q < |rows| ==> BankQualifies(inventory, banks, r, rows[q])
      ensures ds == BankDistances(inventory, banks, r, rows)
    {
      ds := [];
      var q := 0;
      while q < |rows|
        invariant 0 <= q <= |rows| && |ds| == q
        invariant forall t :: 0 <= t < q ==> ds[t] == BankDist2(inventory, banks, r, rows[t])
      {
        var b := banks[inventory[rows[q]].bankId];
        ds := ds + [Dist2(b.lat, b.lon, r.lat, r.lon)];
        q := q + 1;
      }
    }

    /** The loop attaching `dist2` to every returned donor. */
    method DonorDistancesOf(r: Request, idx: seq<nat>) returns (ds: seq<real>)
      requires forall q :: 0 <= q < |idx| ==> idx[q] < |donors|
      ensures ds == DonorDistances(donors, r, idx)
    {
      ds := [];
      var q := 0;
      while q < |idx|
        invariant 0 <= q <= |idx| && |ds| == q
        invariant forall t :: 0 <= t < q ==> ds[t] == DonorDist2(donors, r, idx[t])
      {
        var d := donors[idx[q]];
        ds := ds + [Dist2(d.lat, d.lon, r.lat, r.lon)];
        q := q + 1;
      }
    }

    /**
     * The assign button of request `rid`, which is listed only while the request is Pending.
     * A bank suggestion assigns the bank and withdraws the required units from that
     * (bank, group) row alone, which stays non-negative; a donor suggestion assigns the
     * donor and leaves the inventory alone. There is no re-check beyond the suggestion itself.
     */
    method AssignSuggested(rid: nat) returns (o: AssignOutcome)
      requires Valid()
      modifies this
      ensures Valid()
      ensures !(rid in old(requests) && old(requests)[rid].status == Pending) ==> o == NotListed && unchanged(this)
      ensures rid in old(requests) && old(requests)[rid].status == Pending ==>
        o == OutcomeOf(Suggest(old(inventory), old(banks), old(donors), old(requests)[rid]))
      ensures o.BankAssigned? ==>
        && requests == old(requests)[rid := old(requests)[rid].(assignedBank := Some(o.bankId), status := Assigned)]
        && inventory == Withdraw(old(inventory), (o.bankId, old(requests)[rid].group), old(requests)[rid].unitsRequired)
      ensures o.DonorAssigned? ==>
        && requests == old(requests)[rid := old(requests)[rid].(assignedDonor := Some(o.donorId), status := Assigned)]
        && inventory == old(inventory)
      ensures o == NothingToAssign ==> unchanged(this)
      ensures banks == old(banks) && donors == old(donors) && donations == old(donations)
      ensures nextBankId == old(nextBankId) && nextDonorId == old(nextDonorId)
      ensures nextDonationId == old(nextDonationId) && nextRequestId == old(nextRequestId)
    {
      if !(rid in requests && requests[rid].status == Pending) {
        return NotListed;
      }
      var r := requests[rid];
      var s := SuggestFor(r);
      SuggestedRowQualifies(inventory, banks, donors, r);
      match s
      case BankSuggestion(row, bankId) =>
        AssignBank(rid, row, bankId);
        o := BankAssigned(bankId);
      case DonorSuggestion(_, donorId) =>
        AssignDonor(rid, donorId);
        o := DonorAssigned(donorId);
      case NoSuggestion =>
        o := NothingToAssign;
    }

    /** The bank branch of the assignment, for a row that qualifies: the request is assigned and the row's units drop. */
    method AssignBank(rid: nat, row: nat, bankId: nat)
      requires Valid() && rid in requests
      requires BankQualifies(inventory, banks, requests[rid], row) && inventory[row].bankId == bankId
      modifies this`requests, this`inventory
      ensures Valid()
      ensures requests == old(requests)[rid := old(requests)[rid].(assignedBank := Some(bankId), status := Assigned)]
      ensures inventory == Withdraw(old(inventory), (bankId, old(requests)[rid].group), old(requests)[rid].unitsRequired)
    {
      var r := requests[rid];
      var inv := inventory;
      WithdrawFromRow(inv, row, r.unitsRequired);
      requests := requests[rid := r.(assignedBank := Some(bankId), status := Assigned)];
      inventory := Withdraw(inv, PairOf(inv[row]), r.unitsRequired);
    }

    /** The donor branch of the assignment: the request is assigned, the inventory is left alone. */
    method AssignDonor(rid: nat, donorId: nat)
      requires Valid() && rid in requests
      modifies this`requests
      ensures Valid()
      ensures requests == old(requests)[rid := old(requests)[rid].(assignedDonor := Some(donorId), status := Assigned)]
    {
      requests := requests[rid := requests[rid].(assignedDonor := Some(donorId), status := Assigned)];
    }

    /** "Mark Fulfilled": any positive id is accepted; an existing request becomes Fulfilled whatever its status. */
    method MarkFulfilled(rid: int) returns (accepted: bool)
      requires Valid()
      modifies this
      ensures Valid()
      ensures accepted <==> rid > 0
      ensures requests == if rid > 0 && rid as nat in old(requests)
        then old(requests)[rid as nat := old(requests)[rid as nat].(status := Fulfilled)]
        else old(requests)
      ensures banks == old(banks) && donors == old(donors)
      ensures inventory == old(inventory) && donations == old(donations)
      ensures nextRequestId == old(nextRequestId)
      ensures nextBankId == old(nextBankId) && nextDonorId == old(nextDonorId) && nextDonationId == old(nextDonationId)
    {
      accepted := rid > 0;
      if accepted && rid as nat in requests {
        requests := requests[rid as nat := requests[rid as nat].(status := Fulfilled)];
      }
    }
  }

  /** Restocking a known bank keeps every inventory row referring to a known bank. */
  lemma RestockStaysWithin(inv: seq<InventoryRow>, banks: set<nat>, p: Pair, units: int, date: Date)
    requires UniquePairs(inv) && p.0 in banks
    requires forall i :: 0 <= i < |inv| ==> inv[i].bankId in banks
    ensures forall i :: 0 <= i < |Restock(inv, p, units, date)| ==> Restock(inv, p, units, date)[i].bankId in banks
  {
    var inv' := Restock(inv, p, units, date);
    if HasPair(inv, p) {
      assert forall i :: 0 <= i < |inv| ==> inv'[i].bankId == inv[i].bankId;
    } else {
      assert forall i :: 0 <= i < |inv| ==> inv'[i] == inv[i];
    }
  }
}

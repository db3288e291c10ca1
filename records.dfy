/**
 * The rows of the five tables the core reads and writes. Dates are the ISO `YYYY-MM-DD`
 * strings the program stores; coordinates are exact reals and always present.
 */
module Records {

  datatype Option<+T> = None | Some(value: T)

  /** The eight ABO/Rh groups offered by every blood-group selector. */
  datatype BloodGroup = APos | ANeg | BPos | BNeg | OPos | ONeg | ABPos | ABNeg

  /** The request statuses the program writes: the column default and the two updates. */
  datatype Status = Pending | Assigned | Fulfilled

  type Date = string

  /** A row of `Donor`; `id` is its `DonorID`. */
  datatype Donor = Donor(
    id: nat, name: string, gender: string, dob: Date, blood: BloodGroup, phone: string,
    email: string, lat: real, lon: real, city: string, lastDonation: Date)

  /** A row of `BloodBank`, keyed by its `BankID` in the table. */
  datatype Bank = Bank(name: string, address: string, phone: string, lat: real, lon: real, city: string)

  /** A row of `Inventory`: the units a bank holds of one group. */
  datatype InventoryRow = InventoryRow(bankId: nat, group: BloodGroup, units: int, lastUpdated: Date)

  /** A row of `Donation`, keyed by its `DonationID` in the table. */
  datatype Donation = Donation(donorId: nat, bankId: nat, date: Date, units: int, hemoglobin: real)

  /** A row of `Request`, keyed by its `RequestID` in the table. */
  datatype Request = Request(
    patient: string, group: BloodGroup, unitsRequired: int, city: string, email: string,
    lat: real, lon: real, date: Date, status: Status,
    assignedBank: Option<nat>, assignedDonor: Option<nat>)
}

/**
 * Suggestion of a supply source for a pending request. The bank query keeps the inventory
 * rows of the exact blood group holding enough units (joined with their bank); when it is
 * empty, the donor query keeps the donors of the exact group. Either list is ranked by
 * squared distance to the request with a stable sort, and its head is suggested: on ties
 * the first minimal row in table order wins.
 */
module Allocation {
  import opened Records

  /** `(lat - rLat)**2 + (lon - rLon)**2`: only the order matters, so no square root is taken. */
  function Dist2(lat: real, lon: real, rLat: real, rLon: real): (d: real)
    ensures d >= 0.0
  {
    (lat - rLat) * (lat - rLat) + (lon - rLon) * (lon - rLon)
  }

  // ---------------------------------------------------------------- first minimum

  /** `k` is where a stable sort by key would take its head from: minimal, and before every other minimum. */
  ghost predicate IsFirstMinimum(ds: seq<real>, k: int)
  {
    && 0 <= k < |ds|
    && (forall j :: 0 <= j < |ds| ==> ds[k] <= ds[j])
    && (forall j :: 0 <= j < k ==> ds[k] < ds[j])
  }

  /** The index of `sorted(xs, key=dist2)[0]` in `xs`, given the keys `ds`. */
  function NearestIndex(ds: seq<real>): (k: nat)
    requires |ds| > 0
    ensures IsFirstMinimum(ds, k)
  {
    if |ds| == 1 then 0
    else
      var k := NearestIndex(ds[..|ds| - 1]);
      if ds[|ds| - 1] < ds[k] then |ds| - 1 else k
  }

  /** The first minimum is unique, so the suggestion is fully determined by the keys. */
  lemma FirstMinimumUnique(ds: seq<real>, k: int, k': int)
    requires IsFirstMinimum(ds, k) && IsFirstMinimum(ds, k')
    ensures k == k'
  {
    assert ds[k] <= ds[k'] && ds[k'] <= ds[k];
  }

  // ---------------------------------------------------------------- banks

  /** Row `i` of the inventory is returned by the bank query for `r`. */
  predicate BankQualifies(inv: seq<InventoryRow>, banks: map<nat, Bank>, r: Request, i: int)
  {
    && 0 <= i < |inv|
    && inv[i].group == r.group
    && inv[i].units >= r.unitsRequired
    && inv[i].bankId in banks
  }

  function BankDist2(inv: seq<InventoryRow>, banks: map<nat, Bank>, r: Request, i: int): real
    requires BankQualifies(inv, banks, r, i)
  {
    var b := banks[inv[i].bankId];
    Dist2(b.lat, b.lon, r.lat, r.lon)
  }

  /** The rows before `n` returned by the bank query, in table order. */
  function QualifyingRows(inv: seq<InventoryRow>, banks: map<nat, Bank>, r: Request, n: nat): (rows: seq<nat>)
    requires n <= |inv|
    ensures forall q :: 0 <= q < |rows| ==> rows[q] < n && BankQualifies(inv, banks, r, rows[q])
    ensures forall q, q' :: 0 <= q < q' < |rows| ==> rows[q] < rows[q']
    ensures forall i :: 0 <= i < n && BankQualifies(inv, banks, r, i) ==> i in rows
  {
    if n == 0 then []
    else QualifyingRows(inv, banks, r, n - 1) + (if BankQualifies(inv, banks, r, n - 1) then [n - 1] else [])
  }

  /** The `dist2` key the bank loop attaches to each returned row. */
  function BankDistances(inv: seq<InventoryRow>, banks: map<nat, Bank>, r: Request, rows: seq<nat>): (ds: seq<real>)
    requires forall q :: 0 <= q < |rows| ==> BankQualifies(inv, banks, r, rows[q])
    ensures |ds| == |rows|
  {
    seq(|rows|, q requires 0 <= q < |rows| => BankDist2(inv, banks, r, rows[q]))
  }

  /** Row `i` is the bank suggestion: it qualifies, no qualifying row is nearer, and none before it is as near. */
  ghost predicate IsNearestBank(inv: seq<InventoryRow>, banks: map<nat, Bank>, r: Request, i: int)
  {
    && BankQualifies(inv, banks, r, i)
    && forall j :: BankQualifies(inv, banks, r, j) ==>
         && BankDist2(inv, banks, r, i) <= BankDist2(inv, banks, r, j)
         && (j < i ==> BankDist2(inv, banks, r, i) < BankDist2(inv, banks, r, j))
  }

  // ---------------------------------------------------------------- donors

  /** Donor `i` is returned by the donor query for `r`: exact blood group, no substitution. */
  predicate DonorMatches(donors: seq<Donor>, r: Request, i: int)
  {
    0 <= i < |donors| && donors[i].blood == r.group
  }

  function DonorDist2(donors: seq<Donor>, r: Request, i: int): real
    requires 0 <= i < |donors|
  {
    Dist2(donors[i].lat, donors[i].lon, r.lat, r.lon)
  }

  /** The donors before `n` returned by the donor query, in table order. */
  function MatchingDonors(donors: seq<Donor>, r: Request, n: nat): (idx: seq<nat>)
    requires n <= |donors|
    ensures forall q :: 0 <= q < |idx| ==> idx[q] < n && DonorMatches(donors, r, idx[q])
    ensures forall q, q' :: 0 <= q < q' < |idx| ==> idx[q] < idx[q']
    ensures forall i :: 0 <= i < n && DonorMatches(donors, r, i) ==> i in idx
  {
    if n == 0 then []
    else MatchingDonors(donors, r, n - 1) + (if DonorMatches(donors, r, n - 1) then [n - 1] else [])
  }

  /** The `dist2` key the donor loop attaches to each returned donor. */
  function DonorDistances(donors: seq<Donor>, r: Request, idx: seq<nat>): (ds: seq<real>)
    requires forall q :: 0 <= q < |idx| ==> idx[q] < |donors|
    ensures |ds| == |idx|
  {
    seq(|idx|, q requires 0 <= q < |idx| => DonorDist2(donors, r, idx[q]))
  }

  ghost predicate IsNearestDonor(donors: seq<Donor>, r: Request, i: int)
  {
    && DonorMatches(donors, r, i)
    && forall j :: DonorMatches(donors, r, j) ==>
         && DonorDist2(donors, r, i) <= DonorDist2(donors, r, j)
         && (j < i ==> DonorDist2(donors, r, i) < DonorDist2(donors, r, j))
  }

  // ---------------------------------------------------------------- the suggestion

  /** What the pending-request list offers to assign: a bank row, a donor, or nothing. */
  datatype Suggestion = BankSuggestion(row: nat, bankId: nat) | DonorSuggestion(index: nat, donorId: nat) | NoSuggestion

  /**
   * The suggestion for `r`: the nearest qualifying bank row if there is one; only
   * otherwise the nearest donor of the exact group; otherwise nothing.
   */
  function Suggest(inv: seq<InventoryRow>, banks: map<nat, Bank>, donors: seq<Donor>, r: Request): Suggestion
  {
    var rows := QualifyingRows(inv, banks, r, |inv|);
    if |rows| > 0 then
      var k := NearestIndex(BankDistances(inv, banks, r, rows));
      BankSuggestion(rows[k], inv[rows[k]].bankId)
    else
      var idx := MatchingDonors(donors, r, |donors|);
      if |idx| > 0 then
        var k := NearestIndex(DonorDistances(donors, r, idx));
        DonorSuggestion(idx[k], donors[idx[k]].id)
      else
        NoSuggestion
  }

  /**
   * A bank row is suggested exactly when some row qualifies, and it is the nearest qualifying
   * row, the first in table order among equally near ones. A donor is suggested exactly when
   * no row qualifies and some donor has the group, and it is the nearest such donor, first
   * among equals. Otherwise nothing is suggested.
   */
  lemma SuggestIsNearest(inv: seq<InventoryRow>, banks: map<nat, Bank>, donors: seq<Donor>, r: Request)
    ensures var s := Suggest(inv, banks, donors, r);
      && (s.BankSuggestion? <==> exists i :: BankQualifies(inv, banks, r, i))
      && (s.BankSuggestion? ==> IsNearestBank(inv, banks, r, s.row) && s.bankId == inv[s.row].bankId)
      && (s.DonorSuggestion? <==> (forall i :: !BankQualifies(inv, banks, r, i)) && exists j :: DonorMatches(donors, r, j))
      && (s.DonorSuggestion? ==> IsNearestDonor(donors, r, s.index) && s.donorId == donors[s.index].id)
  {
    var rows := QualifyingRows(inv, banks, r, |inv|);
    if |rows| > 0 {
      NearestRowIsNearestBank(inv, banks, r, rows, NearestIndex(BankDistances(inv, banks, r, rows)));
    } else {
      var idx := MatchingDonors(donors, r, |donors|);
      if |idx| > 0 {
        NearestIndexIsNearestDonor(donors, r, idx, NearestIndex(DonorDistances(donors, r, idx)));
      }
    }
  }

  /** A suggested bank row is one the bank query returns, and the suggestion names its bank. */
  lemma SuggestedRowQualifies(inv: seq<InventoryRow>, banks: map<nat, Bank>, donors: seq<Donor>, r: Request)
    ensures var s := Suggest(inv, banks, donors, r);
      s.BankSuggestion? ==> BankQualifies(inv, banks, r, s.row) && s.bankId == inv[s.row].bankId
  {
  }

  lemma NearestRowIsNearestBank(inv: seq<InventoryRow>, banks: map<nat, Bank>, r: Request, rows: seq<nat>, k: nat)
    requires rows == QualifyingRows(inv, banks, r, |inv|)
    requires IsFirstMinimum(BankDistances(inv, banks, r, rows), k)
    ensures IsNearestBank(inv, banks, r, rows[k])
  {
    var ds := BankDistances(inv, banks, r, rows);
    forall j | BankQualifies(inv, banks, r, j)
      ensures BankDist2(inv, banks, r, rows[k]) <= BankDist2(inv, banks, r, j)
      ensures j < rows[k] ==> BankDist2(inv, banks, r, rows[k]) < BankDist2(inv, banks, r, j)
    {
      var q :| 0 <= q < |rows| && rows[q] == j;
      assert ds[q] == BankDist2(inv, banks, r, j);
    }
  }

  lemma NearestIndexIsNearestDonor(donors: seq<Donor>, r: Request, idx: seq<nat>, k: nat)
    requires idx == MatchingDonors(donors, r, |donors|)
    requires IsFirstMinimum(DonorDistances(donors, r, idx), k)
    ensures IsNearestDonor(donors, r, idx[k])
  {
    var ds := DonorDistances(donors, r, idx);
    forall j | DonorMatches(donors, r, j)
      ensures DonorDist2(donors, r, idx[k]) <= DonorDist2(donors, r, j)
      ensures j < idx[k] ==> DonorDist2(donors, r, idx[k]) < DonorDist2(donors, r, j)
    {
      var q :| 0 <= q < |idx| && idx[q] == j;
      assert ds[q] == DonorDist2(donors, r, j);
    }
  }

  /** The two banks at (0, 0) and (10, 10), both stocked, and a request at (1, 1): the bank at (0, 0) is suggested. */
  lemma NearerBankWins(r: Request)
    requires r.lat == 1.0 && r.lon == 1.0 && r.group == ONeg && r.unitsRequired == 2
    ensures var banks := map[1 := Bank("Far", "", "", 10.0, 10.0, ""), 2 := Bank("Near", "", "", 0.0, 0.0, "")];
      var inv := [InventoryRow(1, ONeg, 5, ""), InventoryRow(2, ONeg, 5, "")];
      Suggest(inv, banks, [], r) == BankSuggestion(1, 2)
  {
    var banks := map[1 := Bank("Far", "", "", 10.0, 10.0, ""), 2 := Bank("Near", "", "", 0.0, 0.0, "")];
    var inv := [InventoryRow(1, ONeg, 5, ""), InventoryRow(2, ONeg, 5, "")];
    SuggestIsNearest(inv, banks, [], r);
    assert BankQualifies(inv, banks, r, 0) && BankQualifies(inv, banks, r, 1);
    assert BankDist2(inv, banks, r, 1) < BankDist2(inv, banks, r, 0);
  }

  /** With no bank row holding enough of `O-`, the single `O-` donor is suggested. */
  lemma DonorFallbackExample(r: Request, d: Donor)
    requires r.group == ONeg && r.unitsRequired == 3 && d.blood == ONeg
    ensures Suggest([InventoryRow(1, ONeg, 2, "")], map[1 := Bank("B", "", "", 0.0, 0.0, "")], [d], r)
      == DonorSuggestion(0, d.id)
  {
    var inv := [InventoryRow(1, ONeg, 2, "")];
    var banks := map[1 := Bank("B", "", "", 0.0, 0.0, "")];
    SuggestIsNearest(inv, banks, [d], r);
    assert !BankQualifies(inv, banks, r, 0);
    assert DonorMatches([d], r, 0);
  }
}

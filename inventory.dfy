/**
 * The `Inventory` table as a sequence of rows in insertion order, the units it holds per
 * (bank, blood group), and the two updates the core applies to it.
 * The schema does not make (BankID, BloodGroup) unique; the model keeps that as an
 * invariant, which donation logging maintains by inserting a row only for a new pair.
 */
module Inventory {
  import opened Records

  /** A (BankID, BloodGroup) key. */
  type Pair = (nat, BloodGroup)

  function PairOf(row: InventoryRow): Pair
  {
    (row.bankId, row.group)
  }

  /** At most one row per (bank, group). */
  ghost predicate UniquePairs(inv: seq<InventoryRow>)
  {
    forall i, j :: 0 <= i < j < |inv| ==> PairOf(inv[i]) != PairOf(inv[j])
  }

  ghost predicate NonNegative(inv: seq<InventoryRow>)
  {
    forall i :: 0 <= i < |inv| ==> inv[i].units >= 0
  }

  /** Whether some row holds the pair; the `if row:` test of donation logging. */
  predicate HasPair(inv: seq<InventoryRow>, p: Pair)
  {
    exists i :: 0 <= i < |inv| && PairOf(inv[i]) == p
  }

  /** The units of pair `p` the table holds: the sum over the rows of that pair. */
  function Units(inv: seq<InventoryRow>, p: Pair): int
  {
    if inv == [] then 0
    else Units(inv[..|inv| - 1], p) + (if PairOf(inv[|inv| - 1]) == p then inv[|inv| - 1].units else 0)
  }

  /** A pair no row holds has no units. */
  lemma {:induction false} UnitsAbsent(inv: seq<InventoryRow>, p: Pair)
    requires !HasPair(inv, p)
    ensures Units(inv, p) == 0
  {
    if inv != [] {
      var pre := inv[..|inv| - 1];
      assert !HasPair(pre, p) by {
        forall i | 0 <= i < |pre|
          ensures PairOf(pre[i]) != p
        {
          assert pre[i] == inv[i];
        }
      }
      UnitsAbsent(pre, p);
    }
  }

  /** With unique pairs, the units of a row's pair are that row's units. */
  lemma {:induction false} UnitsAt(inv: seq<InventoryRow>, k: nat)
    requires UniquePairs(inv) && k < |inv|
    ensures Units(inv, PairOf(inv[k])) == inv[k].units
  {
    var pre := inv[..|inv| - 1];
    if k < |inv| - 1 {
      assert pre[k] == inv[k];
      UnitsAt(pre, k);
    } else {
      assert !HasPair(pre, PairOf(inv[k])) by {
        forall i | 0 <= i < |pre|
          ensures PairOf(pre[i]) != PairOf(inv[k])
        {
          assert pre[i] == inv[i];
        }
      }
      UnitsAbsent(pre, PairOf(inv[k]));
    }
  }

  /**
   * Rewriting units of rows of pair `p` alone, keeping every row's pair, leaves the units of
   * every other pair unchanged.
   */
  lemma {:induction false} UnitsUnaffected(inv: seq<InventoryRow>, inv': seq<InventoryRow>, p: Pair, q: Pair)
    requires |inv'| == |inv| && q != p
    requires forall i :: 0 <= i < |inv| ==> PairOf(inv'[i]) == PairOf(inv[i])
    requires forall i :: 0 <= i < |inv| && PairOf(inv[i]) != p ==> inv'[i].units == inv[i].units
    ensures Units(inv', q) == Units(inv, q)
  {
    if inv != [] {
      var n := |inv| - 1;
      UnitsUnaffected(inv[..n], inv'[..n], p, q);
    }
  }

  /**
   * Donation logging: `units` more of pair `p`. An existing row (every row, were there
   * several) is incremented and stamped with `date`; otherwise a row is appended.
   */
  function Restock(inv: seq<InventoryRow>, p: Pair, units: int, date: Date): (inv': seq<InventoryRow>)
    requires UniquePairs(inv)
    ensures UniquePairs(inv')
    ensures HasPair(inv, p) ==> |inv'| == |inv| && forall i :: 0 <= i < |inv| ==>
      inv'[i] == if PairOf(inv[i]) == p then inv[i].(units := inv[i].units + units, lastUpdated := date) else inv[i]
    ensures !HasPair(inv, p) ==> inv' == inv + [InventoryRow(p.0, p.1, units, date)]
  {
    if HasPair(inv, p) then
      var inv' := seq(|inv|, i requires 0 <= i < |inv| =>
        if PairOf(inv[i]) == p then inv[i].(units := inv[i].units + units, lastUpdated := date) else inv[i]);
      assert forall i :: 0 <= i < |inv| ==> PairOf(inv'[i]) == PairOf(inv[i]);
      inv'
    else
      inv + [InventoryRow(p.0, p.1, units, date)]
  }

  /** Restocking adds `units` to pair `p` and leaves every other pair's units alone. */
  lemma RestockUnits(inv: seq<InventoryRow>, p: Pair, units: int, date: Date, q: Pair)
    requires UniquePairs(inv)
    ensures Units(Restock(inv, p, units, date), q) == Units(inv, q) + (if q == p then units else 0)
  {
    var inv' := Restock(inv, p, units, date);
    if HasPair(inv, p) {
      if q == p {
        var k :| 0 <= k < |inv| && PairOf(inv[k]) == p;
        UnitsAt(inv, k);
        UnitsAt(inv', k);
      } else {
        UnitsUnaffected(inv, inv', p, q);
      }
    } else {
      assert inv'[..|inv'| - 1] == inv;
    }
  }

  /** Restocking a non-negative amount keeps every row non-negative. */
  lemma RestockKeepsNonNegative(inv: seq<InventoryRow>, p: Pair, units: int, date: Date)
    requires UniquePairs(inv) && NonNegative(inv) && units >= 0
    ensures NonNegative(Restock(inv, p, units, date))
  {
  }

  /** Assignment: `units` fewer of pair `p`, on every row of that pair; `LastUpdated` is not touched. */
  function Withdraw(inv: seq<InventoryRow>, p: Pair, units: int): (inv': seq<InventoryRow>)
    ensures |inv'| == |inv|
    ensures forall i :: 0 <= i < |inv| ==>
      inv'[i] == if PairOf(inv[i]) == p then inv[i].(units := inv[i].units - units) else inv[i]
  {
    seq(|inv|, i requires 0 <= i < |inv| =>
      if PairOf(inv[i]) == p then inv[i].(units := inv[i].units - units) else inv[i])
  }

  /** Withdrawing changes units only, so it keeps one row per pair. */
  lemma WithdrawKeepsUnique(inv: seq<InventoryRow>, p: Pair, units: int)
    requires UniquePairs(inv)
    ensures UniquePairs(Withdraw(inv, p, units))
  {
    var inv' := Withdraw(inv, p, units);
    assert forall i :: 0 <= i < |inv| ==> PairOf(inv'[i]) == PairOf(inv[i]);
  }

  /** Withdrawing takes `units` from pair `p` when a row holds it, and leaves every other pair's units alone. */
  lemma WithdrawUnits(inv: seq<InventoryRow>, p: Pair, units: int, q: Pair)
    requires UniquePairs(inv)
    ensures Units(Withdraw(inv, p, units), q) == Units(inv, q) - (if q == p && HasPair(inv, p) then units else 0)
  {
    var inv' := Withdraw(inv, p, units);
    if q != p {
      UnitsUnaffected(inv, inv', p, q);
    } else if HasPair(inv, p) {
      var k :| 0 <= k < |inv| && PairOf(inv[k]) == p;
      WithdrawKeepsUnique(inv, p, units);
      UnitsAt(inv, k);
      UnitsAt(inv', k);
    } else {
      assert inv' == inv;
    }
  }

  /**
   * Withdrawing no more than row `k` holds, from row `k`'s pair: row `k` drops by `units`,
   * every other row is unchanged, no row goes negative, and the pair's units drop by `units`
   * while every other pair keeps its units.
   */
  lemma WithdrawFromRow(inv: seq<InventoryRow>, k: nat, units: int)
    requires UniquePairs(inv) && NonNegative(inv)
    requires k < |inv| && units <= inv[k].units
    ensures UniquePairs(Withdraw(inv, PairOf(inv[k]), units))
    ensures NonNegative(Withdraw(inv, PairOf(inv[k]), units))
    ensures Withdraw(inv, PairOf(inv[k]), units)[k].units == inv[k].units - units
    ensures forall i :: 0 <= i < |inv| && i != k ==> Withdraw(inv, PairOf(inv[k]), units)[i] == inv[i]
    ensures forall q ::
      Units(Withdraw(inv, PairOf(inv[k]), units), q) == Units(inv, q) - (if q == PairOf(inv[k]) then units else 0)
  {
    var p := PairOf(inv[k]);
    var inv' := Withdraw(inv, p, units);
    WithdrawKeepsUnique(inv, p, units);
    forall i | 0 <= i < |inv| && i != k
      ensures inv'[i] == inv[i]
    {
      assert PairOf(inv[i]) != p;
    }
    forall q
      ensures Units(inv', q) == Units(inv, q) - (if q == p then units else 0)
    {
      WithdrawUnits(inv, p, units, q);
    }
  }
}

/**
  The live table (wifite.py `update_table`): one row per inventory record,
  its 1-based rank followed by the record's seven displayed values. Column
  styling and the terminal refresh are not modelled.
 */
module Table {
  import opened Maybe
  import opened Decimal
  import opened Network
  import Inventory

  /** The column titles, rank first. */
  const Columns: seq<string> :=
    ["No.", "SSID", "BSSID", "Signal Strength", "Frequency", "Channel", "Security", "Encryption"]

  type Row = seq<string>

  /** The rows of the table for an inventory, in inventory order (wifite.py:81-91). */
  function Rows(inv: seq<Record>): (t: seq<Row>)
    ensures |t| == |inv|
    ensures forall i :: 0 <= i < |t| ==>
      |t[i]| == |Columns| && t[i][0] == IntToString(i + 1) && t[i][1..] == Display(inv[i])
  {
    seq(|inv|, i requires 0 <= i < |inv| => [IntToString(i + 1)] + Display(inv[i]))
  }

  /** The rank cell of row `i` reads back as `i + 1`, so ranks are 1, 2, ... without gaps or repeats. */
  lemma RankReadsBack(inv: seq<Record>, i: int)
    requires 0 <= i < |inv|
    ensures ParseInt(Rows(inv)[i][0]) == Some(i + 1)
  {
    IntRoundTrip(i + 1);
  }

  /** The table determines the inventory: different inventories never render the same rows. */
  lemma RowsInjective(a: seq<Record>, b: seq<Record>)
    ensures Rows(a) == Rows(b) <==> a == b
  {
    if Rows(a) == Rows(b) {
      forall i | 0 <= i < |a|
        ensures a[i] == b[i]
      {
        assert Rows(a)[i][1..] == Rows(b)[i][1..];
        DisplayInjective(a[i], b[i]);
      }
    }
  }

  /** Extending the inventory extends the table: the rows already shown keep their rank and content. */
  lemma RowsPrefixStable(a: seq<Record>, b: seq<Record>)
    requires Inventory.IsPrefix(a, b)
    ensures |Rows(a)| <= |Rows(b)| && Rows(b)[..|a|] == Rows(a)
  {
    forall i | 0 <= i < |a|
      ensures Rows(b)[i] == Rows(a)[i]
    {
      assert b[i] == b[..|a|][i];
    }
  }

  /** Across loop cycles, row `i` of an earlier table is row `i` of every later one. */
  lemma RunRowsStable(snaps: seq<seq<RawObservation>>, j: nat, i: int)
    requires Inventory.AllNormalizable(snaps)
    requires j <= |snaps|
    requires Inventory.AllNormalizable(snaps[..j])
    requires 0 <= i < |Inventory.Run(snaps[..j])|
    ensures i < |Inventory.Run(snaps)|
    ensures Rows(Inventory.Run(snaps))[i] == Rows(Inventory.Run(snaps[..j]))[i]
  {
    Inventory.RunPrefixStable(snaps, j);
    RowsPrefixStable(Inventory.Run(snaps[..j]), Inventory.Run(snaps));
  }
}

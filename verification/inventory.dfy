/**
  The inventory the scan loop accumulates (wifite.py `main`): each cycle
  keeps the records of one snapshot whose signal is above the floor and
  appends every one not already present. Presence is whole-record
  equality, as the source's `network not in networks` is.
 */
module Inventory {
  import opened Network

  /** Records at or below this signal level are dropped (wifite.py:134). */
  const SignalFloor: int := -80

  predicate Strong(r: Record) {
    r.signal > SignalFloor
  }

  predicate NoDuplicates(s: seq<Record>) {
    forall i, j :: 0 <= i < j < |s| ==> s[i] != s[j]
  }

  predicate IsPrefix(a: seq<Record>, b: seq<Record>) {
    |a| <= |b| && b[..|a|] == a
  }

  /** The strong records of a snapshot, in snapshot order (wifite.py:134). */
  function StrongOnly(s: seq<Record>): (f: seq<Record>)
    ensures |f| <= |s|
    ensures |s| > 0 && !Strong(s[0]) ==> |f| < |s|
    decreases |s|
  {
    if |s| == 0 then []
    else (if Strong(s[0]) then [s[0]] else []) + StrongOnly(s[1..])
  }

  /** The filter keeps exactly the strong records of the snapshot. */
  lemma {:induction false} StrongOnlyMembers(s: seq<Record>, x: Record)
    ensures x in StrongOnly(s) <==> x in s && Strong(x)
    decreases |s|
  {
    if |s| > 0 {
      StrongOnlyMembers(s[1..], x);
      assert s == [s[0]] + s[1..];
    }
  }

  /** Filtering distributes over concatenation, so the filter never reorders. */
  lemma {:induction false} StrongOnlyAppend(a: seq<Record>, b: seq<Record>)
    ensures StrongOnly(a + b) == StrongOnly(a) + StrongOnly(b)
    decreases |a|
  {
    if |a| == 0 {
      assert a + b == b;
    } else {
      assert (a + b)[0] == a[0];
      assert (a + b)[1..] == a[1..] + b;
      StrongOnlyAppend(a[1..], b);
    }
  }

  /** The floor is strict: a record at -80 is dropped and one at -79 is kept. */
  lemma StrongOnlyBoundary(r: Record)
    ensures r.signal == -80 ==> StrongOnly([r]) == []
    ensures r.signal == -79 ==> StrongOnly([r]) == [r]
  {
    assert [r][1..] == [];
  }

  /** The filter leaves a snapshot unchanged exactly when every record in it is strong. */
  lemma {:induction false} StrongOnlyIdentity(s: seq<Record>)
    ensures StrongOnly(s) == s <==> forall k :: 0 <= k < |s| ==> Strong(s[k])
    decreases |s|
  {
    if |s| > 0 {
      StrongOnlyIdentity(s[1..]);
      if StrongOnly(s) == s {
        assert Strong(s[0]);
        assert StrongOnly(s)[1..] == StrongOnly(s[1..]);
      }
      if forall k :: 0 <= k < |s| ==> Strong(s[k]) {
        forall k | 0 <= k < |s[1..]|
          ensures Strong(s[1..][k])
        {
          assert s[1..][k] == s[k + 1];
        }
        assert [s[0]] + s[1..] == s;
      }
    }
  }

  /**
    Every prefix of the filtered snapshot is the filter of some prefix of the
    snapshot: stopping part-way through the filtered records is stopping
    part-way through the scan.
   */
  lemma {:induction false} StrongOnlyPrefixReached(s: seq<Record>, i: nat) returns (j: nat)
    requires i <= |StrongOnly(s)|
    ensures j <= |s| && StrongOnly(s[..j]) == StrongOnly(s)[..i]
    decreases |s|
  {
    if i == 0 {
      j := 0;
      assert s[..0] == [];
    } else {
      var head := if Strong(s[0]) then [s[0]] else [];
      var k := i - |head|;
      assert StrongOnly(s) == head + StrongOnly(s[1..]);
      var j' := StrongOnlyPrefixReached(s[1..], k);
      j := j' + 1;
      assert s[..j][1..] == s[1..][..j'];
      assert s[..j][0] == s[0];
      assert StrongOnly(s)[..i] == head + StrongOnly(s[1..])[..k];
    }
  }

  /**
    Appends each record of `recs`, in order, unless an equal record is
    already in the inventory (wifite.py:137-139). The old inventory stays
    a prefix: nothing is removed or moved.
   */
  function Merge(inv: seq<Record>, recs: seq<Record>): (out: seq<Record>)
    ensures IsPrefix(inv, out)
    ensures |out| <= |inv| + |recs|
    decreases |recs|
  {
    if |recs| == 0 then inv
    else
      var next := if recs[0] in inv then inv else inv + [recs[0]];
      var out := Merge(next, recs[1..]);
      assert out[..|next|][..|inv|] == out[..|inv|];
      out
  }

  /** The merged inventory holds exactly the old records and the merged ones. */
  lemma {:induction false} MergeMembers(inv: seq<Record>, recs: seq<Record>, x: Record)
    ensures x in Merge(inv, recs) <==> x in inv || x in recs
    decreases |recs|
  {
    if |recs| > 0 {
      var next := if recs[0] in inv then inv else inv + [recs[0]];
      MergeMembers(next, recs[1..], x);
      assert recs == [recs[0]] + recs[1..];
    }
  }

  lemma AppendAbsentNoDuplicates(s: seq<Record>, x: Record)
    requires NoDuplicates(s) && x !in s
    ensures NoDuplicates(s + [x])
  {
  }

  /** A duplicate-free inventory stays duplicate-free, whatever the snapshot repeats. */
  lemma {:induction false} MergeNoDuplicates(inv: seq<Record>, recs: seq<Record>)
    requires NoDuplicates(inv)
    ensures NoDuplicates(Merge(inv, recs))
    decreases |recs|
  {
    if |recs| > 0 {
      if recs[0] in inv {
        MergeNoDuplicates(inv, recs[1..]);
      } else {
        AppendAbsentNoDuplicates(inv, recs[0]);
        MergeNoDuplicates(inv + [recs[0]], recs[1..]);
      }
    }
  }

  /** Merging records that are all present already changes nothing. */
  lemma {:induction false} MergePresent(inv: seq<Record>, recs: seq<Record>)
    requires forall x :: x in recs ==> x in inv
    ensures Merge(inv, recs) == inv
    decreases |recs|
  {
    if |recs| > 0 {
      assert recs[0] in recs;
      MergePresent(inv, recs[1..]);
    }
  }

  /** Merging the same records twice is merging them once. */
  lemma MergeIdempotent(inv: seq<Record>, recs: seq<Record>)
    ensures Merge(Merge(inv, recs), recs) == Merge(inv, recs)
  {
    forall x | x in recs
      ensures x in Merge(inv, recs)
    {
      MergeMembers(inv, recs, x);
    }
    MergePresent(Merge(inv, recs), recs);
  }

  /** The elements of `s` that do not occur in `exclude`, in order. */
  function Absent(s: seq<Record>, exclude: seq<Record>): (f: seq<Record>)
    ensures |f| <= |s|
    decreases |s|
  {
    if |s| == 0 then []
    else (if s[0] in exclude then [] else [s[0]]) + Absent(s[1..], exclude)
  }

  lemma {:induction false} AbsentMembers(s: seq<Record>, exclude: seq<Record>, x: Record)
    ensures x in Absent(s, exclude) <==> x in s && x !in exclude
    decreases |s|
  {
    if |s| > 0 {
      AbsentMembers(s[1..], exclude, x);
      assert s == [s[0]] + s[1..];
    }
  }

  /** The first occurrence of every element of `s`, in order of first occurrence. */
  function FirstOccurrences(s: seq<Record>): (d: seq<Record>)
    decreases |s|
  {
    if |s| == 0 then []
    else [s[0]] + FirstOccurrences(Absent(s[1..], [s[0]]))
  }

  lemma {:induction false} FirstOccurrencesMembers(s: seq<Record>, x: Record)
    ensures x in FirstOccurrences(s) <==> x in s
    decreases |s|
  {
    if |s| > 0 {
      var rest := Absent(s[1..], [s[0]]);
      FirstOccurrencesMembers(rest, x);
      AbsentMembers(s[1..], [s[0]], x);
      assert s == [s[0]] + s[1..];
    }
  }

  /** No record occurs twice among the first occurrences. */
  lemma {:induction false} FirstOccurrencesNoDuplicates(s: seq<Record>)
    ensures NoDuplicates(FirstOccurrences(s))
    decreases |s|
  {
    if |s| > 0 {
      var rest := Absent(s[1..], [s[0]]);
      FirstOccurrencesNoDuplicates(rest);
      FirstOccurrencesMembers(rest, s[0]);
      AbsentMembers(s[1..], [s[0]], s[0]);
      var d := FirstOccurrences(s);
      assert d == [s[0]] + FirstOccurrences(rest);
      forall i, j | 0 <= i < j < |d|
        ensures d[i] != d[j]
      {
        assert d[j] == FirstOccurrences(rest)[j - 1];
        if i > 0 {
          assert d[i] == FirstOccurrences(rest)[i - 1];
        } else {
          assert d[j] in FirstOccurrences(rest);
        }
      }
    }
  }

  lemma {:induction false} AbsentExtend(s: seq<Record>, inv: seq<Record>, x: Record)
    ensures Absent(s, inv + [x]) == Absent(Absent(s, inv), [x])
    decreases |s|
  {
    if |s| > 0 {
      AbsentExtend(s[1..], inv, x);
      var a := Absent(s, inv);
      if s[0] in inv {
        assert a == Absent(s[1..], inv);
      } else {
        assert a == [s[0]] + Absent(s[1..], inv);
        assert a[0] == s[0];
        assert a[1..] == Absent(s[1..], inv);
      }
    }
  }

  /**
    An independent description of the merge: the old inventory followed by
    the first occurrence of every record not yet in it, in order of first
    occurrence in `recs`.
   */
  lemma {:induction false} MergeIsFirstOccurrences(inv: seq<Record>, recs: seq<Record>)
    ensures Merge(inv, recs) == inv + FirstOccurrences(Absent(recs, inv))
    decreases |recs|
  {
    if |recs| > 0 {
      var x := recs[0];
      if x in inv {
        assert Absent(recs, inv) == Absent(recs[1..], inv);
        MergeIsFirstOccurrences(inv, recs[1..]);
      } else {
        var rest := Absent(recs[1..], inv);
        var tail := FirstOccurrences(Absent(rest, [x]));
        assert Merge(inv, recs) == (inv + [x]) + tail by {
          MergeIsFirstOccurrences(inv + [x], recs[1..]);
          AbsentExtend(recs[1..], inv, x);
        }
        assert FirstOccurrences(Absent(recs, inv)) == [x] + tail by {
          var a := Absent(recs, inv);
          assert a == [x] + rest;
          assert a[0] == x && a[1..] == rest;
        }
      }
    }
  }

  /**
    The merge compares whole records, not BSSIDs: the same access point seen
    again with a different signal level is listed a second time.
   */
  lemma SameBssidKeptTwice(r: Record, s: int)
    requires s != r.signal
    ensures var again := r.(signal := s);
      again.bssid == r.bssid && Merge([r], [again]) == [r, again]
  {
  }

  /** Every raw entry of a snapshot has at least one tag, so it can be normalised. */
  predicate Normalizable(raw: seq<RawObservation>) {
    forall k :: 0 <= k < |raw| ==> |raw[k].akm| > 0
  }

  /** The records of one scan, in scan order (wifite.py:133). */
  function NormalizeAll(raw: seq<RawObservation>): (recs: seq<Record>)
    requires Normalizable(raw)
    ensures |recs| == |raw|
  {
    seq(|raw|, k requires 0 <= k < |raw| => Normalize(raw[k]))
  }

  /** Normalising the first `j` entries of a scan gives the first `j` records of the whole scan. */
  lemma NormalizeAllPrefix(raw: seq<RawObservation>, j: nat)
    requires Normalizable(raw) && j <= |raw|
    ensures Normalizable(raw[..j])
    ensures NormalizeAll(raw[..j]) == NormalizeAll(raw)[..j]
  {
    assert forall k :: 0 <= k < j ==> raw[..j][k] == raw[k];
  }

  /** One pass of the scan loop body: normalise, filter, merge (wifite.py:133-139). */
  function Cycle(inv: seq<Record>, raw: seq<RawObservation>): (out: seq<Record>)
    requires Normalizable(raw)
    ensures IsPrefix(inv, out)
    ensures |out| <= |inv| + |raw|
  {
    Merge(inv, StrongOnly(NormalizeAll(raw)))
  }

  predicate AllNormalizable(snaps: seq<seq<RawObservation>>) {
    forall c :: 0 <= c < |snaps| ==> Normalizable(snaps[c])
  }

  /** The inventory after one loop cycle per snapshot, starting from the empty list (wifite.py:128-141). */
  function Run(snaps: seq<seq<RawObservation>>): (inv: seq<Record>)
    requires AllNormalizable(snaps)
    ensures |snaps| > 0 ==> IsPrefix(Run(snaps[..|snaps| - 1]), inv)
    decreases |snaps|
  {
    if |snaps| == 0 then []
    else Cycle(Run(snaps[..|snaps| - 1]), snaps[|snaps| - 1])
  }

  lemma AllNormalizablePrefix(snaps: seq<seq<RawObservation>>, j: nat)
    requires AllNormalizable(snaps) && j <= |snaps|
    ensures AllNormalizable(snaps[..j])
  {
    forall c | 0 <= c < j
      ensures Normalizable(snaps[..j][c])
    {
      assert snaps[..j][c] == snaps[c];
    }
  }

  lemma PrefixTransitive(a: seq<Record>, b: seq<Record>, c: seq<Record>)
    requires IsPrefix(a, b) && IsPrefix(b, c)
    ensures IsPrefix(a, c)
  {
    assert c[..|b|][..|a|] == c[..|a|];
  }

  /** One more snapshot is one more cycle on the inventory of the earlier ones. */
  lemma RunLast(snaps: seq<seq<RawObservation>>)
    requires AllNormalizable(snaps) && |snaps| > 0
    ensures AllNormalizable(snaps[..|snaps| - 1])
    ensures Run(snaps) == Cycle(Run(snaps[..|snaps| - 1]), snaps[|snaps| - 1])
  {
    AllNormalizablePrefix(snaps, |snaps| - 1);
  }

  /** Some snapshot produced `x`, and with a signal above the floor. */
  predicate SeenStrong(snaps: seq<seq<RawObservation>>, x: Record)
    requires AllNormalizable(snaps)
  {
    Strong(x) && exists c :: 0 <= c < |snaps| && x in NormalizeAll(snaps[c])
  }

  lemma SeenStrongLast(snaps: seq<seq<RawObservation>>, x: Record)
    requires AllNormalizable(snaps) && |snaps| > 0
    ensures AllNormalizable(snaps[..|snaps| - 1])
    ensures SeenStrong(snaps, x) <==>
      SeenStrong(snaps[..|snaps| - 1], x) || (Strong(x) && x in NormalizeAll(snaps[|snaps| - 1]))
  {
    var n := |snaps| - 1;
    var prev := snaps[..n];
    AllNormalizablePrefix(snaps, n);
    if SeenStrong(snaps, x) {
      var c :| 0 <= c < |snaps| && x in NormalizeAll(snaps[c]);
      if c < n {
        assert prev[c] == snaps[c];
      }
    }
    if SeenStrong(prev, x) {
      var c :| 0 <= c < n && x in NormalizeAll(prev[c]);
      assert prev[c] == snaps[c];
    }
  }

  /** The inventory never lists two equal records. */
  lemma {:induction false} RunNoDuplicates(snaps: seq<seq<RawObservation>>)
    requires AllNormalizable(snaps)
    ensures NoDuplicates(Run(snaps))
    decreases |snaps|
  {
    if |snaps| > 0 {
      var prev := snaps[..|snaps| - 1];
      RunLast(snaps);
      RunNoDuplicates(prev);
      MergeNoDuplicates(Run(prev), StrongOnly(NormalizeAll(snaps[|snaps| - 1])));
    }
  }

  /** A record is in the inventory exactly when some snapshot produced it with a strong signal. */
  lemma {:induction false} RunMembership(snaps: seq<seq<RawObservation>>, x: Record)
    requires AllNormalizable(snaps)
    ensures x in Run(snaps) <==> SeenStrong(snaps, x)
    decreases |snaps|
  {
    if |snaps| > 0 {
      var n := |snaps| - 1;
      var prev := snaps[..n];
      RunLast(snaps);
      RunMembership(prev, x);
      SeenStrongLast(snaps, x);
      var kept := StrongOnly(NormalizeAll(snaps[n]));
      assert Run(snaps) == Merge(Run(prev), kept);
      MergeMembers(Run(prev), kept, x);
      StrongOnlyMembers(NormalizeAll(snaps[n]), x);
    }
  }

  /** Later cycles only append: the inventory after fewer snapshots is a prefix, so ranks never change. */
  lemma {:induction false} RunPrefixStable(snaps: seq<seq<RawObservation>>, j: nat)
    requires AllNormalizable(snaps)
    requires j <= |snaps|
    ensures AllNormalizable(snaps[..j])
    ensures IsPrefix(Run(snaps[..j]), Run(snaps))
    decreases |snaps| - j
  {
    AllNormalizablePrefix(snaps, j);
    if j < |snaps| {
      var n := |snaps| - 1;
      var prev := snaps[..n];
      RunLast(snaps);
      assert prev[..j] == snaps[..j];
      RunPrefixStable(prev, j);
      PrefixTransitive(Run(snaps[..j]), Run(prev), Run(snaps));
    } else {
      assert snaps[..j] == snaps;
    }
  }

  /**
    The scan loop as the source writes it: for every snapshot, the inner
    `for` loop appends each strong record not yet present.
   */
  method ScanLoop(snaps: seq<seq<RawObservation>>) returns (networks: seq<Record>)
    requires AllNormalizable(snaps)
    ensures networks == Run(snaps)
    ensures NoDuplicates(networks)
    ensures forall x :: x in networks ==> Strong(x)
  {
    networks := [];
    var c := 0;
    while c < |snaps|
      invariant c <= |snaps|
      invariant networks == Run(snaps[..c])
    {
      assert snaps[..c + 1][..c] == snaps[..c];
      var filtered := StrongOnly(NormalizeAll(snaps[c]));
      var i := 0;
      while i < |filtered|
        invariant i <= |filtered|
        invariant Merge(networks, filtered[i..]) == Run(snaps[..c + 1])
      {
        assert filtered[i..][1..] == filtered[i + 1..];
        if filtered[i] !in networks {
          networks := networks + [filtered[i]];
        }
        i := i + 1;
      }
      c := c + 1;
    }
    assert snaps[..c] == snaps;
    RunNoDuplicates(snaps);
    forall x | x in networks
      ensures Strong(x)
    {
      RunMembership(snaps, x);
    }
  }

  /**
    A Ctrl+C can stop the loop inside the merge of a snapshot, after `i` of
    its strong records. The inventory left then is the one a complete run
    produces when the last scan is cut short after some `j` entries.
   */
  lemma InterruptedCycle(snaps: seq<seq<RawObservation>>, raw: seq<RawObservation>, i: nat) returns (j: nat)
    requires AllNormalizable(snaps) && Normalizable(raw)
    requires i <= |StrongOnly(NormalizeAll(raw))|
    ensures j <= |raw| && AllNormalizable(snaps + [raw[..j]])
    ensures Merge(Run(snaps), StrongOnly(NormalizeAll(raw))[..i]) == Run(snaps + [raw[..j]])
  {
    j := StrongOnlyPrefixReached(NormalizeAll(raw), i);
    NormalizeAllPrefix(raw, j);
    var all := snaps + [raw[..j]];
    assert all[..|all| - 1] == snaps;
    forall c | 0 <= c < |all|
      ensures Normalizable(all[c])
    {
      if c < |snaps| {
        assert all[c] == snaps[c];
      }
    }
    RunLast(all);
  }
}

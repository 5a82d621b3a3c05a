/**
 * A worked run: two sources whose tables share the key "b" are merged into
 * an empty destination, and counted.
 */
module Scenario {
  import opened Store
  import MergeEngine
  import CountEngine

  /** A = {"a": "1", "b": "2"} */
  const A: Source := Present([Entry([0x61], [0x31]), Entry([0x62], [0x32])], None)

  /** B = {"b": "20", "c": "3"} */
  const B: Source := Present([Entry([0x62], [0x32, 0x30]), Entry([0x63], [0x33])], None)

  /** The puts of a run over A then B are A's entries then B's. */
  lemma RunPuts()
    ensures MergeEngine.AllPuts([A, B]) == A.entries + B.entries
  {
    assert [A, B][..1] == [A];
    assert MergeEngine.Puts([A, B], 1) == A.entries;
  }

  /** Folding those puts over an empty table gives {"a": "1", "b": "20", "c": "3"}. */
  lemma MergedTable()
    ensures Apply(map[], A.entries + B.entries) == map[[0x61] := [0x31], [0x62] := [0x32, 0x30], [0x63] := [0x33]]
  {
    var s := A.entries + B.entries;
    ApplySnoc(map[], [], s[0]);
    ApplySnoc(map[], s[..1], s[1]);
    ApplySnoc(map[], s[..2], s[2]);
    ApplySnoc(map[], s[..3], s[3]);
    assert [s[0]] == s[..1] && s[..1] + [s[1]] == s[..2] && s[..2] + [s[2]] == s[..3] && s[..3] + [s[3]] == s;
  }

  /** A and B hold two entries each. */
  lemma CountedTotal()
    ensures CountEngine.TotalSize([A, B]) == 4
  {
    assert [A, B][..1] == [A];
    assert [A][..0] == [];
    assert CountEngine.TotalSize([A]) == CountEngine.TotalSize([]) + CountEngine.TableSize(A);
    assert CountEngine.TotalSize([A, B]) == CountEngine.TotalSize([A]) + CountEngine.TableSize(B);
  }

  /**
   * Merging A and then B leaves {"a": "1", "b": "20", "c": "3"}: the later
   * source wins on "b". Counting the same two sources reports 2 keys for
   * each, 4 in total.
   */
  method TwoSources() returns (merged: Table, reported: seq<nat>, total: Result<nat>)
    ensures merged == map[[0x61] := [0x31], [0x62] := [0x32, 0x30], [0x63] := [0x33]]
    ensures reported == [2, 2] && total == Ok(4)
  {
    RunPuts();
    MergedTable();
    var dest, r, stopInput, stopEntry := MergeEngine.Merge(map[], 3, [A, B]);
    merged := dest.committed;
    reported, total := CountEngine.Count([A, B]);
    CountedTotal();
  }
}

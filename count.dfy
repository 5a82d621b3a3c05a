/**
 * The count engine: opens every source in list order, reports the number
 * of keys of its unnamed database and adds it to a running total.
 */
module CountEngine {
  import opened Store

  /** The number of entries of a source's table, as its database reports it. */
  function TableSize(s: Source): (r: nat)
  {
    if s.Present? then |s.entries| else 0
  }

  /** The sum of the table sizes of `inputs`. */
  function TotalSize(inputs: seq<Source>): (r: nat)
  {
    if inputs == [] then 0
    else TotalSize(inputs[..|inputs| - 1]) + TableSize(inputs[|inputs| - 1])
  }

  /** The total of a concatenation is the sum of the totals. */
  lemma {:induction false} TotalSizeAppend(a: seq<Source>, b: seq<Source>)
    ensures TotalSize(a + b) == TotalSize(a) + TotalSize(b)
    decreases |b|
  {
    if b == [] {
      assert a + b == a;
    } else {
      var n := |b| - 1;
      TotalSizeAppend(a, b[..n]);
      assert (a + b)[..|a + b| - 1] == a + b[..n];
      assert (a + b)[|a + b| - 1] == b[n];
    }
  }

  /** The total does not depend on the order in which the inputs are listed. */
  lemma {:induction false} TotalSizeOrderIndependent(a: seq<Source>, b: seq<Source>)
    requires multiset(a) == multiset(b)
    ensures TotalSize(a) == TotalSize(b)
    decreases |a|
  {
    if a != [] {
      var n := |a| - 1;
      assert a == a[..n] + [a[n]];
      assert multiset(a) == multiset(a[..n]) + multiset{a[n]};
      assert a[n] in multiset(b);
      var k :| 0 <= k < |b| && b[k] == a[n];
      var rest := RemoveAt(b, k);
      assert multiset(a[..n]) == multiset(rest);
      TotalSizeOrderIndependent(a[..n], rest);
    }
  }

  /**
   * `b` without its element at `k`: it holds one `b[k]` fewer and totals
   * `TableSize(b[k])` less.
   */
  lemma RemoveAt(b: seq<Source>, k: nat) returns (rest: seq<Source>)
    requires k < |b|
    ensures multiset(rest) == multiset(b) - multiset{b[k]}
    ensures TotalSize(b) == TotalSize(rest) + TableSize(b[k])
  {
    rest := b[..k] + b[k + 1..];
    assert b == b[..k] + [b[k]] + b[k + 1..];
    assert multiset(b) == multiset(b[..k]) + multiset{b[k]} + multiset(b[k + 1..]);
    TotalSizeAppend(b[..k] + [b[k]], b[k + 1..]);
    TotalSizeAppend(b[..k], [b[k]]);
    TotalSizeAppend(b[..k], b[k + 1..]);
    assert [b[k]][..0] == [];
  }

  /**
   * A table's size is its number of distinct keys: the entries that its
   * iterator yields in strictly increasing key order fill a table with
   * exactly that many keys.
   */
  lemma TableSizeIsKeyCount(s: Source)
    requires s.Present? && StrictlyOrdered(s.entries)
    ensures TableSize(s) == |Apply(map[], s.entries)|
  {
    OrderedKeysDistinct(s.entries);
    DistinctKeysCount(s.entries);
  }

  /**
   * Counts the keys of every input, in list order: `reported` holds the
   * count reported for each input opened so far. The run stops at the first
   * input that cannot be opened or has no unnamed database; otherwise the
   * result is the total of all counts.
   */
  method Count(inputs: seq<Source>) returns (reported: seq<nat>, r: Result<nat>)
    ensures |reported| <= |inputs|
    ensures forall k | 0 <= k < |reported| :: inputs[k].Present? && reported[k] == |inputs[k].entries|
    ensures r.Ok? <==> forall k | 0 <= k < |inputs| :: OpenFailure(inputs[k]) == None
    ensures r.Ok? ==> |reported| == |inputs| && r.value == TotalSize(inputs)
    ensures r.Err? ==> |reported| < |inputs| && OpenFailure(inputs[|reported|]) == Some(r.error)
  {
    var total := 0;
    reported := [];
    var i := 0;
    while i < |inputs|
      invariant 0 <= i <= |inputs| && |reported| == i
      invariant forall k | 0 <= k < i :: inputs[k].Present? && reported[k] == |inputs[k].entries|
      invariant total == TotalSize(inputs[..i])
    {
      match inputs[i]
      case OpenFailed(e) =>
        return reported, Err(e);
      case NoTable =>
        return reported, Err(DatabaseNotFound);
      case Present(entries, _) =>
        var count := |entries|;
        assert inputs[..i + 1][..i] == inputs[..i];
        reported := reported + [count];
        total := total + count;
        i := i + 1;
    }
    assert inputs[..i] == inputs;
    r := Ok(total);
  }
}

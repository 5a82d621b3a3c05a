/**
 * The merge engine: copies the entries of every source, in list order and
 * within a source in key order, into the destination, committing the write
 * transaction after every BatchSize-th entry of a source.
 */
module MergeEngine {
  import opened Store

  /** Entries of one source between two commits. */
  const BatchSize: nat := 1_000_000

  /** Every put a run over the first `n` inputs issues if nothing fails. */
  ghost function Puts(inputs: seq<Source>, n: nat): (r: seq<Entry>)
    requires n <= |inputs|
  {
    if n == 0 then [] else Puts(inputs, n - 1) + Yielded(inputs[n - 1])
  }

  /** Every put of a run over all of `inputs` that nothing stops. */
  ghost function AllPuts(inputs: seq<Source>): (r: seq<Entry>)
  {
    Puts(inputs, |inputs|)
  }

  /** The puts made once the first `j` entries of input `i` have been put. */
  ghost function Made(inputs: seq<Source>, i: nat, j: nat): (r: seq<Entry>)
    requires i < |inputs| && j <= |Yielded(inputs[i])|
  {
    Puts(inputs, i) + Yielded(inputs[i])[..j]
  }

  /**
   * The puts made durable once the first `j` entries of input `i` have been
   * put: the counter restarts at every input, so the last commit is at the
   * last multiple of BatchSize within this input, or, when this input has
   * not reached BatchSize yet, wherever the previous inputs left it.
   */
  ghost function Durable(inputs: seq<Source>, i: nat, j: nat): (r: seq<Entry>)
    requires i < |inputs| && j <= |Yielded(inputs[i])|
    decreases i, 1
  {
    if j >= BatchSize then Made(inputs, i, j - j % BatchSize)
    else Settled(inputs, i)
  }

  /** The puts made durable when input `i` is about to be opened. */
  ghost function Settled(inputs: seq<Source>, i: nat): (r: seq<Entry>)
    requires i <= |inputs|
    decreases i, 0
  {
    if i == 0 then [] else Durable(inputs, i - 1, |Yielded(inputs[i - 1])|)
  }

  /** Having put every entry of input `i`, the puts made are those of the first `i + 1` inputs. */
  lemma MadeAll(inputs: seq<Source>, i: nat)
    requires i < |inputs|
    ensures Made(inputs, i, |Yielded(inputs[i])|) == Puts(inputs, i + 1)
  {
    assert Yielded(inputs[i])[..|Yielded(inputs[i])|] == Yielded(inputs[i]);
  }

  /** The puts of fewer inputs are a prefix of the puts of more. */
  lemma {:induction false} PutsPrefix(inputs: seq<Source>, i: nat, n: nat)
    requires i <= n <= |inputs|
    ensures Puts(inputs, i) <= Puts(inputs, n)
    decreases n
  {
    if i < n {
      PutsPrefix(inputs, i, n - 1);
    }
  }

  /** The puts made so far are a prefix of the puts of the whole run. */
  lemma MadeIsPrefix(inputs: seq<Source>, i: nat, j: nat)
    requires i < |inputs| && j <= |Yielded(inputs[i])|
    ensures Made(inputs, i, j) <= AllPuts(inputs)
  {
    MadeAll(inputs, i);
    PutsPrefix(inputs, i + 1, |inputs|);
    var ys := Yielded(inputs[i]);
    assert ys[..j] <= ys;
  }

  /**
   * The counter check after the `j + 1`-th entry of an input: a commit
   * happens exactly when the count is a multiple of BatchSize, and otherwise
   * the last multiple of BatchSize reached stays where it was.
   */
  lemma CounterStep(j: nat)
    ensures (j + 1) % BatchSize == 0 ==> j + 1 >= BatchSize && (j + 1) - (j + 1) % BatchSize == j + 1
    ensures (j + 1) % BatchSize != 0 ==> (j + 1 >= BatchSize <==> j >= BatchSize)
    ensures (j + 1) % BatchSize != 0 && j >= BatchSize ==> (j + 1) - (j + 1) % BatchSize == j - j % BatchSize
  {
    if (j + 1) % BatchSize != 0 && j + 1 >= BatchSize {
      var q := (j + 1) / BatchSize;
      assert j + 1 == q * BatchSize + (j + 1) % BatchSize;
      assert j == q * BatchSize + ((j + 1) % BatchSize - 1);
      assert j % BatchSize == (j + 1) % BatchSize - 1;
    }
  }

  /**
   * What is durable is a prefix of what was put. Once an input has reached
   * BatchSize entries, the uncommitted puts are fewer than BatchSize, all of
   * them from this input; before that, the open transaction still carries the
   * residue that the earlier inputs left uncommitted, at most BatchSize - 1
   * puts for each of them.
   */
  lemma {:induction false} PendingBound(inputs: seq<Source>, i: nat, j: nat)
    requires i < |inputs| && j <= |Yielded(inputs[i])|
    ensures Durable(inputs, i, j) <= Made(inputs, i, j)
    ensures j >= BatchSize ==> |Made(inputs, i, j)| - |Durable(inputs, i, j)| == j % BatchSize
    ensures j < BatchSize ==>
      |Made(inputs, i, j)| - |Durable(inputs, i, j)| == j + |Puts(inputs, i)| - |Settled(inputs, i)|
    ensures |Made(inputs, i, j)| - |Durable(inputs, i, j)| <= (i + 1) * (BatchSize - 1)
    decreases i
  {
    var ys := Yielded(inputs[i]);
    if j >= BatchSize {
      assert ys[..j] == ys[..j - j % BatchSize] + ys[j - j % BatchSize..j];
    } else if i > 0 {
      PendingBound(inputs, i - 1, |Yielded(inputs[i - 1])|);
      MadeAll(inputs, i - 1);
      assert |Puts(inputs, i)| - |Settled(inputs, i)| <= i * (BatchSize - 1);
    }
  }

  /**
   * The counter restarts at every input, so uncommitted puts pile up across
   * short inputs: after two inputs of BatchSize - 1 entries each, the open
   * transaction holds 2 * BatchSize - 2 puts and nothing is durable.
   */
  lemma PerInputCounterResidue(inputs: seq<Source>)
    requires |inputs| == 2
    requires |Yielded(inputs[0])| == BatchSize - 1 && |Yielded(inputs[1])| == BatchSize - 1
    ensures Durable(inputs, 1, BatchSize - 1) == []
    ensures |Made(inputs, 1, BatchSize - 1)| == 2 * BatchSize - 2
  {
    assert Puts(inputs, 1) == Yielded(inputs[0]);
  }

  /**
   * A source of 2 * BatchSize + 1 entries, merged alone, is committed in two
   * whole batches; its last entry waits in the open transaction for the
   * final commit, which makes every put of the run durable.
   */
  lemma BatchBoundary(inputs: seq<Source>)
    requires |inputs| == 1 && |Yielded(inputs[0])| == 2 * BatchSize + 1
    ensures Durable(inputs, 0, BatchSize) == Yielded(inputs[0])[..BatchSize]
    ensures Durable(inputs, 0, 2 * BatchSize + 1) == Yielded(inputs[0])[..2 * BatchSize]
    ensures Made(inputs, 0, 2 * BatchSize + 1) == AllPuts(inputs)
  {
    MadeAll(inputs, 0);
  }

  /**
   * One turn of the copy loop: puts `e` in the open transaction and, when
   * the put succeeds, counts it and commits and reopens the transaction if
   * the count reached a multiple of BatchSize.
   */
  method CopyEntry(dest: Env, e: Entry, counter: nat) returns (ok: bool, next: nat)
    requires dest.Valid() && dest.inTxn
    modifies dest
    ensures dest.Valid() && dest.inTxn
    ensures ok ==> next == counter + 1
    ensures ok ==> dest.durableLog + dest.pending == old(dest.durableLog + dest.pending) + [e]
    ensures ok ==> dest.durableLog == (if next % BatchSize == 0 then old(dest.durableLog + dest.pending) + [e] else old(dest.durableLog))
    ensures !ok ==> dest.durableLog == old(dest.durableLog) && dest.pending == old(dest.pending)
    ensures !ok ==> |Apply(dest.base, old(dest.durableLog + dest.pending) + [e])| > dest.capacity
  {
    next := counter;
    ok := dest.Put(e.key, e.value);
    if ok {
      next := counter + 1;
      if next % BatchSize == 0 {
        dest.Commit();
        dest.Begin();
      }
    }
  }

  /** The durable puts once `j` entries of `ys` were copied over the puts `before` made durable up to `settled`. */
  ghost function CopyLog(before: seq<Entry>, settled: seq<Entry>, ys: seq<Entry>, j: nat): (r: seq<Entry>)
    requires j <= |ys|
  {
    if j >= BatchSize then before + ys[..j - j % BatchSize] else settled
  }

  /**
   * One turn of the copy loop in terms of the puts: the entry extends the
   * puts made, and the durable puts catch up with them exactly when the
   * counter reaches a multiple of BatchSize.
   */
  lemma CopyStep(before: seq<Entry>, settled: seq<Entry>, ys: seq<Entry>, j: nat, log: seq<Entry>, made: seq<Entry>)
    requires j < |ys|
    requires log == CopyLog(before, settled, ys, j) && made == before + ys[..j]
    ensures made + [ys[j]] == before + ys[..j + 1]
    ensures (j + 1) % BatchSize == 0 ==> made + [ys[j]] == CopyLog(before, settled, ys, j + 1)
    ensures (j + 1) % BatchSize != 0 ==> log == CopyLog(before, settled, ys, j + 1)
  {
    assert ys[..j + 1] == ys[..j] + [ys[j]];
    CounterStep(j);
  }

  /**
   * The loop over the entries `ys` of one input: puts each one in the open
   * transaction and, whenever this input's counter reaches a multiple of
   * BatchSize, commits and opens a new transaction. It stops early, with the
   * transaction still open, at the first put that overflows the environment.
   */
  method CopyEntries(dest: Env, ys: seq<Entry>) returns (ok: bool, ghost stopEntry: nat)
    requires dest.Valid() && dest.inTxn
    modifies dest
    ensures dest.Valid() && dest.inTxn
    ensures stopEntry <= |ys| && (ok ==> stopEntry == |ys|)
    ensures dest.durableLog + dest.pending == old(dest.durableLog + dest.pending) + ys[..stopEntry]
    ensures dest.durableLog == CopyLog(old(dest.durableLog + dest.pending), old(dest.durableLog), ys, stopEntry)
    ensures !ok ==>
      && stopEntry < |ys|
      && |Apply(dest.base, old(dest.durableLog + dest.pending) + ys[..stopEntry + 1])| > dest.capacity
  {
    ghost var before, settled := dest.durableLog + dest.pending, dest.durableLog;
    var counter := 0;
    var j := 0;
    while j < |ys|
      invariant 0 <= j <= |ys| && counter == j
      invariant dest.Valid() && dest.inTxn
      invariant dest.durableLog + dest.pending == before + ys[..j]
      invariant dest.durableLog == CopyLog(before, settled, ys, j)
    {
      ghost var log, made := dest.durableLog, dest.durableLog + dest.pending;
      ok, counter := CopyEntry(dest, ys[j], counter);
      CopyStep(before, settled, ys, j, log, made);
      if !ok {
        stopEntry := j;
        return;
      }
      j := j + 1;
    }
    ok, stopEntry := true, j;
  }

  /**
   * The copy of one source into the open transaction: opens it, then copies
   * what its iterator yields. `err` is the error that stops the run, if any:
   * the source's own (opening it, finding no unnamed database in it,
   * reading one of its entries) or the put
   * that overflowed the environment after `stopEntry` entries.
   */
  method MergeSource(dest: Env, s: Source) returns (err: Option<Error>, ghost stopEntry: nat)
    requires dest.Valid() && dest.inTxn
    modifies dest
    ensures dest.Valid() && dest.inTxn
    ensures stopEntry <= |Yielded(s)|
    ensures dest.durableLog + dest.pending == old(dest.durableLog + dest.pending) + Yielded(s)[..stopEntry]
    ensures dest.durableLog == CopyLog(old(dest.durableLog + dest.pending), old(dest.durableLog), Yielded(s), stopEntry)
    ensures err.None? ==> Clean(s) && stopEntry == |Yielded(s)|
    ensures err.Some? && stopEntry < |Yielded(s)| ==>
      && err.value == MapFullError
      && |Apply(dest.base, old(dest.durableLog + dest.pending) + Yielded(s)[..stopEntry + 1])| > dest.capacity
    ensures err.Some? && stopEntry == |Yielded(s)| ==> SourceError(s) == err
  {
    match s
    case OpenFailed(e) =>
      err, stopEntry := Some(e), 0;
    case NoTable =>
      err, stopEntry := Some(DatabaseNotFound), 0;
    case Present(_, readFailure) =>
      var ok;
      ok, stopEntry := CopyEntries(dest, Yielded(s));
      if !ok {
        err := Some(MapFullError);
      } else if readFailure.Some? {
        err := Some(readFailure.value.error);
      } else {
        err := None;
      }
  }

  /**
   * A run over `inputs` that has copied the first `i` of them without
   * error: `made` is every put so far and `durable` what the commits so
   * far made durable.
   */
  ghost predicate Running(inputs: seq<Source>, i: nat, durable: seq<Entry>, made: seq<Entry>)
  {
    && i <= |inputs|
    && (forall k | 0 <= k < i :: Clean(inputs[k]))
    && durable == Settled(inputs, i)
    && made == Puts(inputs, i)
  }

  /**
   * A run over `inputs` stopped by `err` after `j` entries of input `i`,
   * every earlier input copied in full: `made` is every put so far and
   * `durable` what the commits so far made durable. The error is either the
   * put of entry `j`, which would overflow the `capacity` of an environment
   * opened over `base`, or the error of input `i` itself.
   */
  ghost predicate StoppedAt(inputs: seq<Source>, i: nat, j: nat, durable: seq<Entry>, made: seq<Entry>,
                            base: Table, capacity: nat, err: Error)
  {
    && i < |inputs| && j <= |Yielded(inputs[i])|
    && (forall k | 0 <= k < i :: Clean(inputs[k]))
    && made == Made(inputs, i, j)
    && durable == Durable(inputs, i, j)
    && if j < |Yielded(inputs[i])|
       then err == MapFullError && |Apply(base, Made(inputs, i, j + 1))| > capacity
       else SourceError(inputs[i]) == Some(err)
  }

  /** What the copy of input `i` leaves, in terms of the whole run. */
  lemma SourceStep(inputs: seq<Source>, i: nat, j: nat, before: seq<Entry>, settled: seq<Entry>,
                   durable: seq<Entry>, made: seq<Entry>, base: Table, capacity: nat, err: Option<Error>)
    requires i < |inputs| && Running(inputs, i, settled, before)
    requires j <= |Yielded(inputs[i])|
    requires made == before + Yielded(inputs[i])[..j]
    requires durable == CopyLog(before, settled, Yielded(inputs[i]), j)
    requires err.None? ==> Clean(inputs[i]) && j == |Yielded(inputs[i])|
    requires err.Some? && j < |Yielded(inputs[i])| ==>
      && err.value == MapFullError
      && |Apply(base, before + Yielded(inputs[i])[..j + 1])| > capacity
    requires err.Some? && j == |Yielded(inputs[i])| ==> SourceError(inputs[i]) == err
    ensures err.None? ==> Running(inputs, i + 1, durable, made)
    ensures err.Some? ==> StoppedAt(inputs, i, j, durable, made, base, capacity, err.value)
  {
    MadeAll(inputs, i);
    if j < |Yielded(inputs[i])| {
      assert before + Yielded(inputs[i])[..j + 1] == Made(inputs, i, j + 1);
    }
  }

  /**
   * The loop over the inputs, in list order, with the write transaction
   * open throughout: stops at the first source whose copy fails, after
   * `stopEntry` entries of input `stopInput`, leaving the transaction open.
   */
  method MergeInputs(dest: Env, inputs: seq<Source>)
    returns (err: Option<Error>, ghost stopInput: nat, ghost stopEntry: nat)
    requires dest.Valid() && dest.inTxn && dest.durableLog == [] && dest.pending == []
    modifies dest
    ensures dest.Valid() && dest.inTxn
    ensures err.None? ==> Running(inputs, |inputs|, dest.durableLog, dest.durableLog + dest.pending)
    ensures err.Some? ==>
      StoppedAt(inputs, stopInput, stopEntry, dest.durableLog, dest.durableLog + dest.pending,
                dest.base, dest.capacity, err.value)
  {
    stopInput, stopEntry := 0, 0;
    var i := 0;
    while i < |inputs|
      invariant 0 <= i <= |inputs|
      invariant dest.Valid() && dest.inTxn
      invariant Running(inputs, i, dest.durableLog, dest.durableLog + dest.pending)
    {
      ghost var before, settled := dest.durableLog + dest.pending, dest.durableLog;
      err, stopEntry := MergeSource(dest, inputs[i]);
      SourceStep(inputs, i, stopEntry, before, settled, dest.durableLog, dest.durableLog + dest.pending,
                 dest.base, dest.capacity, err);
      if err.Some? {
        stopInput := i;
        return;
      }
      i := i + 1;
    }
    err := None;
  }

  /**
   * Merges `inputs` into the environment holding `existing`, whose map size
   * admits `capacity` keys. On success the environment holds the overwrite
   * fold of every entry of every input over `existing`. On failure the run
   * stopped after `stopEntry` entries of input `stopInput`: the durable table
   * is the fold of the puts up to the last commit, the open transaction is
   * discarded, and the failure is the put that overflowed the environment or
   * the error of that input.
   */
  method Merge(existing: Table, capacity: nat, inputs: seq<Source>)
    returns (dest: Env, r: Outcome, ghost stopInput: nat, ghost stopEntry: nat)
    requires |existing| <= capacity
    ensures fresh(dest) && dest.Valid() && !dest.inTxn && dest.pending == []
    ensures dest.capacity == capacity
    ensures r.Pass? <==>
      && (forall k | 0 <= k < |inputs| :: Clean(inputs[k]))
      && |Apply(existing, AllPuts(inputs))| <= capacity
    ensures r.Pass? ==> dest.committed == Apply(existing, AllPuts(inputs))
    ensures r.Fail? ==>
      && stopInput < |inputs| && stopEntry <= |Yielded(inputs[stopInput])|
      && (forall k | 0 <= k < stopInput :: Clean(inputs[k]))
      && |Apply(existing, Made(inputs, stopInput, stopEntry))| <= capacity
      && dest.committed == Apply(existing, Durable(inputs, stopInput, stopEntry))
      && if stopEntry < |Yielded(inputs[stopInput])|
         then r.error == MapFullError
              && |Apply(existing, Made(inputs, stopInput, stopEntry + 1))| > capacity
         else SourceError(inputs[stopInput]) == Some(r.error)
  {
    dest := new Env(existing, capacity);
    dest.Begin();
    var err;
    err, stopInput, stopEntry := MergeInputs(dest, inputs);
    ApplyAppend(existing, dest.durableLog, dest.pending);
    if err.Some? {
      if stopEntry < |Yielded(inputs[stopInput])| {
        MapFullAtRun(existing, inputs, stopInput, stopEntry + 1);
      }
      dest.Abort();
      r := Fail(err.value);
    } else {
      dest.Commit();
      r := Pass;
    }
  }

  /** A run whose puts so far overflow the environment overflows it in full. */
  lemma MapFullAtRun(init: Table, inputs: seq<Source>, i: nat, j: nat)
    requires i < |inputs| && j <= |Yielded(inputs[i])|
    ensures |Apply(init, Made(inputs, i, j))| <= |Apply(init, AllPuts(inputs))|
  {
    var made, all := Made(inputs, i, j), AllPuts(inputs);
    MadeIsPrefix(inputs, i, j);
    assert made + all[|made|..] == all;
    ApplyGrows(init, made, all[|made|..]);
  }

  /** No entry is skipped: every key that any input yields is in the merged table. */
  lemma MergeComplete(m: Table, inputs: seq<Source>, i: nat, e: Entry)
    requires i < |inputs| && e in Yielded(inputs[i])
    ensures e.key in Apply(m, AllPuts(inputs))
  {
    var ys := Yielded(inputs[i]);
    var j :| 0 <= j < |ys| && ys[j] == e;
    MadeIsPrefix(inputs, i, j + 1);
    var all := AllPuts(inputs);
    assert all[|Puts(inputs, i)| + j] == e;
    ApplyKeys(m, all);
    assert e.key in KeysOf(all);
  }

  /**
   * Re-merging is idempotent: merging the same inputs into the table a
   * successful merge left fits in the same capacity and leaves that table
   * unchanged, puts only overwriting.
   */
  lemma RemergeIdempotent(existing: Table, capacity: nat, inputs: seq<Source>)
    requires |Apply(existing, AllPuts(inputs))| <= capacity
    ensures |Apply(Apply(existing, AllPuts(inputs)), AllPuts(inputs))| <= capacity
    ensures Apply(Apply(existing, AllPuts(inputs)), AllPuts(inputs)) == Apply(existing, AllPuts(inputs))
  {
    ApplyIdempotent(existing, AllPuts(inputs));
  }

  /** Every put past the first `i` inputs comes from one of the later inputs. */
  lemma {:induction false} PutsFrom(inputs: seq<Source>, i: nat, n: nat, k: nat)
    requires i <= n <= |inputs| && |Puts(inputs, i)| <= k < |Puts(inputs, n)|
    ensures exists c :: i <= c < n && Puts(inputs, n)[k] in Yielded(inputs[c])
    decreases n
  {
    PutsPrefix(inputs, i, n - 1);
    if k < |Puts(inputs, n - 1)| {
      PutsFrom(inputs, i, n - 1, k);
      var c :| i <= c < n - 1 && Puts(inputs, n - 1)[k] in Yielded(inputs[c]);
      assert Puts(inputs, n)[k] in Yielded(inputs[c]);
    } else {
      assert Puts(inputs, n)[k] == Yielded(inputs[n - 1])[k - |Puts(inputs, n - 1)|];
    }
  }

  /** A key that no input after `b` yields is named by no put after those of input `b`. */
  lemma LaterKeysAvoid(inputs: seq<Source>, b: nat, key: Bytes)
    requires b < |inputs|
    requires forall c, f :: b < c < |inputs| && f in Yielded(inputs[c]) ==> f.key != key
    ensures Puts(inputs, b + 1) <= AllPuts(inputs)
    ensures forall k | |Puts(inputs, b + 1)| <= k < |AllPuts(inputs)| :: AllPuts(inputs)[k].key != key
  {
    var all, upTo := AllPuts(inputs), Puts(inputs, b + 1);
    PutsPrefix(inputs, b + 1, |inputs|);
    forall k | |upTo| <= k < |all| ensures all[k].key != key {
      PutsFrom(inputs, b + 1, |inputs|, k);
    }
  }

  /**
   * Last source wins: an entry of input `b` whose key no later input yields
   * and whose input's keys are in strictly increasing order ends up in the
   * merged table with its own value.
   */
  lemma LaterSourceWins(m: Table, inputs: seq<Source>, b: nat, e: Entry)
    requires b < |inputs| && e in Yielded(inputs[b])
    requires StrictlyOrdered(Yielded(inputs[b]))
    requires forall c, f :: b < c < |inputs| && f in Yielded(inputs[c]) ==> f.key != e.key
    ensures e.key in Apply(m, AllPuts(inputs)) && Apply(m, AllPuts(inputs))[e.key] == e.value
  {
    var ys, upTo, all := Yielded(inputs[b]), Puts(inputs, b + 1), AllPuts(inputs);
    LaterKeysAvoid(inputs, b, e.key);
    var after := all[|upTo|..];
    assert all == upTo + after;
    assert forall k | 0 <= k < |after| :: after[k] == all[|upTo| + k];
    ApplyAppend(m, upTo, after);
    var atB := Apply(m, upTo);
    OwnValueAfterInput(m, inputs, b, e);
    ApplyUntouched(atB, after, e.key);
  }

  /** Right after input `b`, an entry of it holds its own value, keys within an input being distinct. */
  lemma OwnValueAfterInput(m: Table, inputs: seq<Source>, b: nat, e: Entry)
    requires b < |inputs| && e in Yielded(inputs[b])
    requires StrictlyOrdered(Yielded(inputs[b]))
    ensures e.key in Apply(m, Puts(inputs, b + 1)) && Apply(m, Puts(inputs, b + 1))[e.key] == e.value
  {
    var ys, before := Yielded(inputs[b]), Puts(inputs, b);
    ApplyAppend(m, before, ys);
    var j :| 0 <= j < |ys| && ys[j] == e;
    OrderedKeysDistinct(ys);
    ApplyLastWins(Apply(m, before), ys, j);
  }
}

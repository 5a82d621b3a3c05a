/**
 * The storage side of lmdb_merge: byte-string entries, the source tables the
 * merge reads, the overwrite fold that a sequence of puts performs on a table,
 * and the destination environment with its write transaction.
 */
module Store {

  newtype byte = b: int | 0 <= b < 256
  type Bytes = seq<byte>

  datatype Option<T> = None | Some(value: T)

  /**
   * Failures a run can abort with: opening a source (its environment, its
   * read transaction or its unnamed database), a source with no unnamed
   * database, a put that finds the destination's map full, and an iterator
   * that fails to start or to read an entry.
   */
  datatype Error = OpenError | DatabaseNotFound | MapFullError | ReadError

  /** Outcome of a run that yields no value. */
  datatype Outcome = Pass | Fail(error: Error)

  /** Outcome of a run that yields a value. */
  datatype Result<T> = Ok(value: T) | Err(error: Error)

  /** One (key, value) pair of the unnamed table. */
  datatype Entry = Entry(key: Bytes, value: Bytes)

  type Table = map<Bytes, Bytes>

  /**
   * The iteration of a table fails with `error` once `after` entries were
   * yielded; an iterator that fails to start fails after 0 entries.
   */
  datatype ReadFailure = ReadFailure(after: nat, error: Error)

  /**
   * A source store as the engines see it through one read transaction:
   * opening it (environment, read transaction, unnamed database) fails,
   * or it holds no unnamed database, or it holds a table whose snapshot is
   * `entries` in native key order, possibly with a read failure part way.
   */
  datatype Source =
    | OpenFailed(error: Error)
    | NoTable
    | Present(entries: seq<Entry>, readFailure: Option<ReadFailure>)

  /** Native key order of the store: lexicographic over bytes, a proper prefix first. */
  predicate KeyLess(a: Bytes, b: Bytes)
  {
    if a == [] then b != []
    else if b == [] then false
    else a[0] < b[0] || (a[0] == b[0] && KeyLess(a[1..], b[1..]))
  }

  /** Entries in strictly increasing key order, as a table iterator yields them. */
  predicate StrictlyOrdered(entries: seq<Entry>)
  {
    forall i, j :: 0 <= i < j < |entries| ==> KeyLess(entries[i].key, entries[j].key)
  }

  predicate DistinctKeys(entries: seq<Entry>)
  {
    forall i, j :: 0 <= i < j < |entries| ==> entries[i].key != entries[j].key
  }

  ghost function KeysOf(entries: seq<Entry>): (r: set<Bytes>)
  {
    set i | 0 <= i < |entries| :: entries[i].key
  }

  /** What the iterator over a source yields before it ends or fails. */
  function Yielded(s: Source): (r: seq<Entry>)
  {
    match s
    case Present(entries, readFailure) =>
      if readFailure.Some? && readFailure.value.after < |entries|
      then entries[..readFailure.value.after]
      else entries
    case _ => []
  }

  /** The error that opening a source raises, if any. */
  function OpenFailure(s: Source): (r: Option<Error>)
  {
    match s
    case OpenFailed(e) => Some(e)
    case NoTable => Some(DatabaseNotFound)
    case Present(_, _) => None
  }

  /** The error that opening or fully iterating a source raises, if any. */
  function SourceError(s: Source): (r: Option<Error>)
  {
    match s
    case Present(_, readFailure) =>
      if readFailure.Some? then Some(readFailure.value.error) else None
    case _ => OpenFailure(s)
  }

  predicate Clean(s: Source)
  {
    SourceError(s) == None
  }

  /** The table obtained from `m` by putting every entry of `puts`, left to right. */
  function Apply(m: Table, puts: seq<Entry>): (r: Table)
    decreases |puts|
  {
    if puts == [] then m
    else
      var last := puts[|puts| - 1];
      Apply(m, puts[..|puts| - 1])[last.key := last.value]
  }

  /** One more put updates the table at its key. */
  lemma ApplySnoc(m: Table, s: seq<Entry>, e: Entry)
    ensures Apply(m, s + [e]) == Apply(m, s)[e.key := e.value]
  {
    assert (s + [e])[..|s + [e]| - 1] == s;
  }

  lemma KeyLessIrreflexive(a: Bytes)
    ensures !KeyLess(a, a)
  {
    if a != [] {
      KeyLessIrreflexive(a[1..]);
    }
  }

  /** Keys that the store iterates in strictly increasing order are unique. */
  lemma OrderedKeysDistinct(entries: seq<Entry>)
    requires StrictlyOrdered(entries)
    ensures DistinctKeys(entries)
  {
    forall i, j | 0 <= i < j < |entries|
      ensures entries[i].key != entries[j].key
    {
      KeyLessIrreflexive(entries[i].key);
    }
  }

  /** Putting `s` and then `t` is putting `s + t`. */
  lemma {:induction false} ApplyAppend(m: Table, s: seq<Entry>, t: seq<Entry>)
    ensures Apply(m, s + t) == Apply(Apply(m, s), t)
    decreases |t|
  {
    if t == [] {
      assert s + t == s;
    } else {
      var n := |t| - 1;
      ApplyAppend(m, s, t[..n]);
      assert (s + t)[..|s + t| - 1] == s + t[..n];
      assert (s + t)[|s + t| - 1] == t[n];
    }
  }

  /**
   * The puts of one transaction overlay the table it started from: the
   * result is the old table with the transaction's own key set laid on top.
   */
  lemma {:induction false} ApplyOverlay(m: Table, s: seq<Entry>)
    ensures Apply(m, s) == m + Apply(map[], s)
    decreases |s|
  {
    if s == [] {
      assert m + map[] == m;
    } else {
      var n := |s| - 1;
      ApplyOverlay(m, s[..n]);
      var prior := Apply(map[], s[..n]);
      assert (m + prior)[s[n].key := s[n].value] == m + prior[s[n].key := s[n].value];
    }
  }

  /**
   * Committing the puts `s` and then, in a fresh transaction, the puts `t`
   * leaves the same table as committing `s + t` in one transaction.
   */
  lemma BatchingTransparent(m: Table, s: seq<Entry>, t: seq<Entry>)
    ensures (m + Apply(map[], s)) + Apply(map[], t) == m + Apply(map[], s + t)
  {
    ApplyOverlay(m, s);
    ApplyOverlay(Apply(m, s), t);
    ApplyAppend(m, s, t);
    ApplyOverlay(m, s + t);
  }

  /** No put is lost: the keys afterwards are the old keys and every key put. */
  lemma {:induction false} ApplyKeys(m: Table, s: seq<Entry>)
    ensures Apply(m, s).Keys == m.Keys + KeysOf(s)
    decreases |s|
  {
    if s == [] {
      assert KeysOf(s) == {};
    } else {
      var n := |s| - 1;
      ApplyKeys(m, s[..n]);
      assert KeysOf(s) == KeysOf(s[..n]) + {s[n].key} by {
        forall k | k in KeysOf(s) ensures k in KeysOf(s[..n]) + {s[n].key} {
          var i :| 0 <= i < |s| && s[i].key == k;
          if i < n {
            assert s[..n][i].key == k;
          }
        }
        forall k | k in KeysOf(s[..n]) ensures k in KeysOf(s) {
          var i :| 0 <= i < n && s[..n][i].key == k;
          assert s[i].key == k;
        }
      }
    }
  }

  /** Last write wins: a key ends up with the value of its last put. */
  lemma {:induction false} ApplyLastWins(m: Table, s: seq<Entry>, i: nat)
    requires i < |s|
    requires forall j :: i < j < |s| ==> s[j].key != s[i].key
    ensures s[i].key in Apply(m, s) && Apply(m, s)[s[i].key] == s[i].value
    decreases |s|
  {
    var n := |s| - 1;
    if i < n {
      ApplyLastWins(m, s[..n], i);
    }
  }

  /** A key that no put names keeps its presence and value. */
  lemma {:induction false} ApplyUntouched(m: Table, s: seq<Entry>, k: Bytes)
    requires forall j :: 0 <= j < |s| ==> s[j].key != k
    ensures (k in Apply(m, s)) == (k in m)
    ensures k in m ==> Apply(m, s)[k] == m[k]
    decreases |s|
  {
    if s != [] {
      ApplyUntouched(m, s[..|s| - 1], k);
    }
  }

  /** Putting the same entries a second time changes nothing. */
  lemma ApplyIdempotent(m: Table, s: seq<Entry>)
    ensures Apply(Apply(m, s), s) == Apply(m, s)
  {
    var delta := Apply(map[], s);
    ApplyOverlay(m, s);
    ApplyOverlay(Apply(m, s), s);
    assert (m + delta) + delta == m + delta;
  }

  /** Puts never remove keys, so a longer run of puts holds at least as many keys. */
  lemma {:induction false} ApplyGrows(m: Table, s: seq<Entry>, t: seq<Entry>)
    ensures |Apply(m, s)| <= |Apply(m, s + t)|
    decreases |t|
  {
    if t == [] {
      assert s + t == s;
    } else {
      var n := |t| - 1;
      ApplyGrows(m, s, t[..n]);
      assert (s + t)[..|s + t| - 1] == s + t[..n];
    }
  }

  /** With unique keys, every put adds a key: the table has as many keys as entries. */
  lemma {:induction false} DistinctKeysCount(s: seq<Entry>)
    requires DistinctKeys(s)
    ensures |Apply(map[], s)| == |s|
    decreases |s|
  {
    if s != [] {
      var n := |s| - 1;
      DistinctKeysCount(s[..n]);
      ApplyKeys(map[], s[..n]);
      assert s[n].key !in KeysOf(s[..n]);
    }
  }

  /**
   * The destination environment with its unnamed database: the table made
   * durable by the last commit, and the puts of the open write transaction
   * (if any), in order, that a commit would lay over it. `capacity` bounds
   * the number of keys the environment's map size can hold. The ghost fields
   * record the contents when the environment was opened and every put made
   * durable since then.
   */
  class Env {
    var committed: Table
    var pending: seq<Entry>
    var inTxn: bool
    const capacity: nat
    ghost const base: Table
    ghost var durableLog: seq<Entry>

    ghost predicate Valid()
      reads this
    {
      && committed == Apply(base, durableLog)
      && |committed| <= capacity
      && |Apply(committed, pending)| <= capacity
      && (!inTxn ==> pending == [])
    }

    /** The table as the open transaction sees it. */
    function View(): (r: Table)
      reads this
    {
      Apply(committed, pending)
    }

    /** Opens the environment over its existing contents. */
    constructor (contents: Table, capacity: nat)
      requires |contents| <= capacity
      ensures Valid() && !inTxn && this.capacity == capacity
      ensures committed == contents && pending == []
      ensures base == contents && durableLog == []
    {
      committed := contents;
      pending := [];
      inTxn := false;
      this.capacity := capacity;
      base := contents;
      durableLog := [];
    }

    /** Opens a write transaction, which starts with no puts of its own. */
    method Begin()
      requires Valid() && !inTxn
      modifies this
      ensures Valid() && inTxn
      ensures committed == old(committed) && pending == [] && durableLog == old(durableLog)
    {
      inTxn := true;
    }

    /**
     * Puts `key := value` in the open transaction. The put fails, changing
     * nothing, when it would add a key to a full environment.
     */
    method Put(key: Bytes, value: Bytes) returns (ok: bool)
      requires Valid() && inTxn
      modifies this
      ensures Valid() && inTxn && committed == old(committed) && durableLog == old(durableLog)
      ensures ok <==> key in old(View()) || |old(View())| < capacity
      ensures pending == if ok then old(pending) + [Entry(key, value)] else old(pending)
      ensures !ok ==> |Apply(base, durableLog + pending + [Entry(key, value)])| > capacity
    {
      var view := Apply(committed, pending);
      ok := key in view || |view| < capacity;
      ApplySnoc(committed, pending, Entry(key, value));
      ApplyAppend(base, durableLog, pending + [Entry(key, value)]);
      assert durableLog + (pending + [Entry(key, value)]) == durableLog + pending + [Entry(key, value)];
      if ok {
        pending := pending + [Entry(key, value)];
      }
    }

    /** Makes the transaction's puts durable and closes it. */
    method Commit()
      requires Valid() && inTxn
      modifies this
      ensures Valid() && !inTxn
      ensures committed == old(View()) && pending == []
      ensures durableLog == old(durableLog + pending)
    {
      ApplyAppend(base, durableLog, pending);
      committed := Apply(committed, pending);
      durableLog := durableLog + pending;
      pending := [];
      inTxn := false;
    }

    /** Drops the transaction, if one is open: its puts are discarded. */
    method Abort()
      requires Valid()
      modifies this
      ensures Valid() && !inTxn
      ensures committed == old(committed) && pending == [] && durableLog == old(durableLog)
    {
      pending := [];
      inTxn := false;
    }
  }
}

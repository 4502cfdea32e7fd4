/** The exitable-range table of the plasma contract: a map from a range's
    exclusive upper bound to its inclusive lower bound. Deposits add a range;
    finalizing an exit splits the range that contains it. */
module ExitableRanges {

  type Table = map<int, int>

  /** The entry keyed `key` covers position `x`. */
  predicate Covers(m: Table, key: int, x: int)
  {
    key in m && m[key] <= x < key
  }

  /** Every entry is a non-empty range. */
  predicate WellFormed(m: Table)
  {
    forall k :: k in m ==> m[k] < k
  }

  /** No entry ends beyond `total`. */
  predicate BoundedBy(m: Table, total: int)
  {
    forall k :: k in m ==> k <= total
  }

  /** No two entries share a position. */
  predicate Disjoint(m: Table)
  {
    forall k1, k2 :: k1 in m && k2 in m && k1 != k2 ==> k1 <= m[k2] || k2 <= m[k1]
  }

  /** A deposit of `amount` when `total` has been deposited so far adds the
      entry [total, total + amount). If the table was non-empty, disjoint and
      bounded by `total`, the new entry overwrites nothing, the table stays
      disjoint and is bounded by the new total. */
  lemma DepositKeepsDisjoint(m: Table, total: int, amount: int)
    requires WellFormed(m) && BoundedBy(m, total) && Disjoint(m)
    requires 0 < amount
    ensures total + amount !in m
    ensures WellFormed(m[total + amount := total])
    ensures BoundedBy(m[total + amount := total], total + amount)
    ensures Disjoint(m[total + amount := total])
  {
    var m' := m[total + amount := total];
    forall k1, k2 | k1 in m' && k2 in m' && k1 != k2
      ensures k1 <= m'[k2] || k2 <= m'[k1]
    {
      if k1 == total + amount {
        assert k2 in m && k2 <= total;
      } else if k2 == total + amount {
        assert k1 in m && k1 <= total;
      } else {
        assert k1 in m && k2 in m;
      }
    }
  }

  /** The split that finalizing the exit [start, end) performs on the entry
      keyed `key`: if `start` differs from the entry's lower bound, the part
      below the exit is kept under key `start`; then, if `end` differs from
      `key`, the entry keyed `key` is cut down to begin at `end`. */
  function Split(m: Table, key: int, start: int, end: int): (m': Table)
    requires key in m
    ensures key in m'
    ensures m'.Keys == if start != m[key] then m.Keys + {start} else m.Keys
    ensures forall k :: k in m && k != key && (k != start || start == m[key]) ==> m'[k] == m[k]
    ensures start != m[key] && start != key ==> m'[start] == m[key]
    ensures end != key ==> m'[key] == end
    ensures end == key ==> m'[key] == m[key]
  {
    var lower := m[key];
    var withBelow := if start != lower then m[start := lower] else m;
    if end != key then withBelow[key := end] else withBelow
  }

  /** Whatever the exit, a split leaves every entry non-empty and no entry
      ends beyond where it could before, provided the exit lies in the entry
      and is not inverted. */
  lemma SplitKeepsWellFormed(m: Table, key: int, start: int, end: int)
    requires key in m && WellFormed(m)
    requires m[key] <= start && end <= key
    ensures WellFormed(Split(m, key, start, end))
    ensures start <= key ==> forall total :: BoundedBy(m, total) ==> BoundedBy(Split(m, key, start, end), total)
  {
  }

  /** When the exit stops short of the entry's end (and is not inverted), the
      split removes exactly the exited positions: the table stays disjoint,
      no entry covers [start, end), and the parts of the old entry below and
      above the exit stay exitable. */
  lemma SplitRemovesExactlyTheExit(m: Table, key: int, start: int, end: int)
    requires key in m && WellFormed(m) && Disjoint(m)
    requires m[key] <= start <= end < key
    ensures Disjoint(Split(m, key, start, end))
    ensures forall k, x :: start <= x < end ==> !Covers(Split(m, key, start, end), k, x)
    ensures forall x :: m[key] <= x < start ==> Covers(Split(m, key, start, end), start, x)
    ensures forall x :: end <= x < key ==> Covers(Split(m, key, start, end), key, x)
  {
    var lower := m[key];
    var m' := Split(m, key, start, end);
    // Any other entry lies wholly below `lower` or at or above `key`.
    forall k | k in m && k != key
      ensures k <= lower || key <= m[k]
    {
    }
    assert start != lower ==> start !in m;
    forall k1, k2 | k1 in m' && k2 in m' && k1 != k2
      ensures k1 <= m'[k2] || k2 <= m'[k1]
    {
      if k1 != start && k1 != key && k2 != start && k2 != key {
        assert k1 in m && k2 in m;
      }
    }
    forall k, x | start <= x < end
      ensures !Covers(m', k, x)
    {
      if k in m' && k != start && k != key {
        assert k in m;
      }
    }
  }

  /** The exit-to-the-end defect, first case: an exit covering the whole
      entry leaves the table unchanged, so its positions stay exitable. */
  lemma SplitOfWholeRangeChangesNothing(m: Table, key: int)
    requires key in m
    ensures Split(m, key, m[key], key) == m
    ensures forall x :: m[key] <= x < key ==> Covers(Split(m, key, m[key], key), key, x)
  {
  }

  /** The exit-to-the-end defect, second case: an exit that starts inside the
      entry and runs to its end adds `start -> lower` while the entry keyed
      `key` keeps its old lower bound, so the two entries overlap. */
  lemma SplitToTheEndOverlaps(m: Table, key: int, start: int)
    requires key in m && m[key] < start < key
    ensures var m' := Split(m, key, start, key);
            && start in m' && m'[start] == m[key]
            && m'[key] == m[key]
            && Covers(m', start, m[key]) && Covers(m', key, m[key])
            && !Disjoint(m')
  {
    var m' := Split(m, key, start, key);
    assert start in m' && key in m' && start != key;
    assert !(start <= m'[key] || key <= m'[start]);
  }
}

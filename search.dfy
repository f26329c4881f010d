/**
 * The `k_vN` search of the conflict renaming in `mergeSpecs`: the candidates
 * `k_v2`, `k_v3`, … tried for a conflicting key, along the keys of the
 * destination and then past the names already taken.
 */
module Search {
  import opened Strings

  /** The candidates `k_v2` … `k_vI`. */
  ghost function Candidates(k: string, i: int): set<string>
    decreases i
  {
    if i < 2 then {} else Candidates(k, i - 1) + {VersionedName(k, i)}
  }

  /** Every candidate up to `I` is `k_vL` for some `L` of at most `I`. */
  lemma {:induction false} CandidateBelow(k: string, i: int, n: string)
    requires n in Candidates(k, i)
    ensures exists l :: 2 <= l <= i && VersionedName(k, l) == n
    decreases i
  {
    if n != VersionedName(k, i) {
      CandidateBelow(k, i - 1, n);
    }
  }

  /** The next candidate is new, and the candidates still outside `u` do not grow. */
  lemma CandidatesStep(k: string, u: set<string>, i: int)
    requires i >= 1
    ensures VersionedName(k, i + 1) !in Candidates(k, i)
    ensures |u - Candidates(k, i + 1)| <= |u - Candidates(k, i)|
    ensures VersionedName(k, i + 1) in u ==> |u - Candidates(k, i + 1)| < |u - Candidates(k, i)|
  {
    var n := VersionedName(k, i + 1);
    if n in Candidates(k, i) {
      CandidateBelow(k, i, n);
      var l :| 2 <= l <= i && VersionedName(k, l) == n;
      VersionedNameInjective(k, l, i + 1);
      assert false;
    }
    RemoveOneMore(u, Candidates(k, i), n);
  }

  /** A step of the search past a taken candidate leaves fewer taken names ahead. */
  lemma CandidatesShrink(k: string, u: set<string>, i: int)
    requires i >= 2 && VersionedName(k, i) in u
    ensures |u - Candidates(k, i)| < |u - Candidates(k, i - 1)|
  {
    CandidatesStep(k, u, i - 1);
  }

  /** Removing one more element from `u` leaves it no larger, and smaller when the element was in it. */
  lemma RemoveOneMore(u: set<string>, c: set<string>, n: string)
    requires n !in c
    ensures |u - (c + {n})| <= |u - c|
    ensures n in u ==> |u - (c + {n})| < |u - c|
  {
    var a, b := u - c, u - (c + {n});
    assert b == a - {n};
    if n in u {
      assert a == b + {n};
    } else {
      assert a == b;
    }
  }

  /** The candidates `k_v2` … `k_v(J-1)` are all keys of `dest`. */
  ghost predicate InDestUpTo<V>(k: string, dest: map<string, V>, j: int)
  {
    forall l :: 2 <= l < j ==> VersionedName(k, l) in dest
  }

  /**
   * The search for a new name for the conflicting key `k` with source value
   * `v`. It walks `k_v2`, `k_v3`, … while they are keys of `dest`, and reuses
   * the first one whose value equals `v`; failing that, it goes on from the
   * first candidate missing from `dest` to the first that is neither `used`
   * nor a key of `source`.
   */
  method FindRename<V>(k: string, v: V, dest: map<string, V>, source: map<string, V>, used: set<string>,
                       equal: (V, V) -> bool)
    returns (newName: string, reused: bool, i: nat)
    requires k in dest && dest.Keys <= used
    ensures i >= 2 && newName == VersionedName(k, i)
    ensures reused ==> newName in dest && equal(dest[newName], v) && InDestUpTo(k, dest, i)
    ensures reused ==> forall j :: 2 <= j < i ==> !equal(dest[VersionedName(k, j)], v)
    ensures !reused ==> newName !in used && newName !in source
    ensures !reused ==> forall j :: 2 <= j < i ==> VersionedName(k, j) in used || VersionedName(k, j) in source
    ensures !reused ==> forall j :: 2 <= j < i && InDestUpTo(k, dest, j + 1) ==> !equal(dest[VersionedName(k, j)], v)
  {
    var i0;
    newName, reused, i0 := SearchDest(k, v, dest, equal);
    if reused {
      i := i0;
      return;
    }
    newName, i := SearchFree(k, source, used, i0);
    forall j | 2 <= j < i && InDestUpTo(k, dest, j + 1) ensures !equal(dest[VersionedName(k, j)], v) {
      if j >= i0 {
        assert false;
      }
    }
  }

  /** The first loop of the search: along the candidates that are keys of `dest`. */
  method SearchDest<V>(k: string, v: V, dest: map<string, V>, equal: (V, V) -> bool)
    returns (newName: string, reused: bool, i: nat)
    ensures i >= 2 && newName == VersionedName(k, i) && InDestUpTo(k, dest, i)
    ensures forall j :: 2 <= j < i ==> !equal(dest[VersionedName(k, j)], v)
    ensures reused ==> newName in dest && equal(dest[newName], v)
    ensures !reused ==> newName !in dest
  {
    var found := true;
    i, newName, reused := 1, "", false;
    while found && !reused
      invariant i >= 1 && (i >= 2 || (found && !reused))
      invariant i >= 2 ==> newName == VersionedName(k, i) && found == (newName in dest)
      invariant reused ==> found && equal(dest[newName], v)
      invariant found && !reused && i >= 2 ==> !equal(dest[newName], v)
      invariant InDestUpTo(k, dest, i)
      invariant forall j :: 2 <= j < i ==> !equal(dest[VersionedName(k, j)], v)
      decreases |dest.Keys - Candidates(k, i)| + if found && !reused then 1 else 0
    {
      CandidatesStep(k, dest.Keys, i);
      ghost var prev := i;
      i := i + 1;
      newName := VersionedName(k, i);
      found := newName in dest;
      reused := found && equal(dest[newName], v);
      forall j | 2 <= j < i ensures VersionedName(k, j) in dest && !equal(dest[VersionedName(k, j)], v) {
        if j == prev {
        }
      }
    }
  }

  /** The candidates `k_vI0` … `k_v(I-1)` are all `used` or keys of `source`. */
  ghost predicate TakenUpTo<V>(k: string, used: set<string>, source: map<string, V>, i0: nat, i: nat)
  {
    forall j :: i0 <= j < i ==> VersionedName(k, j) in used || VersionedName(k, j) in source
  }

  /** The second loop of the search: on to the first candidate neither `used` nor a key of `source`. */
  method SearchFree<V>(k: string, source: map<string, V>, used: set<string>, i0: nat)
    returns (newName: string, i: nat)
    requires i0 >= 2
    ensures i >= i0 && newName == VersionedName(k, i)
    ensures newName !in used && newName !in source
    ensures TakenUpTo(k, used, source, i0, i)
  {
    ghost var taken := used + source.Keys;
    i := i0;
    newName := VersionedName(k, i);
    var foundInSource := newName in source;
    while newName in used || foundInSource
      invariant i >= i0 && newName == VersionedName(k, i)
      invariant foundInSource == (newName in source)
      invariant TakenUpTo(k, used, source, i0, i)
      decreases |taken - Candidates(k, i - 1)|
    {
      CandidatesShrink(k, taken, i);
      TakenStep(k, used, source, i0, i);
      i := i + 1;
      newName := VersionedName(k, i);
      foundInSource := newName in source;
    }
  }

  /** One more taken candidate extends the run of taken candidates. */
  lemma TakenStep<V>(k: string, used: set<string>, source: map<string, V>, i0: nat, i: nat)
    requires TakenUpTo(k, used, source, i0, i)
    requires VersionedName(k, i) in used || VersionedName(k, i) in source
    ensures TakenUpTo(k, used, source, i0, i + 1)
  {
  }
}

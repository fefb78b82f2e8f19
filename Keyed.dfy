/**
  Lists of records identified by a natural key, as the program keeps them: the
  per-folder processing states, the IMAP account list and the rule list. Each
  is searched front to back for the first entry with a given key, updated in
  place when one is found and appended to otherwise (`ArrayList.set`/`add`,
  and `LinkedHashMap.put`, which keeps an existing key at its position).
*/
module Keyed {
  import opened Wrappers

  /** Index of the first entry whose key is `k`, or -1 when there is none. */
  function FirstIndex<T, K(==)>(xs: seq<T>, key: T -> K, k: K): (r: int)
    ensures -1 <= r < |xs|
    ensures 0 <= r ==> key(xs[r]) == k
    ensures forall j :: 0 <= j < |xs| && (r < 0 || j < r) ==> key(xs[j]) != k
  {
    if xs == [] then -1
    else if key(xs[0]) == k then 0
    else
      var i := FirstIndex(xs[1..], key, k);
      if i < 0 then -1 else i + 1
  }

  /** Some entry has key `k`. */
  predicate HasKey<T, K(==)>(xs: seq<T>, key: T -> K, k: K) {
    exists j :: 0 <= j < |xs| && key(xs[j]) == k
  }

  /** The first entry with key `k`, or `None`. */
  function Find<T, K(==)>(xs: seq<T>, key: T -> K, k: K): (r: Option<T>)
    ensures r.Some? <==> HasKey(xs, key, k)
    ensures r.Some? ==> exists i :: 0 <= i < |xs| && xs[i] == r.value && key(xs[i]) == k
                                    && forall j :: 0 <= j < i ==> key(xs[j]) != k
  {
    var i := FirstIndex(xs, key, k);
    if 0 <= i then Some(xs[i]) else None
  }

  /** How many entries before position `j` have a key other than `k`: the
      position the entry at `j` takes once the others are removed. */
  function Rank<T, K(==)>(xs: seq<T>, key: T -> K, k: K, j: nat): (n: nat)
    requires j <= |xs|
    ensures n <= j
  {
    if j == 0 then 0 else Rank(xs, key, k, j - 1) + (if key(xs[j - 1]) != k then 1 else 0)
  }

  /** Counting from the second entry on shifts every rank by the first entry. */
  lemma {:induction false} RankTail<T, K>(xs: seq<T>, key: T -> K, k: K, j: nat)
    requires 1 <= j <= |xs|
    ensures Rank(xs, key, k, j) == (if key(xs[0]) != k then 1 else 0) + Rank(xs[1..], key, k, j - 1)
  {
    if j > 1 {
      RankTail(xs, key, k, j - 1);
      assert xs[1..][j - 2] == xs[j - 1];
    }
  }

  /** Insert-or-update: `x` takes the place of the first entry with its key, or
      is appended when there is none. */
  function Upserted<T, K(==)>(xs: seq<T>, key: T -> K, x: T): (r: seq<T>)
    ensures HasKey(xs, key, key(x)) ==>
              |r| == |xs|
              && exists i :: 0 <= i < |xs| && key(xs[i]) == key(x) && r[i] == x
                             && (forall j :: 0 <= j < i ==> key(xs[j]) != key(x))
                             && (forall j :: 0 <= j < |xs| && j != i ==> r[j] == xs[j])
    ensures !HasKey(xs, key, key(x)) ==> r == xs + [x]
  {
    var i := FirstIndex(xs, key, key(x));
    if 0 <= i then xs[i := x] else xs + [x]
  }

  /** `r` is the entries of `xs` whose key is not `k`, in order: one entry
      per kept position, the entry kept at `j` standing at its rank. */
  ghost predicate RankedSelection<T, K>(xs: seq<T>, key: T -> K, k: K, r: seq<T>) {
    |r| == Rank(xs, key, k, |xs|)
    && forall j :: 0 <= j < |xs| && key(xs[j]) != k ==> Rank(xs, key, k, j) < |r| && r[Rank(xs, key, k, j)] == xs[j]
  }

  /** Keeping or dropping the first entry in front of the selection from the
      rest is the selection from the whole list. */
  lemma {:induction false} RankedCons<T, K>(xs: seq<T>, key: T -> K, k: K, rest: seq<T>)
    requires xs != [] && RankedSelection(xs[1..], key, k, rest)
    ensures RankedSelection(xs, key, k, if key(xs[0]) == k then rest else [xs[0]] + rest)
  {
    var r := if key(xs[0]) == k then rest else [xs[0]] + rest;
    RankTail(xs, key, k, |xs|);
    forall j | 0 <= j < |xs| && key(xs[j]) != k
      ensures Rank(xs, key, k, j) < |r| && r[Rank(xs, key, k, j)] == xs[j]
    {
      if j > 0 {
        RankTail(xs, key, k, j);
        assert xs[1..][j - 1] == xs[j];
      }
    }
  }

  /** `r` holds exactly the entries of `xs` whose key is not `k`, and is
      shorter exactly when some entry had that key. */
  ghost predicate KeptEntries<T, K>(xs: seq<T>, key: T -> K, k: K, r: seq<T>) {
    |r| <= |xs|
    && (forall j :: 0 <= j < |r| ==> r[j] in xs && key(r[j]) != k)
    && (forall j :: 0 <= j < |xs| && key(xs[j]) != k ==> xs[j] in r)
    && (|r| == |xs| <==> !HasKey(xs, key, k))
  }

  lemma {:induction false} KeptCons<T, K>(xs: seq<T>, key: T -> K, k: K, rest: seq<T>)
    requires xs != [] && KeptEntries(xs[1..], key, k, rest)
    ensures KeptEntries(xs, key, k, if key(xs[0]) == k then rest else [xs[0]] + rest)
  {
    assert HasKey(xs, key, k) <==> key(xs[0]) == k || HasKey(xs[1..], key, k) by {
      if HasKey(xs, key, k) && key(xs[0]) != k {
        var j :| 0 <= j < |xs| && key(xs[j]) == k;
        assert key(xs[1..][j - 1]) == k;
      }
      if HasKey(xs[1..], key, k) {
        var j :| 0 <= j < |xs[1..]| && key(xs[1..][j]) == k;
        assert key(xs[j + 1]) == k;
      }
    }
  }

  /** Every entry whose key is not `k`, in order and with repeats
      (`removeIf`). */
  function Without<T, K(==)>(xs: seq<T>, key: T -> K, k: K): (r: seq<T>)
    ensures RankedSelection(xs, key, k, r)
    ensures |r| <= |xs|
    ensures forall j :: 0 <= j < |r| ==> r[j] in xs && key(r[j]) != k
    ensures forall j :: 0 <= j < |xs| && key(xs[j]) != k ==> xs[j] in r
    ensures |r| == |xs| <==> !HasKey(xs, key, k)
  {
    if xs == [] then []
    else
      var rest := Without(xs[1..], key, k);
      RankedCons(xs, key, k, rest);
      KeptCons(xs, key, k, rest);
      if key(xs[0]) == k then rest else [xs[0]] + rest
  }

  /** No two entries share a key. */
  predicate DistinctKeys<T, K(==)>(xs: seq<T>, key: T -> K) {
    forall i, j :: 0 <= i < j < |xs| ==> key(xs[i]) != key(xs[j])
  }

  /** The keys present. */
  function Keys<T, K(==)>(xs: seq<T>, key: T -> K): set<K> {
    set j | 0 <= j < |xs| :: key(xs[j])
  }

  /** `LinkedHashMap.put` of each of `ys` in turn, starting from `acc`, and then
      its values in order. */
  function PutAll<T, K(==)>(acc: seq<T>, ys: seq<T>, key: T -> K): seq<T>
    decreases |ys|
  {
    if ys == [] then acc
    else Upserted(PutAll(acc, ys[..|ys| - 1], key), key, ys[|ys| - 1])
  }

  /** Putting one more entry is one more insert-or-update. */
  lemma {:induction false} PutAllSnoc<T, K>(acc: seq<T>, ys: seq<T>, key: T -> K, i: nat)
    requires i < |ys|
    ensures PutAll(acc, ys[..i + 1], key) == Upserted(PutAll(acc, ys[..i], key), key, ys[i])
  {
    assert ys[..i + 1][..i] == ys[..i];
  }

  /** After an insert-or-update the entry is stored. */
  lemma {:induction false} UpsertedContains<T, K>(xs: seq<T>, key: T -> K, x: T)
    ensures x in Upserted(xs, key, x)
  {
    var r := Upserted(xs, key, x);
    if HasKey(xs, key, key(x)) {
      var i :| 0 <= i < |xs| && key(xs[i]) == key(x) && r[i] == x;
    } else {
      assert r[|xs|] == x;
    }
  }

  /** An insert-or-update keeps keys distinct. */
  lemma {:induction false} UpsertedDistinct<T, K>(xs: seq<T>, key: T -> K, x: T)
    requires DistinctKeys(xs, key)
    ensures DistinctKeys(Upserted(xs, key, x), key)
  {
    var r := Upserted(xs, key, x);
    if HasKey(xs, key, key(x)) {
      var i :| 0 <= i < |xs| && key(xs[i]) == key(x) && r[i] == x
               && (forall j :: 0 <= j < |xs| && j != i ==> r[j] == xs[j]);
      assert forall j :: 0 <= j < |xs| ==> key(r[j]) == key(xs[j]);
    }
  }

  /** An insert-or-update keeps every position's key, adds exactly the key of
      `x`, stores `x` and leaves the entries with other keys alone. */
  lemma {:induction false} UpsertedKeys<T, K>(xs: seq<T>, key: T -> K, x: T)
    ensures var r := Upserted(xs, key, x);
            |xs| <= |r|
            && (forall j :: 0 <= j < |xs| ==> key(r[j]) == key(xs[j]))
            && Keys(r, key) == Keys(xs, key) + {key(x)}
            && x in r
            && (forall j :: 0 <= j < |xs| && key(xs[j]) != key(x) ==> r[j] == xs[j])
  {
    var r := Upserted(xs, key, x);
    if HasKey(xs, key, key(x)) {
      var i :| 0 <= i < |xs| && key(xs[i]) == key(x) && r[i] == x
               && (forall j :: 0 <= j < |xs| && j != i ==> r[j] == xs[j]);
      assert forall j :: 0 <= j < |xs| ==> key(r[j]) == key(xs[j]);
      assert Keys(r, key) == Keys(xs, key);
    } else {
      assert r[|xs|] == x;
      assert Keys(r, key) == Keys(xs, key) + {key(x)} by {
        forall k | k in Keys(r, key) ensures k in Keys(xs, key) + {key(x)} {
          var j :| 0 <= j < |r| && key(r[j]) == k;
          if j < |xs| { assert key(xs[j]) == k; }
        }
        forall k | k in Keys(xs, key) ensures k in Keys(r, key) {
          var j :| 0 <= j < |xs| && key(xs[j]) == k;
          assert key(r[j]) == k;
        }
      }
    }
  }

  /** Putting every entry of `ys` into `acc` stores exactly the keys of both. */
  lemma {:induction false} PutAllKeys<T, K>(acc: seq<T>, ys: seq<T>, key: T -> K)
    ensures |acc| <= |PutAll(acc, ys, key)|
    ensures Keys(PutAll(acc, ys, key), key) == Keys(acc, key) + Keys(ys, key)
    decreases |ys|
  {
    if ys != [] {
      var init := ys[..|ys| - 1];
      var y := ys[|ys| - 1];
      PutAllKeys(acc, init, key);
      UpsertedKeys(PutAll(acc, init, key), key, y);
      KeysSnoc(init, y, key);
      assert init + [y] == ys;
    }
  }

  /** Positions already taken keep their key (first-insertion order), and a
      stored entry whose key is never put again stays as it was. */
  lemma {:induction false} PutAllKeepsPositions<T, K>(acc: seq<T>, ys: seq<T>, key: T -> K)
    ensures var r := PutAll(acc, ys, key);
            |acc| <= |r|
            && (forall j :: 0 <= j < |acc| ==> key(r[j]) == key(acc[j]))
            && (forall j :: 0 <= j < |acc| && key(acc[j]) !in Keys(ys, key) ==> r[j] == acc[j])
    decreases |ys|
  {
    if ys != [] {
      var init := ys[..|ys| - 1];
      var y := ys[|ys| - 1];
      PutAllKeepsPositions(acc, init, key);
      UpsertedPositions(PutAll(acc, init, key), key, y);
      KeysSnoc(init, y, key);
      assert init + [y] == ys;
    }
  }

  /** An insert-or-update keeps every position's key and leaves the entries
      with other keys alone. */
  lemma {:induction false} UpsertedPositions<T, K>(xs: seq<T>, key: T -> K, x: T)
    ensures var r := Upserted(xs, key, x);
            |xs| <= |r|
            && (forall j :: 0 <= j < |xs| ==> key(r[j]) == key(xs[j]))
            && (forall j :: 0 <= j < |xs| && key(xs[j]) != key(x) ==> r[j] == xs[j])
  {
    if HasKey(xs, key, key(x)) {
      var r := Upserted(xs, key, x);
      var i :| 0 <= i < |xs| && key(xs[i]) == key(x) && r[i] == x
               && (forall j :: 0 <= j < |xs| && j != i ==> r[j] == xs[j]);
    }
  }

  /** Putting entries into a list with distinct keys keeps them distinct. */
  lemma {:induction false} PutAllDistinct<T, K>(acc: seq<T>, ys: seq<T>, key: T -> K)
    requires DistinctKeys(acc, key)
    ensures DistinctKeys(PutAll(acc, ys, key), key)
    decreases |ys|
  {
    if ys != [] {
      var init := ys[..|ys| - 1];
      PutAllDistinct(acc, init, key);
      UpsertedDistinct(PutAll(acc, init, key), key, ys[|ys| - 1]);
    }
  }

  lemma {:induction false} KeysSnoc<T, K>(xs: seq<T>, y: T, key: T -> K)
    ensures Keys(xs + [y], key) == Keys(xs, key) + {key(y)}
  {
    var ys := xs + [y];
    assert ys[|xs|] == y;
    forall k | k in Keys(ys, key) ensures k in Keys(xs, key) + {key(y)} {
      var j :| 0 <= j < |ys| && key(ys[j]) == k;
      if j < |xs| { assert key(xs[j]) == k; }
    }
    forall k | k in Keys(xs, key) ensures k in Keys(ys, key) {
      var j :| 0 <= j < |xs| && key(xs[j]) == k;
      assert key(ys[j]) == k;
    }
  }

  /** The last entry put with a given key is the one that ends up stored: an
      incoming entry overrides both stored ones and earlier incoming ones. */
  lemma {:induction false} PutAllLastWins<T, K>(acc: seq<T>, ys: seq<T>, key: T -> K, i: int)
    requires 0 <= i < |ys|
    requires forall j :: i < j < |ys| ==> key(ys[j]) != key(ys[i])
    ensures ys[i] in PutAll(acc, ys, key)
    decreases |ys|
  {
    var init := ys[..|ys| - 1];
    var y := ys[|ys| - 1];
    UpsertedKeys(PutAll(acc, init, key), key, y);
    if i < |ys| - 1 {
      PutAllLastWins(acc, init, key, i);
      var r := PutAll(acc, init, key);
      var j :| 0 <= j < |r| && r[j] == ys[i];
      assert key(r[j]) != key(y);
      assert PutAll(acc, ys, key)[j] == r[j];
    }
  }
}

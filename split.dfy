/**
 * The leakage-free train/validation split. The captions are grouped by the
 * path of their image's feature vector, the distinct keys are shuffled and cut
 * at four fifths, and each side is flattened back into two parallel lists of
 * keys and captions. Every caption of one image lands on the same side.
 *
 * The shuffle is random in the program; here it is any permutation of the
 * keys, passed in by the caller.
 */
module TrainValSplit {

  /** No element occurs twice. */
  predicate Distinct<T(==)>(s: seq<T>) {
    forall i, j :: 0 <= i < j < |s| ==> s[i] != s[j]
  }

  /** `int(n * 0.8)` for a list length `n`, as integer arithmetic: the largest
      `cut` with `5 * cut <= 4 * n`. */
  function SliceIndex(n: nat): (cut: nat)
    ensures cut <= n
    ensures 5 * cut <= 4 * n < 5 * cut + 5
  {
    n * 4 / 5
  }

  // ---------------------------------------------------------------------
  // Reference definitions over the rows of the caption table

  /** The captions of key `k`, in row order. */
  function CaptionsOf<K(==), C>(rows: seq<(K, C)>, k: K): seq<C> {
    if rows == [] then []
    else
      var last := rows[|rows| - 1];
      CaptionsOf(rows[..|rows| - 1], k) + (if last.0 == k then [last.1] else [])
  }

  /** The distinct keys in the order they first appear: the key order of a
      Python dict filled row by row. */
  function KeysInOrder<K(==), C>(rows: seq<(K, C)>): seq<K> {
    if rows == [] then []
    else
      var keys := KeysInOrder(rows[..|rows| - 1]);
      var k := rows[|rows| - 1].0;
      if k in keys then keys else keys + [k]
  }

  /** The rows whose key is one of `ks`, in row order. */
  function RowsWithKeyIn<K(==), C>(rows: seq<(K, C)>, ks: seq<K>): seq<(K, C)> {
    if rows == [] then []
    else
      var last := rows[|rows| - 1];
      RowsWithKeyIn(rows[..|rows| - 1], ks) + (if last.0 in ks then [last] else [])
  }

  /** Each caption of `cs` paired with the key `k`. */
  function Pairs<K, C>(k: K, cs: seq<C>): seq<(K, C)> {
    seq(|cs|, i requires 0 <= i < |cs| => (k, cs[i]))
  }

  /** For each key of `ks` in turn, its captions paired with it. */
  function KeyedCaptions<K(==), C>(rows: seq<(K, C)>, ks: seq<K>): seq<(K, C)> {
    if ks == [] then []
    else
      var k := ks[|ks| - 1];
      KeyedCaptions(rows, ks[..|ks| - 1]) + Pairs(k, CaptionsOf(rows, k))
  }

  // ---------------------------------------------------------------------
  // The two lists and the multimap as the program builds them

  /** Two parallel lists read as one list of pairs. */
  function Zip<K, C>(ks: seq<K>, cs: seq<C>): seq<(K, C)>
    requires |ks| == |cs|
  {
    seq(|ks|, i requires 0 <= i < |ks| => (ks[i], cs[i]))
  }

  /** `[x] * n`. */
  function Repeat<T>(x: T, n: nat): seq<T> {
    seq(n, _ => x)
  }

  /** Reading a `defaultdict(list)`: a missing key reads as the empty list. */
  function Entry<K, C>(groups: map<K, seq<C>>, k: K): seq<C> {
    if k in groups then groups[k] else []
  }

  /** For each key of `ks` in turn, its entry paired with it. */
  function Expand<K, C>(groups: map<K, seq<C>>, ks: seq<K>): seq<(K, C)> {
    if ks == [] then []
    else
      var k := ks[|ks| - 1];
      Expand(groups, ks[..|ks| - 1]) + Pairs(k, Entry(groups, k))
  }

  /** The grouping loop: every row appends its caption to the list of its key.
      The map is the `defaultdict(list)`; `keys` is its key order. */
  method GroupByKey<K(==), C>(rows: seq<(K, C)>) returns (groups: map<K, seq<C>>, keys: seq<K>)
    ensures keys == KeysInOrder(rows)
    ensures forall k :: k in groups <==> k in keys
    ensures forall k :: Entry(groups, k) == CaptionsOf(rows, k)
  {
    groups, keys := map[], [];
    var i := 0;
    while i < |rows|
      invariant 0 <= i <= |rows|
      invariant keys == KeysInOrder(rows[..i])
      invariant forall k :: k in groups <==> k in keys
      invariant forall k :: Entry(groups, k) == CaptionsOf(rows[..i], k)
    {
      var (k, c) := rows[i];
      var entry := Entry(groups, k);
      if k !in groups {
        keys := keys + [k];
      }
      groups := groups[k := entry + [c]];
      assert rows[..i + 1][..i] == rows[..i] && rows[..i + 1][i] == rows[i];
      i := i + 1;
    }
    assert rows[..i] == rows;
  }

  /** The flattening loop: for each key, its key repeated once per caption is
      appended to one list and its captions to the other. */
  method Flatten<K(==), C>(groups: map<K, seq<C>>, keys: seq<K>) returns (fvs: seq<K>, caps: seq<C>)
    ensures |fvs| == |caps|
    ensures Zip(fvs, caps) == Expand(groups, keys)
  {
    fvs, caps := [], [];
    for j := 0 to |keys|
      invariant |fvs| == |caps|
      invariant Zip(fvs, caps) == Expand(groups, keys[..j])
    {
      var k := keys[j];
      var entry := Entry(groups, k);
      var n := |entry|;
      ZipAppend(fvs, caps, Repeat(k, n), entry);
      ZipRepeat(k, entry);
      fvs := fvs + Repeat(k, n);
      caps := caps + entry;
      assert keys[..j + 1][..j] == keys[..j];
    }
    assert keys[..|keys|] == keys;
  }

  /** The whole split. `shuffled` is the key list after `random.shuffle`. */
  method TrainValidationSplit<K(==), C>(rows: seq<(K, C)>, shuffled: seq<K>)
    returns (trainFvs: seq<K>, trainCaps: seq<C>, valFvs: seq<K>, valCaps: seq<C>)
    requires multiset(shuffled) == multiset(KeysInOrder(rows))
    ensures |trainFvs| == |trainCaps| && |valFvs| == |valCaps|
    ensures var cut := SliceIndex(|shuffled|);
      && Zip(trainFvs, trainCaps) == KeyedCaptions(rows, shuffled[..cut])
      && Zip(valFvs, valCaps) == KeyedCaptions(rows, shuffled[cut..])
    ensures multiset(Zip(trainFvs, trainCaps)) + multiset(Zip(valFvs, valCaps)) == multiset(rows)
    ensures |trainFvs| + |valFvs| == |rows|
    ensures forall i, j :: 0 <= i < |trainFvs| && 0 <= j < |valFvs| ==> trainFvs[i] != valFvs[j]
  {
    var groups, keys := GroupByKey(rows);
    var cut := SliceIndex(|shuffled|);
    var trainKeys, valKeys := shuffled[..cut], shuffled[cut..];
    ExpandOfGroups(groups, rows, trainKeys);
    ExpandOfGroups(groups, rows, valKeys);
    trainFvs, trainCaps := Flatten(groups, trainKeys);
    valFvs, valCaps := Flatten(groups, valKeys);
    SplitCovers(rows, shuffled, cut);
    SidesDisjoint(rows, shuffled, cut);
    ZipKeys(trainFvs, trainCaps);
    ZipKeys(valFvs, valCaps);
  }

  // ---------------------------------------------------------------------
  // Helpers about the list operations

  lemma ZipAppend<K, C>(a: seq<K>, b: seq<C>, c: seq<K>, d: seq<C>)
    requires |a| == |b| && |c| == |d|
    ensures Zip(a + c, b + d) == Zip(a, b) + Zip(c, d)
  {
  }

  lemma ZipKeys<K, C>(ks: seq<K>, cs: seq<C>)
    requires |ks| == |cs|
    ensures forall i :: 0 <= i < |ks| ==> Zip(ks, cs)[i].0 == ks[i]
  {
  }

  lemma ZipRepeat<K, C>(k: K, cs: seq<C>)
    ensures Zip(Repeat(k, |cs|), cs) == Pairs(k, cs)
  {
  }

  lemma PairsAppend<K, C>(k: K, a: seq<C>, b: seq<C>)
    ensures Pairs(k, a + b) == Pairs(k, a) + Pairs(k, b)
  {
  }

  // ---------------------------------------------------------------------
  // Properties of the grouping

  /** The multimap built by the loop and the reference definitions agree on
      every key list. */
  lemma {:induction false} ExpandOfGroups<K, C>(groups: map<K, seq<C>>, rows: seq<(K, C)>, ks: seq<K>)
    requires forall k :: Entry(groups, k) == CaptionsOf(rows, k)
    ensures Expand(groups, ks) == KeyedCaptions(rows, ks)
  {
    if ks != [] {
      ExpandOfGroups(groups, rows, ks[..|ks| - 1]);
    }
  }

  /** The captions of key `k` paired with `k` are exactly the rows with key
      `k`, in row order. */
  lemma {:induction false} PairsOfCaptions<K, C>(rows: seq<(K, C)>, k: K)
    ensures Pairs(k, CaptionsOf(rows, k)) == RowsWithKeyIn(rows, [k])
  {
    if rows != [] {
      var init, last := rows[..|rows| - 1], rows[|rows| - 1];
      PairsOfCaptions(init, k);
      PairsAppend(k, CaptionsOf(init, k), if last.0 == k then [last.1] else []);
    }
  }

  /** The keys in order hold no key twice, hold the key of every row, and
      hold exactly the keys that have a caption. */
  lemma {:induction false} KeysInOrderSpec<K, C>(rows: seq<(K, C)>)
    ensures Distinct(KeysInOrder(rows))
    ensures forall i :: 0 <= i < |rows| ==> rows[i].0 in KeysInOrder(rows)
    ensures forall k :: k in KeysInOrder(rows) <==> CaptionsOf(rows, k) != []
  {
    if rows != [] {
      var init := rows[..|rows| - 1];
      KeysInOrderSpec(init);
      forall i | 0 <= i < |rows| ensures rows[i].0 in KeysInOrder(rows) {
        if i < |rows| - 1 {
          assert rows[i] == init[i];
        }
      }
    }
  }

  /** Filtering by two key lists with no key in common gives, together, the
      rows of both. */
  lemma {:induction false} FilterUnion<K, C>(rows: seq<(K, C)>, a: seq<K>, b: seq<K>)
    requires forall x :: x in a ==> x !in b
    ensures multiset(RowsWithKeyIn(rows, a + b))
         == multiset(RowsWithKeyIn(rows, a)) + multiset(RowsWithKeyIn(rows, b))
  {
    if rows != [] {
      FilterUnion(rows[..|rows| - 1], a, b);
    }
  }

  /** Filtering by a key list that holds the key of every row keeps every row. */
  lemma {:induction false} FilterAll<K, C>(rows: seq<(K, C)>, ks: seq<K>)
    requires forall i :: 0 <= i < |rows| ==> rows[i].0 in ks
    ensures RowsWithKeyIn(rows, ks) == rows
  {
    if rows != [] {
      var init := rows[..|rows| - 1];
      assert forall i :: 0 <= i < |init| ==> init[i] == rows[i];
      FilterAll(init, ks);
      assert init + [rows[|rows| - 1]] == rows;
    }
  }

  /** Filtering by no key keeps no row. */
  lemma {:induction false} FilterNone<K, C>(rows: seq<(K, C)>)
    ensures RowsWithKeyIn(rows, []) == []
  {
    if rows != [] {
      FilterNone(rows[..|rows| - 1]);
    }
  }

  /** Dropping the last key of a list without repeats leaves a list without
      repeats that does not hold that key. */
  lemma DistinctInit<T>(ks: seq<T>)
    requires Distinct(ks) && ks != []
    ensures Distinct(ks[..|ks| - 1])
    ensures ks[|ks| - 1] !in ks[..|ks| - 1]
  {
  }

  /** Multisets add up over a concatenation. */
  lemma MultisetSum<T>(a: seq<T>, b: seq<T>, ra: seq<T>, rb: seq<T>, r: seq<T>)
    requires multiset(a) == multiset(ra) && multiset(b) == multiset(rb)
    requires multiset(r) == multiset(ra) + multiset(rb)
    ensures multiset(a) + multiset(b) == multiset(r)
    ensures multiset(a + b) == multiset(r)
  {
  }

  /** For a key list without repeats, the flattened captions are, as a
      multiset, the rows with those keys. */
  lemma {:induction false} KeyedCaptionsAreRows<K, C>(rows: seq<(K, C)>, ks: seq<K>)
    requires Distinct(ks)
    ensures multiset(KeyedCaptions(rows, ks)) == multiset(RowsWithKeyIn(rows, ks))
  {
    if ks == [] {
      FilterNone(rows);
    } else {
      var init, k := ks[..|ks| - 1], ks[|ks| - 1];
      DistinctInit(ks);
      KeyedCaptionsAreRows(rows, init);
      PairsOfCaptions(rows, k);
      FilterUnion(rows, init, [k]);
      assert init + [k] == ks;
      MultisetSum(KeyedCaptions(rows, init), Pairs(k, CaptionsOf(rows, k)),
        RowsWithKeyIn(rows, init), RowsWithKeyIn(rows, [k]), RowsWithKeyIn(rows, ks));
    }
  }

  /** Every pair of the flattened captions carries one of the listed keys. */
  lemma {:induction false} KeyedCaptionsKeys<K, C>(rows: seq<(K, C)>, ks: seq<K>)
    ensures forall i :: 0 <= i < |KeyedCaptions(rows, ks)| ==> KeyedCaptions(rows, ks)[i].0 in ks
  {
    if ks != [] {
      var init := ks[..|ks| - 1];
      KeyedCaptionsKeys(rows, init);
      var a: seq<(K, C)> := KeyedCaptions(rows, init);
      var b: seq<(K, C)> := Pairs(ks[|ks| - 1], CaptionsOf(rows, ks[|ks| - 1]));
      forall i | 0 <= i < |a + b| ensures (a + b)[i].0 in ks {
        if i < |a| {
          assert (a + b)[i] == a[i] && a[i].0 in init;
        }
      }
    }
  }

  /** Grouping loses no caption: flattening the groups of all keys gives back
      the rows, as a multiset, so the entry lengths add up to the row count. */
  lemma GroupingKeepsEveryCaption<K, C>(rows: seq<(K, C)>)
    ensures multiset(KeyedCaptions(rows, KeysInOrder(rows))) == multiset(rows)
    ensures |KeyedCaptions(rows, KeysInOrder(rows))| == |rows|
  {
    var keys := KeysInOrder(rows);
    KeysInOrderSpec(rows);
    KeyedCaptionsAreRows(rows, keys);
    FilterAll(rows, keys);
    assert |multiset(KeyedCaptions(rows, keys))| == |multiset(rows)|;
  }

  // ---------------------------------------------------------------------
  // Properties of the cut

  /** In a list without repeats an element occurs at most once. */
  lemma {:induction false} DistinctAtMostOnce<T>(s: seq<T>, x: T)
    requires Distinct(s)
    ensures multiset(s)[x] <= 1
  {
    if s != [] {
      var init := s[..|s| - 1];
      assert s == init + [s[|s| - 1]];
      DistinctAtMostOnce(init, x);
      if s[|s| - 1] == x {
        assert x !in init;
      }
    }
  }

  /** An element found at two positions occurs at least twice. */
  lemma TwiceAtLeastTwice<T>(s: seq<T>, i: nat, j: nat)
    requires i < j < |s| && s[i] == s[j]
    ensures multiset(s)[s[i]] >= 2
  {
    assert s == s[..j] + [s[j]] + s[j + 1..];
    assert s[i] in s[..j];
  }

  /** A permutation of a list without repeats has no repeats. */
  lemma DistinctPermutation<T>(a: seq<T>, b: seq<T>)
    requires Distinct(a) && multiset(a) == multiset(b)
    ensures Distinct(b)
  {
    forall i, j | 0 <= i < j < |b| ensures b[i] != b[j] {
      DistinctAtMostOnce(a, b[i]);
      if b[i] == b[j] {
        TwiceAtLeastTwice(b, i, j);
      }
    }
  }

  /** The two parts of a list without repeats are without repeats and share
      no element. */
  lemma DistinctConcat<T>(a: seq<T>, b: seq<T>)
    requires Distinct(a + b)
    ensures Distinct(a) && Distinct(b)
    ensures forall x :: x in a ==> x !in b
  {
    assert forall i :: 0 <= i < |a| ==> (a + b)[i] == a[i];
    assert forall j :: 0 <= j < |b| ==> (a + b)[|a| + j] == b[j];
  }

  /** A permutation of the keys has no repeats and holds the key of every
      row. */
  lemma ShuffledKeys<K, C>(rows: seq<(K, C)>, shuffled: seq<K>)
    requires multiset(shuffled) == multiset(KeysInOrder(rows))
    ensures Distinct(shuffled)
    ensures RowsWithKeyIn(rows, shuffled) == rows
  {
    KeysInOrderSpec(rows);
    DistinctPermutation(KeysInOrder(rows), shuffled);
    forall i | 0 <= i < |rows| ensures rows[i].0 in shuffled {
      assert rows[i].0 in multiset(KeysInOrder(rows));
    }
    FilterAll(rows, shuffled);
  }

  /** Cutting the shuffled keys loses no row: the captions of the two sides
      together are all the rows. */
  lemma SplitCovers<K, C>(rows: seq<(K, C)>, shuffled: seq<K>, cut: nat)
    requires multiset(shuffled) == multiset(KeysInOrder(rows)) && cut <= |shuffled|
    ensures multiset(KeyedCaptions(rows, shuffled[..cut])) + multiset(KeyedCaptions(rows, shuffled[cut..]))
         == multiset(rows)
    ensures |KeyedCaptions(rows, shuffled[..cut])| + |KeyedCaptions(rows, shuffled[cut..])| == |rows|
  {
    var a, b := shuffled[..cut], shuffled[cut..];
    assert shuffled == a + b;
    PartsCover(rows, a, b);
    assert |multiset(KeyedCaptions(rows, a)) + multiset(KeyedCaptions(rows, b))| == |multiset(rows)|;
  }

  lemma PartsCover<K, C>(rows: seq<(K, C)>, a: seq<K>, b: seq<K>)
    requires multiset(a + b) == multiset(KeysInOrder(rows))
    ensures multiset(KeyedCaptions(rows, a)) + multiset(KeyedCaptions(rows, b)) == multiset(rows)
  {
    ShuffledKeys(rows, a + b);
    DistinctConcat(a, b);
    KeyedCaptionsAreRows(rows, a);
    KeyedCaptionsAreRows(rows, b);
    FilterUnion(rows, a, b);
    MultisetSum(KeyedCaptions(rows, a), KeyedCaptions(rows, b),
      RowsWithKeyIn(rows, a), RowsWithKeyIn(rows, b), rows);
  }

  /** No key is on both sides of the cut. */
  lemma SidesDisjoint<K, C>(rows: seq<(K, C)>, shuffled: seq<K>, cut: nat)
    requires multiset(shuffled) == multiset(KeysInOrder(rows)) && cut <= |shuffled|
    ensures var train, val := KeyedCaptions(rows, shuffled[..cut]), KeyedCaptions(rows, shuffled[cut..]);
      forall i, j :: 0 <= i < |train| && 0 <= j < |val| ==> train[i].0 != val[j].0
  {
    assert shuffled == shuffled[..cut] + shuffled[cut..];
    PartsDisjoint(rows, shuffled[..cut], shuffled[cut..]);
  }

  lemma PartsDisjoint<K, C>(rows: seq<(K, C)>, a: seq<K>, b: seq<K>)
    requires multiset(a + b) == multiset(KeysInOrder(rows))
    ensures forall i, j ::
      0 <= i < |KeyedCaptions(rows, a)| && 0 <= j < |KeyedCaptions(rows, b)| ==>
      KeyedCaptions(rows, a)[i].0 != KeyedCaptions(rows, b)[j].0
  {
    ShuffledKeys(rows, a + b);
    DistinctConcat(a, b);
    KeyedCaptionsKeys(rows, a);
    KeyedCaptionsKeys(rows, b);
  }
}

/**
  The linear-hashing table behind both node lookups of lib/fuse.c: buckets
  are split one at a time as the table fills and merged again as it empties.
 */
module NodeTable {
  import opened Wrappers

  const MIN_SIZE: nat := 8192

  datatype Entry<K> = Entry(key: K, node: nat)

  // ----- which bucket -----

  /** id_hash and name_hash, after the key has been mixed into h: buckets below split use the full size. */
  function Index(h: nat, size: nat, split: nat): nat
    requires size >= 2
  {
    var hash := h % size;
    var oldHash := hash % (size / 2);
    if oldHash >= split then oldHash else hash
  }

  lemma MulAtLeast(a: nat, m: nat)
    requires a >= 1
    ensures a * m >= m
  {
    assert a * m == (a - 1) * m + m;
  }

  lemma DivisionIsUnique(m: nat, q: nat, r: nat, q': nat, r': nat)
    requires r < m && r' < m && q * m + r == q' * m + r'
    ensures q == q' && r == r'
  {
    if q < q' {
      MulAtLeast(q' - q, m);
    } else if q' < q {
      MulAtLeast(q - q', m);
    }
  }

  lemma DivMod(h: nat, m: nat)
    requires m > 0
    ensures h == (h / m) * m + h % m && h / m >= 0
  {
  }

  lemma ModIs(h: nat, m: nat, q: nat, r: nat)
    requires r < m && h == q * m + r
    ensures h % m == r
  {
    DivMod(h, m);
    DivisionIsUnique(m, q, r, h / m, h % m);
  }

  lemma HalfOf(h: nat, m: nat, n: nat, q: nat, r: nat)
    requires m > 0 && n == 2 * m && r < n && h == q * n + r
    ensures h % m == r % m && r % m == if r < m then r else r - m
  {
    Twice(q, m);
    if r < m {
      ModIs(h, m, 2 * q, r);
      ModIs(r, m, 0, r);
    } else {
      ModIs(h, m, 2 * q + 1, r - m);
      ModIs(r, m, 1, r - m);
    }
  }

  /** Reducing by n = 2m first loses nothing modulo m. */
  lemma ModHalf(h: nat, m: nat, n: nat)
    requires m > 0 && n == 2 * m
    ensures h % n % m == h % m
    ensures h % n == h % m || h % n == h % m + m
  {
    DivMod(h, n);
    HalfOf(h, m, n, h / n, h % n);
  }

  lemma Twice(q: nat, m: nat)
    ensures q * (2 * m) == (2 * q) * m && (2 * q + 1) * m == q * (2 * m) + m
  {
  }

  /** Index in a table of 2m buckets, in terms of h % m. */
  lemma IndexIs(h: nat, m: nat, split: nat)
    requires m > 0 && split <= m
    ensures Index(h, 2 * m, split) == (if h % m >= split then h % m else h % (2 * m)) < m + split
  {
    ModHalf(h, m, 2 * m);
  }

  /** Splitting bucket `split` moves entries of that bucket only, and only up by m. */
  lemma IndexAfterSplit(h: nat, m: nat, split: nat)
    requires split < m
    ensures Index(h, 2 * m, split) != split ==> Index(h, 2 * m, split + 1) == Index(h, 2 * m, split)
    ensures Index(h, 2 * m, split) == split ==>
              Index(h, 2 * m, split + 1) == split || Index(h, 2 * m, split + 1) == split + m
    ensures Index(h, 2 * m, split) != split + m
    ensures Index(h, 2 * m, split + 1) == split || Index(h, 2 * m, split + 1) == split + m ==>
              Index(h, 2 * m, split) == split
  {
    IndexIs(h, m, split);
    IndexIs(h, m, split + 1);
    ModHalf(h, m, 2 * m);
  }

  /** A table with all its m lower buckets split is the same as one twice the size with none. */
  lemma IndexAfterResize(h: nat, m: nat)
    requires m > 0
    ensures Index(h, 2 * m, m) == Index(h, 4 * m, 0)
  {
    IndexIs(h, m, m);
    IndexIs(h, 2 * m, 0);
  }

  /** The sizes a table can have: MIN_SIZE, doubled any number of times. */
  ghost predicate TableSize(n: nat)
  {
    n == MIN_SIZE || (n > MIN_SIZE && n % 2 == 0 && TableSize(n / 2))
  }

  lemma {:induction false} TableSizeBound(n: nat)
    requires TableSize(n)
    ensures n >= MIN_SIZE && n % 4 == 0
    decreases n
  {
    if n != MIN_SIZE {
      TableSizeBound(n / 2);
    }
  }

  // ----- what a table holds -----

  predicate HasKey<K(==)>(chain: seq<Entry<K>>, k: K)
  {
    exists i :: 0 <= i < |chain| && chain[i].key == k
  }

  predicate DistinctKeys<K(==)>(chain: seq<Entry<K>>)
  {
    forall i, j :: 0 <= i < j < |chain| ==> chain[i].key != chain[j].key
  }

  /** The table: buckets of entries, the mixed value of a key, the number of buckets, and the split point. */
  datatype Table<!K> = Table(hash: K -> nat, buckets: seq<seq<Entry<K>>>, size: nat, split: nat)

  predicate Shape<K>(t: Table<K>)
  {
    t.size >= 2 && t.size % 2 == 0 && |t.buckets| == t.size && t.split <= t.size / 2
  }

  function Bucket<K>(t: Table<K>, k: K): nat
    requires t.size >= 2
  {
    Index(t.hash(k), t.size, t.split)
  }

  ghost predicate BucketOk<K(!new)>(t: Table<K>, b: nat, contents: map<K, nat>)
    requires Shape(t) && b < t.size
  {
    && DistinctKeys(t.buckets[b])
    && forall e :: e in t.buckets[b] ==> Bucket(t, e.key) == b && e.key in contents && contents[e.key] == e.node
  }

  ghost predicate KeyOk<K(!new)>(t: Table<K>, k: K)
    requires Shape(t)
  {
    Bucket(t, k) < t.size && HasKey(t.buckets[Bucket(t, k)], k)
  }

  /** Every node sits in the bucket its key gives for the current size and split, once, and nothing else does. */
  ghost predicate Holds<K(!new)>(t: Table<K>, contents: map<K, nat>)
  {
    && Shape(t)
    && (forall b {:trigger BucketOk(t, b, contents)} :: 0 <= b < t.size ==> BucketOk(t, b, contents))
    && (forall k {:trigger KeyOk(t, k)} :: k in contents ==> KeyOk(t, k))
  }

  lemma BucketInRange<K(!new)>(t: Table<K>, k: K)
    requires Shape(t)
    ensures Bucket(t, k) < t.size / 2 + t.split <= t.size
  {
    assert 2 * (t.size / 2) == t.size;
    IndexIs(t.hash(k), t.size / 2, t.split);
  }

  /** All buckets from size/2 + split up are empty. */
  lemma UpperBucketsEmpty<K(!new)>(t: Table<K>, contents: map<K, nat>, b: nat)
    requires Holds(t, contents) && t.size / 2 + t.split <= b < t.size
    ensures t.buckets[b] == []
  {
    assert BucketOk(t, b, contents);
    if t.buckets[b] != [] {
      BucketInRange(t, t.buckets[b][0].key);
    }
  }

  // ----- the changes -----

  lemma PutKeeps<K(!new)>(t: Table<K>, contents: map<K, nat>, k: K, n: nat)
    requires Holds(t, contents) && k !in contents
    ensures Bucket(t, k) < t.size
    ensures var b := Bucket(t, k);
      Holds(t.(buckets := t.buckets[b := [Entry(k, n)] + t.buckets[b]]), contents[k := n])
  {
    BucketInRange(t, k);
    var b := Bucket(t, k);
    var chain := [Entry(k, n)] + t.buckets[b];
    var r := t.(buckets := t.buckets[b := chain]);
    var after := contents[k := n];
    forall c: nat | c < r.size ensures BucketOk(r, c, after) {
      assert BucketOk(t, c, contents);
    }
    forall j | j in after ensures KeyOk(r, j) {
      if j == k {
        assert chain[0].key == k;
      } else {
        assert KeyOk(t, j);
        if Bucket(t, j) == b {
          var i :| 0 <= i < |t.buckets[b]| && t.buckets[b][i].key == j;
          assert chain[i + 1].key == j;
        }
      }
    }
  }

  lemma TakeKeeps<K(!new)>(t: Table<K>, contents: map<K, nat>, k: K, i: nat)
    requires Holds(t, contents) && Bucket(t, k) < t.size && i < |t.buckets[Bucket(t, k)]|
      && t.buckets[Bucket(t, k)][i].key == k
    ensures var b := Bucket(t, k);
      Holds(t.(buckets := t.buckets[b := t.buckets[b][..i] + t.buckets[b][i + 1..]]), contents - {k})
  {
    var b := Bucket(t, k);
    var was := t.buckets[b];
    var chain := was[..i] + was[i + 1..];
    var r := t.(buckets := t.buckets[b := chain]);
    assert BucketOk(t, b, contents);
    var after := contents - {k};
    forall c: nat | c < r.size ensures BucketOk(r, c, after) {
      assert BucketOk(t, c, contents);
      if c == b {
        forall e | e in chain ensures e in was && e.key != k {
          var j :| 0 <= j < |chain| && chain[j] == e;
          assert e == was[if j < i then j else j + 1];
        }
      }
    }
    forall j | j in after ensures KeyOk(r, j) {
      assert KeyOk(t, j);
      if Bucket(t, j) == b {
        var x :| 0 <= x < |was| && was[x].key == j;
        assert chain[if x < i then x else x - 1].key == j;
      }
    }
  }

  /**
    One bucket being split. The chain it had is now spread over stay and
    moved; the first i entries of stay are known to stay, those in moved
    belong to the new bucket.
   */
  ghost predicate Splitting<K(!new)>(t: Table<K>, chain: seq<Entry<K>>, stay: seq<Entry<K>>, i: int,
                              moved: seq<Entry<K>>)
    requires t.size >= 2
  {
    && 0 <= i <= |stay|
    && DistinctKeys(moved + stay)
    && (forall e :: e in moved + stay <==> e in chain)
    && (forall e :: e in stay[..i] ==> Bucket(t, e.key) == t.split - 1)
    && (forall e :: e in moved ==> Bucket(t, e.key) == t.split - 1 + t.size / 2)
  }

  lemma SplitStay<K(!new)>(t: Table<K>, chain: seq<Entry<K>>, stay: seq<Entry<K>>, i: nat, moved: seq<Entry<K>>)
    requires t.size >= 2 && Splitting(t, chain, stay, i, moved) && i < |stay| && Bucket(t, stay[i].key) == t.split - 1
    ensures Splitting(t, chain, stay, i + 1, moved)
  {
    assert stay[..i + 1] == stay[..i] + [stay[i]];
  }

  lemma SplitMove<K(!new)>(t: Table<K>, chain: seq<Entry<K>>, stay: seq<Entry<K>>, i: nat, moved: seq<Entry<K>>)
    requires t.size >= 2 && Splitting(t, chain, stay, i, moved) && i < |stay|
    requires Bucket(t, stay[i].key) == t.split - 1 + t.size / 2
    ensures Splitting(t, chain, stay[..i] + stay[i + 1..], i, [stay[i]] + moved)
  {
    var stay', moved' := stay[..i] + stay[i + 1..], [stay[i]] + moved;
    MovedToFront(moved, stay, i);
    var was: seq<Entry<K>>, now: seq<Entry<K>> := moved + stay, moved' + stay';
    forall x, y | 0 <= x < y < |now| ensures now[x].key != now[y].key {
      var x', y' := PlaceBefore(|moved| + i, x), PlaceBefore(|moved| + i, y);
      assert x' != y' && was[x'].key != was[y'].key;
    }
    assert stay'[..i] == stay[..i];
  }

  /** Where the element at x was before the one at k went to the front. */
  function PlaceBefore(k: nat, x: nat): nat
  {
    if x == 0 then k else if x <= k then x - 1 else x
  }

  lemma MovedToFront<T>(moved: seq<T>, stay: seq<T>, i: nat)
    requires i < |stay|
    ensures var was, now := moved + stay, [stay[i]] + moved + (stay[..i] + stay[i + 1..]);
      && |now| == |was| && (forall x :: 0 <= x < |now| ==> now[x] == was[PlaceBefore(|moved| + i, x)])
      && forall e :: e in now <==> e in was
  {
    var was, now := moved + stay, [stay[i]] + moved + (stay[..i] + stay[i + 1..]);
    var m := |moved|;
    assert forall x :: 0 <= x < |now| ==> now[x] == was[PlaceBefore(m + i, x)];
    forall e | e in was ensures e in now {
      var x :| 0 <= x < |was| && was[x] == e;
      assert now[if x == m + i then 0 else if x < m + i then x + 1 else x] == e;
    }
  }

  /** After the walk: the table with one more bucket split holds the same. */
  lemma SplitKeeps<K(!new)>(t: Table<K>, contents: map<K, nat>, stay: seq<Entry<K>>, moved: seq<Entry<K>>)
    requires Holds(t, contents) && t.split < t.size / 2
    requires Splitting(t.(split := t.split + 1), t.buckets[t.split], stay, |stay|, moved)
    ensures Holds(t.(split := t.split + 1, buckets := t.buckets[t.split := stay][t.split + t.size / 2 := moved]),
                  contents)
  {
    var lo, hi := t.split, t.split + t.size / 2;
    var r := t.(split := t.split + 1, buckets := t.buckets[lo := stay][hi := moved]);
    assert stay[..|stay|] == stay;
    assert 2 * (t.size / 2) == t.size;
    forall b: nat | b < r.size ensures BucketOk(r, b, contents) {
      assert BucketOk(t, b, contents) && BucketOk(t, lo, contents);
      if b == lo || b == hi {
        SplitDistinct(stay, moved);
      } else {
        forall e | e in r.buckets[b] ensures Bucket(r, e.key) == b {
          IndexAfterSplit(t.hash(e.key), t.size / 2, t.split);
        }
      }
    }
    forall k | k in contents ensures KeyOk(r, k) {
      assert KeyOk(t, k);
      IndexAfterSplit(t.hash(k), t.size / 2, t.split);
      BucketInRange(r, k);
      if Bucket(t, k) == lo {
        var x :| 0 <= x < |t.buckets[lo]| && t.buckets[lo][x].key == k;
        FoundAfterSplit(r, t.buckets[lo], stay, moved, t.buckets[lo][x]);
      }
    }
  }

  lemma SplitDistinct<K>(stay: seq<Entry<K>>, moved: seq<Entry<K>>)
    requires DistinctKeys(moved + stay)
    ensures DistinctKeys(stay) && DistinctKeys(moved)
  {
    var both := moved + stay;
    forall i, j | 0 <= i < j < |stay| ensures stay[i].key != stay[j].key {
      assert both[|moved| + i] == stay[i] && both[|moved| + j] == stay[j];
    }
    forall i, j | 0 <= i < j < |moved| ensures moved[i].key != moved[j].key {
      assert both[i] == moved[i] && both[j] == moved[j];
    }
  }

  lemma FoundAfterSplit<K(!new)>(r: Table<K>, chain: seq<Entry<K>>, stay: seq<Entry<K>>, moved: seq<Entry<K>>,
                          e: Entry<K>)
    requires Shape(r) && Splitting(r, chain, stay, |stay|, moved) && e in chain
    requires r.split >= 1 && r.buckets[r.split - 1] == stay && r.split - 1 + r.size / 2 < r.size
      && r.buckets[r.split - 1 + r.size / 2] == moved
    ensures KeyOk(r, e.key)
  {
    assert e in moved + stay;
    assert stay[..|stay|] == stay;
    if e in stay {
      var x :| 0 <= x < |stay| && stay[x] == e;
    } else {
      var x :| 0 <= x < |moved| && moved[x] == e;
    }
  }

  /** The other way: the highest split bucket is appended to its lower half. */
  lemma MergeKeeps<K(!new)>(t: Table<K>, contents: map<K, nat>)
    requires Holds(t, contents) && t.split > 0
    ensures var lo, hi := t.split - 1, t.split - 1 + t.size / 2;
      && hi < t.size
      && Holds(t.(split := lo, buckets := t.buckets[lo := t.buckets[lo] + t.buckets[hi]][hi := []]), contents)
  {
    var lo, hi := t.split - 1, t.split - 1 + t.size / 2;
    var low, high := t.buckets[lo], t.buckets[hi];
    var both: seq<Entry<K>> := low + high;
    var r := t.(split := lo, buckets := t.buckets[lo := both][hi := []]);
    assert 2 * (t.size / 2) == t.size;
    assert BucketOk(t, lo, contents) && BucketOk(t, hi, contents);
    forall b: nat | b < r.size ensures BucketOk(r, b, contents) {
      assert BucketOk(t, b, contents);
      forall e | e in r.buckets[b] ensures Bucket(r, e.key) == b && e.key in contents && contents[e.key] == e.node {
        IndexAfterSplit(t.hash(e.key), t.size / 2, lo);
      }
      if b == lo {
        forall i, j | 0 <= i < j < |both| ensures both[i].key != both[j].key {
          if i < |low| && |low| <= j {
            assert low[i] in low && high[j - |low|] in high;
          }
        }
      }
    }
    forall k | k in contents ensures KeyOk(r, k) {
      assert KeyOk(t, k);
      IndexAfterSplit(t.hash(k), t.size / 2, lo);
      BucketInRange(r, k);
      var chain := t.buckets[Bucket(t, k)];
      var x :| 0 <= x < |chain| && chain[x].key == k;
      if Bucket(t, k) == hi {
        assert both[|low| + x].key == k;
      } else if Bucket(t, k) == lo {
        assert both[x].key == k;
      }
    }
  }

  /** node_table_resize: all lower buckets are split, so the table counts as twice the size with none split. */
  lemma ResizeKeeps<K(!new)>(t: Table<K>, contents: map<K, nat>)
    requires Holds(t, contents) && t.split == t.size / 2
    ensures Holds(t.(size := 2 * t.size, split := 0, buckets := t.buckets + seq(t.size, i => [])), contents)
  {
    var r := t.(size := 2 * t.size, split := 0, buckets := t.buckets + seq(t.size, i => []));
    forall b: nat | b < r.size ensures BucketOk(r, b, contents) {
      if b < t.size {
        assert BucketOk(t, b, contents);
        forall e | e in r.buckets[b] ensures Bucket(r, e.key) == b {
          SameBucket(t, r, e.key);
        }
      }
    }
    forall k | k in contents ensures KeyOk(r, k) {
      assert KeyOk(t, k);
      SameBucket(t, r, k);
    }
  }

  lemma SameBucket<K(!new)>(t: Table<K>, r: Table<K>, k: K)
    requires t.size >= 2 && t.size % 2 == 0 && t.split == t.size / 2
    requires r.size == 2 * t.size && r.split == 0 && r.hash == t.hash
    ensures Bucket(r, k) == Bucket(t, k)
  {
    IndexAfterResize(t.hash(k), t.size / 2);
    assert 4 * (t.size / 2) == r.size && 2 * (t.size / 2) == t.size;
  }

  /** node_table_reduce, with no bucket split: half the size, with all lower buckets split. */
  lemma ReduceKeeps<K(!new)>(t: Table<K>, contents: map<K, nat>)
    requires Holds(t, contents) && t.split == 0 && t.size % 4 == 0
    ensures Holds(t.(size := t.size / 2, split := t.size / 4, buckets := t.buckets[..t.size / 2]), contents)
  {
    var m := t.size / 4;
    var r := t.(size := 2 * m, split := m, buckets := t.buckets[..2 * m]);
    assert t.size == 4 * m && t.size / 2 == 2 * m;
    forall b: nat | b < r.size ensures BucketOk(r, b, contents) {
      assert BucketOk(t, b, contents);
      forall e | e in r.buckets[b] ensures Bucket(r, e.key) == b {
        IndexAfterResize(t.hash(e.key), m);
      }
    }
    forall k | k in contents ensures KeyOk(r, k) {
      assert KeyOk(t, k);
      IndexAfterResize(t.hash(k), m);
      BucketInRange(r, k);
    }
  }

  lemma SplitTarget<K(!new)>(t: Table<K>, contents: map<K, nat>, stay: seq<Entry<K>>, i: nat, moved: seq<Entry<K>>)
    requires Holds(t, contents) && t.split < t.size / 2 && i < |stay|
    requires Splitting(t.(split := t.split + 1), t.buckets[t.split], stay, i, moved)
    ensures var b := Bucket(t.(split := t.split + 1), stay[i].key); b == t.split || b == t.split + t.size / 2
  {
    assert BucketOk(t, t.split, contents);
    assert (moved + stay)[|moved| + i] == stay[i];
    assert stay[i] in moved + stay;
    assert 2 * (t.size / 2) == t.size;
    IndexAfterSplit(t.hash(stay[i].key), t.size / 2, t.split);
  }

  // ----- struct node_table -----

  class NodeTable<K(==,!new)> {
    const hash: K -> nat
    var buckets: seq<seq<Entry<K>>>
    var use: nat
    var size: nat
    var split: nat
    ghost var contents: map<K, nat>

    ghost function Now(): Table<K>
      reads this
    {
      Table(hash, buckets, size, split)
    }

    /** pending entries have been unlinked, but are still counted in use. */
    ghost predicate Valid(pending: nat)
      reads this
    {
      Holds(Now(), contents) && TableSize(size) && use == |contents| + pending
    }

    /** Fewer entries than live buckets, of which at least one more can be split. */
    predicate Light()
      reads this`use, this`size, this`split
    {
      use < size / 2 + split < size
    }

    /** node_table_init */
    constructor (hash: K -> nat)
      ensures Valid(0) && Light() && contents == map[] && this.hash == hash
    {
      this.hash := hash;
      buckets := seq(MIN_SIZE, i => []);
      size, split, use := MIN_SIZE, 0, 0;
      contents := map[];
    }

    /** get_node_nocheck, lookup_node: walk the one chain the key can be in. */
    method Lookup(k: K) returns (r: Option<nat>)
      requires Holds(Now(), contents)
      ensures r == if k in contents then Some(contents[k]) else None
    {
      BucketInRange(Now(), k);
      var h := Index(hash(k), size, split);
      assert BucketOk(Now(), h, contents);
      var i := 0;
      while i < |buckets[h]|
        invariant 0 <= i <= |buckets[h]|
        invariant forall j :: 0 <= j < i ==> buckets[h][j].key != k
      {
        if buckets[h][i].key == k {
          assert buckets[h][i] in buckets[h];
          return Some(buckets[h][i].node);
        }
        i := i + 1;
      }
      assert k in contents ==> KeyOk(Now(), k);
      return None;
    }

    /** node_table_resize; memory says whether the array can be grown. */
    method Resize(memory: bool, ghost pending: nat) returns (ok: bool)
      requires Valid(pending) && split == size / 2
      modifies this`buckets, this`size, this`split
      ensures Valid(pending) && ok == memory
      ensures if ok then size == 2 * old(size) && split == 0 else size == old(size) && split == old(split)
    {
      if !memory {
        return false;
      }
      ResizeKeeps(Now(), contents);
      buckets := buckets + seq(size, i => []);
      size := size * 2;
      split := 0;
      return true;
    }

    /** The walk over the bucket that is being split: entries that hash elsewhere go to the front of the new bucket. */
    method SplitBucket(h: nat)
      requires Holds(Now(), contents) && h == split < size / 2
      modifies this`buckets, this`split
      ensures Holds(Now(), contents) && split == h + 1
    {
      ghost var t := Now();
      ghost var hi := h + size / 2;
      assert BucketOk(t, h, contents);
      UpperBucketsEmpty(t, contents, hi);
      split := split + 1;
      ghost var r := t.(split := split);
      var i := 0;
      assert buckets == t.buckets[h := buckets[h]][hi := buckets[hi]];
      while i < |buckets[h]|
        invariant split == h + 1 && |buckets| == size && buckets == t.buckets[h := buckets[h]][hi := buckets[hi]]
        invariant Splitting(r, t.buckets[h], buckets[h], i, buckets[hi]) == true
        decreases |buckets[h]| - i
      {
        var e := buckets[h][i];
        SplitTarget(t, contents, buckets[h], i, buckets[hi]);
        var newHash := Index(hash(e.key), size, split);
        if newHash != h {
          SplitMove(r, t.buckets[h], buckets[h], i, buckets[hi]);
          buckets := buckets[newHash := [e] + buckets[newHash]][h := buckets[h][..i] + buckets[h][i + 1..]];
        } else {
          SplitStay(r, t.buckets[h], buckets[h], i, buckets[hi]);
          i := i + 1;
        }
      }
      SplitKeeps(t, contents, buckets[h], buckets[hi]);
    }

    /** rehash_id, rehash_name */
    method Rehash(memory: bool, ghost pending: nat)
      requires Valid(pending)
      modifies this`buckets, this`size, this`split
      ensures Valid(pending)
      ensures old(split) < old(size) / 2 ==> size / 2 + split == old(size / 2 + split) + 1
      ensures old(split) < old(size) / 2 && memory ==> split < size / 2
      ensures old(split) == old(size) / 2 ==> size == old(size) && split == old(split)
    {
      if split == size / 2 {
        return;
      }
      TableSizeBound(size);
      SplitBucket(split);
      if split == size / 2 {
        var ok := Resize(memory, pending);
      }
    }

    /** hash_id, and the table part of hash_name */
    method Insert(k: K, node: nat, memory: bool)
      requires Valid(0) && k !in contents
      modifies this
      ensures Valid(0) && contents == old(contents)[k := node]
      ensures memory && old(Light()) ==> Light()
    {
      PutKeeps(Now(), contents, k, node);
      var h := Index(hash(k), size, split);
      buckets := buckets[h := [Entry(k, node)] + buckets[h]];
      contents := contents[k := node];
      use := use + 1;
      if use >= size / 2 {
        Rehash(memory, 0);
      }
    }

    /** The chain walk of unhash_id and unhash_name: takes the entry out, but still counts it in use. */
    method Unlink(k: K, node: nat, ghost pending: nat)
      requires Valid(pending) && k in contents && contents[k] == node
      modifies this`buckets, this`contents
      ensures Valid(pending + 1) && contents == old(contents) - {k}
      ensures old(Light()) ==> Light()
    {
      BucketInRange(Now(), k);
      assert KeyOk(Now(), k);
      var h := Index(hash(k), size, split);
      assert BucketOk(Now(), h, contents);
      var i := 0;
      while buckets[h][i] != Entry(k, node)
        invariant 0 <= i < |buckets[h]| && exists j :: i <= j < |buckets[h]| && buckets[h][j].key == k
        decreases |buckets[h]| - i
      {
        assert buckets[h][i] in buckets[h];
        i := i + 1;
      }
      TakeKeeps(Now(), contents, k, i);
      buckets := buckets[h := buckets[h][..i] + buckets[h][i + 1..]];
      contents := contents - {k};
    }

    /** node_table_reduce */
    method Reduce(ghost pending: nat)
      requires Valid(pending) && split == 0
      modifies this`buckets, this`size, this`split
      ensures Valid(pending)
      ensures if old(size) / 2 < MIN_SIZE then size == old(size) && split == 0
              else size == old(size) / 2 && split == size / 2
    {
      var newSize := size / 2;
      if newSize < MIN_SIZE {
        return;
      }
      TableSizeBound(size);
      ReduceKeeps(Now(), contents);
      buckets := buckets[..newSize];
      size := newSize;
      split := size / 2;
    }

    /** One turn of the merging loop. */
    method MergeOne(ghost pending: nat) returns (merged: bool)
      requires Valid(pending) && split > 0
      modifies this`buckets, this`split
      ensures Valid(pending) && split == old(split) - 1
    {
      MergeKeeps(Now(), contents);
      split := split - 1;
      var upper := split + size / 2;
      if buckets[upper] != [] {
        buckets := buckets[split := buckets[split] + buckets[upper]][upper := []];
        return true;
      }
      assert buckets[split] + buckets[upper] == buckets[split];
      assert buckets[split := buckets[split]][upper := buckets[upper]] == buckets;
      return false;
    }

    /** remerge_id, remerge_name: gives up to eight bucket pairs, but stops at the first that is not empty. */
    method Remerge(ghost pending: nat)
      requires Valid(pending) && use < size / 4
      modifies this`buckets, this`size, this`split
      ensures Valid(pending) && Light()
    {
      if split == 0 {
        Reduce(pending);
      }
      TableSizeBound(size);
      ghost var first := split;
      var iter := 8;
      while split > 0 && iter > 0
        invariant Valid(pending) == true
        invariant use < size / 2 && split <= first <= size / 2 && size % 2 == 0 && 0 <= iter <= 8
        invariant iter < 8 || first == 0 ==> split < size / 2
        decreases iter
      {
        var merged := MergeOne(pending);
        iter := iter - 1;
        if merged {
          break;
        }
      }
    }

    /** The end of unhash_id and unhash_name: one entry less in use, and perhaps fewer buckets. */
    method DropUse(ghost pending: nat)
      requires Valid(pending + 1)
      modifies this`buckets, this`size, this`split, this`use
      ensures Valid(pending) && (old(Light()) ==> Light())
    {
      use := use - 1;
      if use < size / 4 {
        Remerge(pending);
      }
    }
  }
}

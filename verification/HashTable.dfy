/**
 The chained hash table of external/libdrm/xf86drmHash.c and the context tags that
 external/libdrm/xf86drm.c keeps in one.

 A find moves its hit to the head of its chain; deletion then simply drops the head.  `chains`
 records the entries of each bucket as ghosts, and every operation is proved against the finite
 map `contents`, for any scatter table behind the hash function.
 */
module HashTable {
  import opened Random
  import opened FixedMath

  /** A `void *` payload, never dereferenced by the table. */
  type Pointer = nat

  const HASH_SIZE: nat := 512
  const HASH_MAGIC: int := 0xdeadbeef
  const TWO_64: nat := 0x1_0000_0000_0000_0000

  // ---- The hash function -------------------------------------------------------------------------

  predicate IsScatter(scatter: seq<nat>) {
    |scatter| == 256
  }

  /** The bytes of the key, lowest first, each folded in by doubling and adding its scatter value. */
  function Fold(scatter: seq<nat>, tmp: nat, hash: nat): nat
    requires IsScatter(scatter)
    decreases tmp
  {
    if tmp == 0 then hash else Fold(scatter, tmp / 256, (2 * hash + scatter[tmp % 256]) % TWO_64)
  }

  function Hash(scatter: seq<nat>, key: nat): (h: nat)
    requires IsScatter(scatter)
    ensures h < HASH_SIZE
  {
    Fold(scatter, key, 0) % HASH_SIZE
  }

  /** The number with these bytes, lowest first. */
  function Value(bytes: seq<nat>): nat {
    if bytes == [] then 0 else bytes[0] + 256 * Value(bytes[1..])
  }

  predicate AreBytes(bytes: seq<nat>) {
    (forall i :: 0 <= i < |bytes| ==> bytes[i] < 256) && (bytes != [] ==> bytes[|bytes| - 1] != 0)
  }

  /** The scatter values of the bytes, each weighted by a power of two that falls from byte to byte. */
  function Sum(scatter: seq<nat>, bytes: seq<nat>): nat
    requires IsScatter(scatter) && AreBytes(bytes)
  {
    if bytes == [] then 0 else scatter[bytes[0]] * Pow2(|bytes| - 1) + Sum(scatter, bytes[1..])
  }

  lemma {:induction false} ValuePositive(bytes: seq<nat>)
    requires AreBytes(bytes) && bytes != []
    ensures Value(bytes) > 0
  {
    if |bytes| == 1 {
    } else {
      ValuePositive(bytes[1..]);
    }
  }

  /** Wrapping around at 64 bits does not show in the number of the bucket. */
  lemma WrapHidden(x: nat, k: nat, y: nat)
    ensures ((x % TWO_64) * k + y) % HASH_SIZE == (x * k + y) % HASH_SIZE
  {
    var q := x / TWO_64;
    var d: nat := TWO_64 / HASH_SIZE;
    assert x == q * TWO_64 + x % TWO_64;
    var a, b := (x % TWO_64) * k + y, x * k + y;
    assert b == a + q * d * k * HASH_SIZE by {
      assert x * k == q * TWO_64 * k + (x % TWO_64) * k;
      assert q * TWO_64 * k == q * d * k * HASH_SIZE;
    }
    ModShift(a, q * d * k);
  }

  lemma ModShift(a: nat, m: int)
    ensures (a + m * HASH_SIZE) % HASH_SIZE == a % HASH_SIZE
  {
  }

  lemma LowByte(b: nat, v: nat)
    requires b < 256
    ensures (b + 256 * v) % 256 == b && (b + 256 * v) / 256 == v
  {
  }

  lemma FoldNext(scatter: seq<nat>, b: nat, v: nat, x: nat, hash: nat)
    requires IsScatter(scatter) && x > 0 && x % 256 == b && x / 256 == v
    ensures Fold(scatter, x, hash) == Fold(scatter, v, (2 * hash + scatter[b]) % TWO_64)
  {
  }

  lemma FoldStep(scatter: seq<nat>, bytes: seq<nat>, hash: nat)
    requires IsScatter(scatter) && AreBytes(bytes) && bytes != []
    ensures Fold(scatter, Value(bytes), hash)
         == Fold(scatter, Value(bytes[1..]), (2 * hash + scatter[bytes[0]]) % TWO_64)
  {
    hide Fold;
    ValuePositive(bytes);
    LowByte(bytes[0], Value(bytes[1..]));
    FoldNext(scatter, bytes[0], Value(bytes[1..]), Value(bytes), hash);
  }

  lemma Doubled(hash: nat, s: nat, p: nat, y: nat)
    ensures (2 * hash + s) * p + y == hash * (2 * p) + (s * p + y)
  {
  }

  lemma FoldNothing(scatter: seq<nat>, hash: nat)
    requires IsScatter(scatter)
    ensures Fold(scatter, Value([]), hash) == hash
  {
  }

  lemma {:induction false} FoldIs(scatter: seq<nat>, bytes: seq<nat>, hash: nat)
    requires IsScatter(scatter) && AreBytes(bytes)
    ensures Fold(scatter, Value(bytes), hash) % HASH_SIZE == (hash * Pow2(|bytes|) + Sum(scatter, bytes)) % HASH_SIZE
    decreases |bytes|
  {
    hide Fold, Value;
    if bytes == [] {
      FoldNothing(scatter, hash);
    } else {
      var rest, p, s := bytes[1..], Pow2(|bytes| - 1), scatter[bytes[0]];
      FoldStep(scatter, bytes, hash);
      FoldIs(scatter, rest, (2 * hash + s) % TWO_64);
      WrapHidden(2 * hash + s, p, Sum(scatter, rest));
      Doubled(hash, s, p, Sum(scatter, rest));
    }
  }

  /** The bucket of a key in terms of its bytes. */
  lemma HashIs(scatter: seq<nat>, bytes: seq<nat>)
    requires IsScatter(scatter) && AreBytes(bytes)
    ensures Hash(scatter, Value(bytes)) == Sum(scatter, bytes) % 512
  {
    FoldIs(scatter, bytes, 0);
  }

  /** HashHash. */
  method ComputeHash(scatter: seq<nat>, key: nat) returns (h: nat)
    requires IsScatter(scatter)
    ensures h == Hash(scatter, key)
  {
    var hash: nat, tmp := 0, key;
    while tmp != 0
      invariant Fold(scatter, tmp, hash) == Fold(scatter, key, 0)
      decreases tmp
    {
      hash := (2 * hash + scatter[tmp % 256]) % TWO_64;
      tmp := tmp / 256;
    }
    h := hash % HASH_SIZE;
  }

  /** The scatter table that HashHash draws from a generator seeded with 37. */
  method MakeScatter() returns (scatter: seq<nat>)
    ensures IsScatter(scatter)
    ensures forall i :: 0 <= i < 256 ==> scatter[i] == Iterate(37, i + 1)
  {
    var rng := new RandomState(37);
    scatter := [];
    for i := 0 to 256
      invariant rng.Valid() && fresh(rng) && |scatter| == i && rng.seed == Iterate(37, i)
      invariant forall j :: 0 <= j < i ==> scatter[j] == Iterate(37, j + 1)
    {
      var r := rng.Draw();
      scatter := scatter + [r];
    }
  }

  // ---- Chains ------------------------------------------------------------------------------------

  class Bucket {
    const key: nat
    const value: Pointer
    var next: Bucket?

    constructor (key: nat, value: Pointer, next: Bucket?)
      ensures this.key == key && this.value == value && this.next == next
    {
      this.key := key;
      this.value := value;
      this.next := next;
    }
  }

  ghost function At(c: seq<Bucket>, i: nat): Bucket? {
    if i < |c| then c[i] else null
  }

  /** The links from `head` run through exactly the entries of `c`. */
  ghost predicate Chain(head: Bucket?, c: seq<Bucket>)
    reads c
  {
    && head == At(c, 0)
    && forall i {:trigger c[i].next} :: 0 <= i < |c| ==> c[i].next == At(c, i + 1)
  }

  /** All keys of the chain belong to bucket `h`, and no two are equal. */
  ghost predicate Homed(scatter: seq<nat>, c: seq<Bucket>, h: nat)
    requires IsScatter(scatter)
  {
    && (forall i {:trigger c[i].key} :: 0 <= i < |c| ==> Hash(scatter, c[i].key) == h)
    && (forall i, j {:trigger c[i].key, c[j].key} :: 0 <= i < j < |c| ==> c[i].key != c[j].key)
  }

  /** `d` is `c` with its entry `i` moved to the front. */
  ghost predicate MovedToFront(c: seq<Bucket>, d: seq<Bucket>, i: nat) {
    && i < |c| == |d|
    && forall j {:trigger d[j]} :: 0 <= j < |d| ==> d[j] == if j == 0 then c[i] else if j <= i then c[j - 1] else c[j]
  }

  /** The search loop of HashFind. */
  method Search(head: Bucket?, key: nat, ghost c: seq<Bucket>) returns (bucket: Bucket?, prev: Bucket?, ghost i: nat)
    requires Chain(head, c)
    ensures i <= |c| && bucket == At(c, i)
    ensures bucket != null ==> bucket.key == key
    ensures forall j :: 0 <= j < i ==> c[j].key != key
    ensures prev == if i == 0 then null else c[i - 1]
  {
    bucket, prev, i := head, null, 0;
    while bucket != null && bucket.key != key
      invariant i <= |c| && bucket == At(c, i)
      invariant forall j :: 0 <= j < i ==> c[j].key != key
      invariant prev == if i == 0 then null else c[i - 1]
      decreases |c| - i
    {
      prev := bucket;
      bucket := bucket.next;
      i := i + 1;
    }
  }

  lemma MakeFront(c: seq<Bucket>, i: nat) returns (d: seq<Bucket>)
    requires i < |c|
    ensures MovedToFront(c, d, i)
    ensures multiset(d) == multiset(c)
  {
    d := [c[i]] + c[..i] + c[i + 1..];
    assert c == c[..i] + [c[i]] + c[i + 1..];
  }

  /** A chain moved to the front keeps its keys, its bucket and its members. */
  lemma FrontHomed(scatter: seq<nat>, c: seq<Bucket>, d: seq<Bucket>, i: nat, h: nat)
    requires IsScatter(scatter) && MovedToFront(c, d, i) && Homed(scatter, c, h)
    ensures Homed(scatter, d, h)
  {
  }

  /** The relinking of HashFind for a hit behind the head. */
  method Relink(head: Bucket, prev: Bucket, bucket: Bucket, ghost c: seq<Bucket>, ghost i: nat, ghost d: seq<Bucket>)
    requires Chain(head, c) && 0 < i < |c| && bucket == c[i] && prev == c[i - 1]
    requires forall j, k :: 0 <= j < k < |c| ==> c[j] != c[k]
    requires MovedToFront(c, d, i)
    modifies prev, bucket
    ensures Chain(bucket, d)
  {
    assert c[i].next == At(c, i + 1);
    prev.next := bucket.next;
    bucket.next := head;
    forall j | 0 <= j < |d|
      ensures d[j].next == At(d, j + 1)
    {
      if j == 0 {
        assert d[1] == c[0];
      } else if j < i {
        assert d[j] == c[j - 1] && d[j + 1] == c[j];
        assert c[j - 1].next == At(c, j);
      } else if j == i {
        assert d[j] == c[i - 1];
      } else {
        assert d[j] == c[j];
        assert c[j].next == At(c, j + 1);
      }
    }
  }

  // ---- All buckets --------------------------------------------------------------------------------

  ghost function Members(chains: seq<seq<Bucket>>): set<Bucket> {
    set h, i | 0 <= h < |chains| && 0 <= i < |chains[h]| :: chains[h][i]
  }

  /** Every bucket array slot heads its own chain of properly placed entries. */
  ghost predicate Filed(scatter: seq<nat>, buckets: array<Bucket?>, chains: seq<seq<Bucket>>)
    reads buckets, Members(chains)
  {
    && IsScatter(scatter) && |chains| == HASH_SIZE == buckets.Length
    && (forall h :: 0 <= h < HASH_SIZE ==> Homed(scatter, chains[h], h))
    && (forall h :: 0 <= h < HASH_SIZE ==> Chain(buckets[h], chains[h]))
  }

  /** The map that the chains stand for. */
  ghost predicate Represents(scatter: seq<nat>, chains: seq<seq<Bucket>>, m: map<nat, Pointer>)
    requires IsScatter(scatter) && |chains| == HASH_SIZE
  {
    && (forall h, i {:trigger chains[h][i].key} :: 0 <= h < HASH_SIZE && 0 <= i < |chains[h]| ==>
          chains[h][i].key in m && m[chains[h][i].key] == chains[h][i].value)
    && (forall k :: k in m ==> Holds(chains[Hash(scatter, k)], k))
  }

  ghost predicate Holds(c: seq<Bucket>, key: nat) {
    exists i :: 0 <= i < |c| && c[i].key == key
  }

  /** Entries of different buckets are different objects. */
  lemma Apart(scatter: seq<nat>, c: seq<Bucket>, g: nat, x: Bucket)
    requires IsScatter(scatter) && Homed(scatter, c, g) && Hash(scatter, x.key) != g
    ensures x !in c
  {
    forall i | 0 <= i < |c|
      ensures c[i] != x
    {
      assert Hash(scatter, c[i].key) == g;
    }
  }

  lemma DistinctMembers(scatter: seq<nat>, c: seq<Bucket>, h: nat)
    requires IsScatter(scatter) && Homed(scatter, c, h)
    ensures forall j, k :: 0 <= j < k < |c| ==> c[j] != c[k]
  {
    forall j, k | 0 <= j < k < |c|
      ensures c[j] != c[k]
    {
      assert c[j].key != c[k].key;
    }
  }

  /** HashFind on the bucket array: a hit behind the head is moved to the front of its chain. */
  method FindIn(scatter: seq<nat>, buckets: array<Bucket?>, ghost chains: seq<seq<Bucket>>, key: nat, h: nat)
    returns (bucket: Bucket?, moved: bool, ghost after: seq<Bucket>, ghost i: nat)
    requires Filed(scatter, buckets, chains) && h == Hash(scatter, key)
    modifies buckets, chains[h]
    ensures Filed(scatter, buckets, chains[h := after])
    ensures bucket == null ==> after == chains[h] && !Holds(chains[h], key)
    ensures bucket != null ==> MovedToFront(chains[h], after, i) && after[0] == bucket && bucket.key == key
    ensures bucket != null ==> (moved <==> i > 0) && multiset(after) == multiset(chains[h])
  {
    ghost var c := chains[h];
    assert Homed(scatter, c, h);
    assert Chain(buckets[h], c);
    var prev;
    bucket, prev, i := Search(buckets[h], key, c);
    moved, after := false, c;
    if bucket != null {
      after := MakeFront(c, i);
      FrontHomed(scatter, c, after, i, h);
      if prev != null {
        DistinctMembers(scatter, c, h);
        Relink(buckets[h], prev, bucket, c, i, after);
        buckets[h] := bucket;
        moved := true;
        forall g | 0 <= g < HASH_SIZE
          ensures Chain(buckets[g], chains[h := after][g])
        {
          if g != h {
            Apart(scatter, chains[g], g, prev);
            Apart(scatter, chains[g], g, bucket);
          }
        }
      } else {
        assert after == c;
      }
    }
    assert chains[h := after][h] == after;
  }

  /** The end of drmHashInsert: the new entry becomes the head of its chain. */
  method PushIn(scatter: seq<nat>, buckets: array<Bucket?>, ghost chains: seq<seq<Bucket>>, key: nat, value: Pointer,
                h: nat)
    returns (bucket: Bucket)
    requires Filed(scatter, buckets, chains) && h == Hash(scatter, key) && !Holds(chains[h], key)
    modifies buckets
    ensures fresh(bucket) && bucket.key == key && bucket.value == value
    ensures Filed(scatter, buckets, chains[h := [bucket] + chains[h]])
  {
    ghost var c := chains[h];
    assert Homed(scatter, c, h);
    assert Chain(buckets[h], c);
    bucket := new Bucket(key, value, buckets[h]);
    buckets[h] := bucket;
    ghost var d := [bucket] + c;
    assert Homed(scatter, d, h);
    forall i | 0 <= i < |d|
      ensures d[i].next == At(d, i + 1)
    {
      if i > 0 {
        assert d[i] == c[i - 1];
        assert c[i - 1].next == At(c, i);
      }
    }
  }

  /** The end of drmHashDelete: the head, where the find has put the entry, leaves its chain. */
  method DropIn(scatter: seq<nat>, buckets: array<Bucket?>, ghost chains: seq<seq<Bucket>>, h: nat, bucket: Bucket)
    requires Filed(scatter, buckets, chains) && h < HASH_SIZE && |chains[h]| > 0 && bucket == chains[h][0]
    modifies buckets
    ensures Filed(scatter, buckets, chains[h := chains[h][1..]])
  {
    ghost var c := chains[h];
    assert Homed(scatter, c, h);
    assert Chain(buckets[h], c);
    assert c[0].next == At(c, 1);
    buckets[h] := bucket.next;
    ghost var d := c[1..];
    assert Homed(scatter, d, h);
    forall i | 0 <= i < |d|
      ensures d[i].next == At(d, i + 1)
    {
      assert d[i] == c[i + 1];
      assert c[i + 1].next == At(c, i + 2);
    }
  }

  lemma FrontRepresents(scatter: seq<nat>, chains: seq<seq<Bucket>>, m: map<nat, Pointer>, h: nat, d: seq<Bucket>,
                        i: nat)
    requires IsScatter(scatter) && |chains| == HASH_SIZE && h < HASH_SIZE
    requires Represents(scatter, chains, m) && MovedToFront(chains[h], d, i)
    ensures Represents(scatter, chains[h := d], m)
  {
    var after: seq<seq<Bucket>> := chains[h := d];
    forall g, j | 0 <= g < HASH_SIZE && 0 <= j < |after[g]|
      ensures after[g][j].key in m && m[after[g][j].key] == after[g][j].value
    {
      var k := if g != h then j else if j == 0 then i else if j <= i then j - 1 else j;
      assert after[g][j] == chains[g][k];
    }
    forall k | k in m
      ensures Holds(after[Hash(scatter, k)], k)
    {
      var g := Hash(scatter, k);
      var j :| 0 <= j < |chains[g]| && chains[g][j].key == k;
      if g == h {
        assert d[if j == i then 0 else if j < i then j + 1 else j] == chains[g][j];
      } else {
        assert after[g][j].key == k;
      }
    }
  }

  lemma PushRepresents(scatter: seq<nat>, chains: seq<seq<Bucket>>, m: map<nat, Pointer>, h: nat, b: Bucket)
    requires IsScatter(scatter) && |chains| == HASH_SIZE && h == Hash(scatter, b.key)
    requires Represents(scatter, chains, m) && b.key !in m
    ensures Represents(scatter, chains[h := [b] + chains[h]], m[b.key := b.value])
  {
    var after: seq<seq<Bucket>>, n := chains[h := [b] + chains[h]], m[b.key := b.value];
    forall g, j | 0 <= g < HASH_SIZE && 0 <= j < |after[g]|
      ensures after[g][j].key in n && n[after[g][j].key] == after[g][j].value
    {
      if g != h || j > 0 {
        var k := if g != h then j else j - 1;
        assert after[g][j] == chains[g][k];
        assert chains[g][k].key in m;
      }
    }
    forall k | k in n
      ensures Holds(after[Hash(scatter, k)], k)
    {
      var g := Hash(scatter, k);
      if k == b.key {
        assert after[h][0].key == k;
      } else {
        var j :| 0 <= j < |chains[g]| && chains[g][j].key == k;
        assert after[g][if g == h then j + 1 else j].key == k;
      }
    }
  }

  lemma DropRepresents(scatter: seq<nat>, chains: seq<seq<Bucket>>, m: map<nat, Pointer>, h: nat)
    requires IsScatter(scatter) && |chains| == HASH_SIZE && h < HASH_SIZE && |chains[h]| > 0
    requires forall g :: 0 <= g < HASH_SIZE ==> Homed(scatter, chains[g], g)
    requires Represents(scatter, chains, m)
    ensures Represents(scatter, chains[h := chains[h][1..]], m - {chains[h][0].key})
  {
    var after: seq<seq<Bucket>>, key := chains[h := chains[h][1..]], chains[h][0].key;
    assert Hash(scatter, key) == h;
    forall g, j | 0 <= g < HASH_SIZE && 0 <= j < |after[g]|
      ensures after[g][j].key in m && after[g][j].key != key && m[after[g][j].key] == after[g][j].value
    {
      var k := if g != h then j else j + 1;
      assert after[g][j] == chains[g][k];
      assert Homed(scatter, chains[g], g) && Hash(scatter, chains[g][k].key) == g;
      assert g == h ==> chains[h][0].key != chains[h][k].key;
    }
    forall k | k in m && k != key
      ensures Holds(after[Hash(scatter, k)], k)
    {
      var g := Hash(scatter, k);
      var j :| 0 <= j < |chains[g]| && chains[g][j].key == k;
      assert after[g][if g == h then j - 1 else j].key == k;
    }
  }

  lemma SameMembers(chains: seq<seq<Bucket>>, h: nat, d: seq<Bucket>)
    requires h < |chains| && multiset(d) == multiset(chains[h])
    ensures Members(chains[h := d]) == Members(chains)
  {
    var after := chains[h := d];
    forall x | x in Members(after)
      ensures x in Members(chains)
    {
      var g, i :| 0 <= g < |after| && 0 <= i < |after[g]| && after[g][i] == x;
      if g == h {
        assert x in multiset(d);
        assert x in chains[h];
      }
    }
    forall x | x in Members(chains)
      ensures x in Members(after)
    {
      var g, i :| 0 <= g < |chains| && 0 <= i < |chains[g]| && chains[g][i] == x;
      if g == h {
        assert x in multiset(chains[h]);
        assert x in d;
        var j :| 0 <= j < |d| && d[j] == x;
        assert after[h][j] == x;
      } else {
        assert after[g][i] == x;
      }
    }
  }

  lemma PushMembers(chains: seq<seq<Bucket>>, h: nat, b: Bucket)
    requires h < |chains|
    ensures forall x :: x in Members(chains[h := [b] + chains[h]]) ==> x == b || x in Members(chains)
  {
    var after: seq<seq<Bucket>> := chains[h := [b] + chains[h]];
    forall x | x in Members(after) && x != b
      ensures x in Members(chains)
    {
      var g, i :| 0 <= g < |after| && 0 <= i < |after[g]| && after[g][i] == x;
      assert chains[g][if g == h then i - 1 else i] == x;
    }
  }

  lemma DropMembers(chains: seq<seq<Bucket>>, h: nat)
    requires h < |chains| && |chains[h]| > 0
    ensures Members(chains[h := chains[h][1..]]) <= Members(chains)
  {
    var after: seq<seq<Bucket>> := chains[h := chains[h][1..]];
    forall x | x in Members(after)
      ensures x in Members(chains)
    {
      var g, i :| 0 <= g < |after| && 0 <= i < |after[g]| && after[g][i] == x;
      assert chains[g][if g == h then i + 1 else i] == x;
    }
  }

  /** HashFind with the map it leaves alone. */
  method FindKeeping(scatter: seq<nat>, buckets: array<Bucket?>, ghost chains: seq<seq<Bucket>>,
                     ghost m: map<nat, Pointer>, key: nat)
    returns (bucket: Bucket?, h: nat, moved: bool, ghost after: seq<seq<Bucket>>)
    requires Filed(scatter, buckets, chains) && Represents(scatter, chains, m)
    modifies buckets, Members(chains)
    ensures h == Hash(scatter, key) && Filed(scatter, buckets, after) && Represents(scatter, after, m)
    ensures Members(after) == Members(chains)
    ensures forall g :: 0 <= g < HASH_SIZE && g != h ==> after[g] == chains[g]
    ensures multiset(after[h]) == multiset(chains[h])
    ensures bucket != null <==> key in m
    ensures bucket != null ==> |after[h]| > 0 && bucket == after[h][0] && bucket.key == key && bucket.value == m[key]
    ensures bucket != null ==> (moved <==> bucket != chains[h][0])
    ensures bucket == null ==> after == chains && !Holds(chains[h], key)
  {
    h := ComputeHash(scatter, key);
    ghost var d, i;
    assert Homed(scatter, chains[h], h);
    DistinctMembers(scatter, chains[h], h);
    bucket, moved, d, i := FindIn(scatter, buckets, chains, key, h);
    after := chains[h := d];
    if bucket != null {
      FrontRepresents(scatter, chains, m, h, d, i);
      assert after[h][0].key in m;
    } else {
      assert after == chains;
    }
    SameMembers(chains, h, d);
  }

  // ---- The table ----------------------------------------------------------------------------------

  class HashTable {
    const scatter: seq<nat>
    const buckets: array<Bucket?>
    var magic: int
    var entries: nat
    var hits: nat
    var partials: nat
    var misses: nat
    var p0: nat
    var p1: Bucket?
    ghost var chains: seq<seq<Bucket>>
    ghost var contents: map<nat, Pointer>
    ghost var finds: nat

    ghost predicate Valid()
      reads `magic, `hits, `partials, `misses, `chains, `contents, `finds, buckets, Members(chains)
    {
      && magic == HASH_MAGIC
      && Filed(scatter, buckets, chains)
      && Represents(scatter, chains, contents)
      && finds == hits + partials + misses
    }

    /** drmHashCreate, for any scatter table; the iteration fields are cleared by the allocator. */
    constructor (scatter: seq<nat>)
      requires IsScatter(scatter)
      ensures Valid() && fresh(buckets) && Members(chains) == {}
      ensures contents == map[] && finds == 0 && this.scatter == scatter
    {
      this.scatter := scatter;
      magic := HASH_MAGIC;
      entries, hits, partials, misses := 0, 0, 0, 0;
      p0, p1 := 0, null;
      buckets := new Bucket?[HASH_SIZE](_ => null);
      chains := seq(HASH_SIZE, _ => []);
      contents := map[];
      finds := 0;
    }

    /** HashFind: the map is untouched, and a hit ends up at the head of its chain. */
    method Find(key: nat) returns (bucket: Bucket?, h: nat)
      requires Valid()
      modifies this, buckets, Members(chains)
      ensures Valid() && h == Hash(scatter, key)
      ensures contents == old(contents) && finds == old(finds) + 1 && Members(chains) == old(Members(chains))
      ensures forall g :: 0 <= g < HASH_SIZE && g != h ==> chains[g] == old(chains)[g]
      ensures multiset(chains[h]) == multiset(old(chains)[h])
      ensures bucket != null <==> key in contents
      ensures bucket != null ==>
                |chains[h]| > 0 && bucket == chains[h][0] && bucket.key == key && bucket.value == contents[key]
      ensures bucket == null ==> !Holds(chains[h], key)
      ensures misses == old(misses) + if bucket == null then 1 else 0
      ensures partials == old(partials) + if bucket != null && bucket != old(chains)[h][0] then 1 else 0
    {
      hide Homed, Chain, MovedToFront, Represents, Hash;
      var moved;
      ghost var after;
      bucket, h, moved, after := FindKeeping(scatter, buckets, chains, contents, key);
      Count(bucket != null, moved);
      chains, finds := after, finds + 1;
      assert Filed(scatter, buckets, chains);
    }

    method Count(found: bool, moved: bool)
      modifies `hits, `partials, `misses
      ensures hits + partials + misses == old(hits + partials + misses) + 1
      ensures misses == old(misses) + if found then 0 else 1
      ensures partials == old(partials) + if found && moved then 1 else 0
    {
      if !found {
        misses := misses + 1;
      } else if moved {
        partials := partials + 1;
      } else {
        hits := hits + 1;
      }
    }

    /** drmHashLookup. */
    method Lookup(key: nat) returns (r: int, value: Pointer)
      requires magic == HASH_MAGIC ==> Valid()
      modifies this, buckets, Members(chains)
      ensures old(magic) != HASH_MAGIC ==> r == -1 && unchanged(this)
      ensures old(magic) == HASH_MAGIC ==>
                Valid() && contents == old(contents) && Members(chains) == old(Members(chains))
      ensures old(magic) == HASH_MAGIC ==> r == if key in contents then 0 else 1
      ensures r == 0 ==> value == contents[key]
    {
      if magic != HASH_MAGIC {
        return -1, 0;
      }
      var bucket, h := Find(key);
      if bucket == null {
        return 1, 0;
      }
      return 0, bucket.value;
    }

    /** The part of drmHashInsert behind a failed find. */
    method Push(key: nat, value: Pointer, h: nat)
      requires Valid() && h == Hash(scatter, key) && key !in contents && !Holds(chains[h], key)
      modifies this, buckets
      ensures Valid() && contents == old(contents)[key := value]
      ensures fresh(Members(chains) - old(Members(chains)))
    {
      var bucket := PushIn(scatter, buckets, chains, key, value, h);
      PushRepresents(scatter, chains, contents, h, bucket);
      PushMembers(chains, h, bucket);
      chains, contents := chains[h := [bucket] + chains[h]], contents[key := value];
      assert Filed(scatter, buckets, chains);
    }

    /** drmHashInsert: map insertion that refuses a key already present. */
    method Insert(key: nat, value: Pointer) returns (r: int)
      requires magic == HASH_MAGIC ==> Valid()
      modifies this, buckets, Members(chains)
      ensures old(magic) != HASH_MAGIC ==> r == -1 && unchanged(this)
      ensures old(magic) == HASH_MAGIC ==> Valid() && r == if key in old(contents) then 1 else 0
      ensures old(magic) == HASH_MAGIC ==>
                contents == if key in old(contents) then old(contents) else old(contents)[key := value]
      ensures fresh(Members(chains) - old(Members(chains)))
    {
      hide Filed, Represents, Hash, Holds;
      if magic != HASH_MAGIC {
        return -1;
      }
      var bucket, h := Find(key);
      if bucket != null {
        return 1;
      }
      Push(key, value, h);
      return 0;
    }

    /** The part of drmHashDelete behind a find: the head of the chain goes. */
    method Drop(bucket: Bucket, h: nat)
      requires Valid() && h < HASH_SIZE && |chains[h]| > 0 && bucket == chains[h][0]
      modifies this, buckets
      ensures Valid() && contents == old(contents) - {bucket.key}
      ensures Members(chains) <= old(Members(chains))
    {
      DropIn(scatter, buckets, chains, h, bucket);
      DropRepresents(scatter, chains, contents, h);
      DropMembers(chains, h);
      chains, contents := chains[h := chains[h][1..]], contents - {bucket.key};
      assert Filed(scatter, buckets, chains);
    }

    /** drmHashDelete: map removal. */
    method Delete(key: nat) returns (r: int)
      requires magic == HASH_MAGIC ==> Valid()
      modifies this, buckets, Members(chains)
      ensures old(magic) != HASH_MAGIC ==> r == -1 && unchanged(this)
      ensures old(magic) == HASH_MAGIC ==> Valid() && r == if key in old(contents) then 0 else 1
      ensures old(magic) == HASH_MAGIC ==> contents == old(contents) - {key}
      ensures Members(chains) <= old(Members(chains))
    {
      if magic != HASH_MAGIC {
        return -1;
      }
      var bucket, h := Find(key);
      if bucket == null {
        assert contents - {key} == contents;
        return 1;
      }
      Drop(bucket, h);
      return 0;
    }
  }

  // ---- Context tags ---------------------------------------------------------------------------------

  /** The branch of drmAddContextTag for a context that already has a tag. */
  method Retag(table: HashTable, context: nat, tag: Pointer)
    requires table.Valid()
    modifies table, table.buckets, Members(table.chains)
    ensures table.Valid() && table.contents == old(table.contents)[context := tag]
  {
    Overwrites(table.contents, context, tag);
    var d := table.Delete(context);
    var i := table.Insert(context, tag);
  }

  lemma Overwrites(m: map<nat, Pointer>, k: nat, v: Pointer)
    ensures (m - {k})[k := v] == m[k := v] && k !in m - {k}
  {
  }

  /** drmAddContextTag on the tag table of its file descriptor: overwrites. */
  method AddContextTag(table: HashTable, context: nat, tag: Pointer) returns (r: int)
    requires table.Valid()
    modifies table, table.buckets, Members(table.chains)
    ensures table.Valid() && r == 0
    ensures table.contents == old(table.contents)[context := tag]
  {
    var refused := table.Insert(context, tag);
    if refused != 0 {
      Retag(table, context, tag);
    }
    return 0;
  }

  /** drmDelContextTag. */
  method DelContextTag(table: HashTable, context: nat) returns (r: int)
    requires table.Valid()
    modifies table, table.buckets, Members(table.chains)
    ensures table.Valid() && r == if context in old(table.contents) then 0 else 1
    ensures table.contents == old(table.contents) - {context}
  {
    r := table.Delete(context);
  }

  /** drmGetContextTag; 0 is the null pointer. */
  method GetContextTag(table: HashTable, context: nat) returns (tag: Pointer)
    requires table.Valid()
    modifies table, table.buckets, Members(table.chains)
    ensures table.Valid() && table.contents == old(table.contents)
    ensures tag == if context in table.contents then table.contents[context] else 0
  {
    var r, value := table.Lookup(context);
    if r != 0 {
      return 0;
    }
    return value;
  }

  // ---- Traversal --------------------------------------------------------------------------------------

  ghost function Flatten(cs: seq<seq<Bucket>>): seq<Bucket> {
    if cs == [] then [] else cs[0] + Flatten(cs[1..])
  }

  /** What drmHashNext has still to yield, standing in front of `rest` with `p0` the next bucket to load. */
  ghost function Remaining(chains: seq<seq<Bucket>>, p0: nat, rest: seq<Bucket>): seq<Bucket>
    requires |chains| == HASH_SIZE
  {
    if p0 >= HASH_SIZE then [] else rest + Flatten(chains[p0..HASH_SIZE - 1])
  }

  /** drmHashNext; `rest` is the part of a chain that the iteration pointer heads. */
  method Next(table: HashTable, ghost rest0: seq<Bucket>)
    returns (r: int, key: nat, value: Pointer, ghost rest: seq<Bucket>)
    requires table.Valid() && Chain(table.p1, rest0) && (forall x :: x in rest0 ==> x in Members(table.chains))
    modifies table`p0, table`p1
    ensures table.Valid() && Chain(table.p1, rest) && (forall x :: x in rest ==> x in Members(table.chains))
    ensures var before, after := Remaining(table.chains, old(table.p0), rest0), Remaining(table.chains, table.p0, rest);
            if before == [] then r == 0 && after == []
            else r == 1 && key == before[0].key && value == before[0].value && after == before[1..]
  {
    hide Represents, Homed, Hash;
    rest := rest0;
    ghost var chains := table.chains;
    while table.p0 < HASH_SIZE
      invariant table.Valid() && Chain(table.p1, rest) && (forall x :: x in rest ==> x in Members(chains))
      invariant Remaining(chains, table.p0, rest) == Remaining(chains, old(table.p0), rest0)
      decreases HASH_SIZE - table.p0
    {
      if table.p1 != null {
        key, value := table.p1.key, table.p1.value;
        r := 1;
        assert rest[0].next == At(rest, 1);
        table.p1 := table.p1.next;
        ShiftChain(rest);
        rest := rest[1..];
        return;
      }
      assert Chain(table.buckets[table.p0], chains[table.p0]);
      LoadBucket(chains, table.p0);
      rest := chains[table.p0];
      table.p1 := table.buckets[table.p0];
      table.p0 := table.p0 + 1;
    }
    r, key, value := 0, 0, 0;
  }

  lemma ShiftChain(c: seq<Bucket>)
    requires |c| > 0 && Chain(c[0], c)
    ensures Chain(At(c, 1), c[1..])
  {
    var d := c[1..];
    forall i | 0 <= i < |d|
      ensures d[i].next == At(d, i + 1)
    {
      assert d[i] == c[i + 1];
      assert c[i + 1].next == At(c, i + 2);
    }
  }

  lemma LoadBucket(chains: seq<seq<Bucket>>, p: nat)
    requires |chains| == HASH_SIZE && p < HASH_SIZE
    ensures Remaining(chains, p + 1, chains[p]) == Remaining(chains, p, [])
    ensures forall x :: x in chains[p] ==> x in Members(chains)
  {
    if p < HASH_SIZE - 1 {
      var cs := chains[p..HASH_SIZE - 1];
      assert cs[1..] == chains[p + 1..HASH_SIZE - 1];
    }
  }

  /** Bucket 0, then buckets 0 to 510: the order in which drmHashFirst and drmHashNext yield the entries. */
  ghost function VisitOrder(chains: seq<seq<Bucket>>): seq<Bucket>
    requires |chains| == HASH_SIZE
  {
    chains[0] + Flatten(chains[..HASH_SIZE - 1])
  }

  ghost function Items(c: seq<Bucket>): (out: seq<(nat, Pointer)>)
    ensures |out| == |c|
    ensures forall i :: 0 <= i < |c| ==> out[i] == (c[i].key, c[i].value)
  {
    if c == [] then [] else [(c[0].key, c[0].value)] + Items(c[1..])
  }

  /** drmHashFirst. */
  method First(table: HashTable) returns (r: int, key: nat, value: Pointer, ghost rest: seq<Bucket>)
    requires table.magic == HASH_MAGIC ==> table.Valid()
    modifies table`p0, table`p1
    ensures table.magic != HASH_MAGIC ==> r == -1 && unchanged(table)
    ensures table.magic == HASH_MAGIC ==>
              table.Valid() && Chain(table.p1, rest) && (forall x :: x in rest ==> x in Members(table.chains))
    ensures table.magic == HASH_MAGIC ==>
              var before, after := VisitOrder(table.chains), Remaining(table.chains, table.p0, rest);
              if before == [] then r == 0 && after == []
              else r == 1 && key == before[0].key && value == before[0].value && after == before[1..]
  {
    if table.magic != HASH_MAGIC {
      return -1, 0, 0, [];
    }
    assert Chain(table.buckets[0], table.chains[0]);
    assert forall x :: x in table.chains[0] ==> x in Members(table.chains);
    assert table.chains[0..HASH_SIZE - 1] == table.chains[..HASH_SIZE - 1];
    table.p0 := 0;
    table.p1 := table.buckets[0];
    r, key, value, rest := Next(table, table.chains[0]);
  }

  /** A traversal of `all` has yielded `out` and holds the answer (r, key, value) of its latest call. */
  ghost predicate Walking(table: HashTable, rest: seq<Bucket>, all: seq<Bucket>, out: seq<(nat, Pointer)>, r: int,
                          key: nat, value: Pointer)
    reads table`p0, table`p1, table`chains, rest
  {
    && Chain(table.p1, rest) && (set x | x in rest) <= Members(table.chains) && |table.chains| == HASH_SIZE
    && |out| <= |all| && out == Items(all)[..|out|]
    && if |out| == |all| then r == 0
       else r == 1 && (key, value) == Items(all)[|out|] && Remaining(table.chains, table.p0, rest) == all[|out| + 1..]
  }

  method WalkOne(table: HashTable, ghost rest: seq<Bucket>, ghost all: seq<Bucket>, out: seq<(nat, Pointer)>,
                 key: nat, value: Pointer)
    returns (longer: seq<(nat, Pointer)>, r: int, key': nat, value': Pointer, ghost rest': seq<Bucket>)
    requires table.Valid() && Walking(table, rest, all, out, 1, key, value)
    modifies table`p0, table`p1
    ensures table.Valid() && Walking(table, rest', all, longer, r, key', value') && |longer| == |out| + 1
  {
    longer := out + [(key, value)];
    ghost var before := all[|out| + 1..];
    r, key', value', rest' := Next(table, rest);
    if before != [] {
      assert before[0] == all[|longer|] && before[1..] == all[|longer| + 1..];
    }
  }

  /** A client that calls First and then Next until the end. */
  method Traverse(table: HashTable) returns (out: seq<(nat, Pointer)>)
    requires table.Valid()
    modifies table`p0, table`p1
    ensures table.Valid() && out == Items(VisitOrder(table.chains))
  {
    out := [];
    ghost var all := VisitOrder(table.chains);
    var r, key, value, rest := First(table);
    assert Walking(table, rest, all, out, r, key, value);
    while r == 1
      invariant table.Valid() && table.chains == old(table.chains) && Walking(table, rest, all, out, r, key, value)
      decreases |all| - |out|
    {
      out, r, key, value, rest := WalkOne(table, rest, all, out, key, value);
    }
  }

  ghost predicate ExactlyOnce(v: seq<Bucket>, chains: seq<seq<Bucket>>) {
    && (forall i :: 0 <= i < |v| ==> v[i] in Members(chains))
    && (forall x :: x in Members(chains) ==> x in v)
    && (forall i, j :: 0 <= i < j < |v| ==> v[i] != v[j])
  }

  /** All chains hold entries of their own buckets, counted from `off`. */
  ghost predicate AllHomed(scatter: seq<nat>, cs: seq<seq<Bucket>>, off: nat)
    requires IsScatter(scatter)
  {
    forall h {:trigger cs[h]} :: 0 <= h < |cs| ==> Homed(scatter, cs[h], off + h)
  }

  lemma {:induction false} FlattenMember(cs: seq<seq<Bucket>>, x: Bucket)
    ensures x in Flatten(cs) <==> x in Members(cs)
  {
    if cs == [] {
    } else {
      FlattenMember(cs[1..], x);
      if x in Members(cs) {
        var h, i :| 0 <= h < |cs| && 0 <= i < |cs[h]| && cs[h][i] == x;
        if h > 0 {
          assert cs[1..][h - 1][i] == x;
        }
      }
      if x in Members(cs[1..]) {
        var h, i :| 0 <= h < |cs[1..]| && 0 <= i < |cs[1..][h]| && cs[1..][h][i] == x;
        assert cs[h + 1][i] == x;
      }
      if x in cs[0] {
        var i :| 0 <= i < |cs[0]| && cs[0][i] == x;
      }
    }
  }

  lemma {:induction false} FlattenDistinct(scatter: seq<nat>, cs: seq<seq<Bucket>>, off: nat)
    requires IsScatter(scatter) && AllHomed(scatter, cs, off)
    ensures forall x :: x in Flatten(cs) ==> off <= Hash(scatter, x.key) < off + |cs|
    ensures forall i, j :: 0 <= i < j < |Flatten(cs)| ==> Flatten(cs)[i] != Flatten(cs)[j]
  {
    if cs == [] {
    } else {
      var tail := cs[1..];
      assert AllHomed(scatter, tail, off + 1) by {
        forall h | 0 <= h < |tail|
          ensures Homed(scatter, tail[h], off + 1 + h)
        {
          assert tail[h] == cs[h + 1];
        }
      }
      FlattenDistinct(scatter, tail, off + 1);
      assert Homed(scatter, cs[0], off);
      DistinctMembers(scatter, cs[0], off);
      forall x | x in cs[0]
        ensures Hash(scatter, x.key) == off
      {
        var i :| 0 <= i < |cs[0]| && cs[0][i] == x;
        assert Hash(scatter, cs[0][i].key) == off;
      }
      var rest := Flatten(tail);
      forall i, j | 0 <= i < j < |Flatten(cs)|
        ensures Flatten(cs)[i] != Flatten(cs)[j]
      {
        var n := |cs[0]|;
        if i < n <= j {
          assert cs[0][i] in cs[0] && rest[j - n] in rest;
        } else if n <= i {
          assert rest[i - n] != rest[j - n];
        }
      }
    }
  }

  /** The traversal yields every entry exactly once iff the first and the last bucket are empty. */
  lemma TraversalExactlyOnce(scatter: seq<nat>, chains: seq<seq<Bucket>>)
    requires IsScatter(scatter) && |chains| == HASH_SIZE && AllHomed(scatter, chains, 0)
    ensures ExactlyOnce(VisitOrder(chains), chains) <==> chains[0] == [] && chains[HASH_SIZE - 1] == []
  {
    var cs := chains[..HASH_SIZE - 1];
    var v := VisitOrder(chains);
    assert AllHomed(scatter, cs, 0);
    FlattenDistinct(scatter, cs, 0);
    if chains[0] != [] {
      assert Flatten(cs)[0] == chains[0][0];
      assert v[0] == v[|chains[0]|];
    } else if chains[HASH_SIZE - 1] != [] {
      var last := chains[HASH_SIZE - 1];
      assert Homed(scatter, last, HASH_SIZE - 1);
      assert Hash(scatter, last[0].key) == HASH_SIZE - 1;
      assert last[0] in Members(chains);
      FlattenMember(cs, last[0]);
      assert last[0] !in v;
    } else {
      assert v == Flatten(cs);
      MembersButLast(chains);
      var f := Flatten(cs);
      forall i | 0 <= i < |v|
        ensures v[i] in Members(chains)
      {
        FlattenMember(cs, f[i]);
      }
      forall x | x in Members(chains)
        ensures x in v
      {
        FlattenMember(cs, x);
      }
      forall i, j | 0 <= i < j < |v|
        ensures v[i] != v[j]
      {
        assert f[i] != f[j];
      }
    }
  }

  /** A table that holds key 0 lists it twice, because key 0 is always in the first bucket. */
  lemma ZeroTwice(scatter: seq<nat>, chains: seq<seq<Bucket>>, m: map<nat, Pointer>)
    requires && IsScatter(scatter) && |chains| == HASH_SIZE && AllHomed(scatter, chains, 0)
             && Represents(scatter, chains, m) && 0 in m
    ensures Hash(scatter, 0) == 0 && !ExactlyOnce(VisitOrder(chains), chains)
    ensures exists i, j :: 0 <= i < j < |VisitOrder(chains)| &&
              VisitOrder(chains)[i].key == VisitOrder(chains)[j].key == 0
  {
    TraversalExactlyOnce(scatter, chains);
    var first, v := chains[0], VisitOrder(chains);
    var i :| 0 <= i < |first| && first[i].key == 0;
    assert chains[..HASH_SIZE - 1][0] == first;
    assert v[i] == first[i] && v[|first| + i] == first[i];
  }

  lemma MembersButLast(chains: seq<seq<Bucket>>)
    requires |chains| == HASH_SIZE && chains[HASH_SIZE - 1] == []
    ensures Members(chains[..HASH_SIZE - 1]) == Members(chains)
  {
    var cs := chains[..HASH_SIZE - 1];
    forall x | x in Members(chains)
      ensures x in Members(cs)
    {
      var h, i :| 0 <= h < |chains| && 0 <= i < |chains[h]| && chains[h][i] == x;
      assert cs[h][i] == x;
    }
    forall x | x in Members(cs)
      ensures x in Members(chains)
    {
      var h, i :| 0 <= h < |cs| && 0 <= i < |cs[h]| && cs[h][i] == x;
      assert chains[h][i] == x;
    }
  }
}

/**
 The pointer skip list of external/libdrm/xf86drmSL.c.

 An entry carries one forward link per level it takes part in.  `SkipList.spine` is the ghost
 sequence of all entries in level-0 order, the head first, and `heights` their numbers of links;
 `Valid` says that the links at every level are exactly those the heights dictate.  Every
 operation is proved against the finite map `contents`, whatever levels the generator hands out.
 */
module SkipList {
  import opened Collections
  import opened Random

  /** A `void *` payload, never dereferenced by the list. */
  type Pointer = nat

  const MAX_LEVEL: nat := 16
  const LIST_MAGIC: int := 0xfacade00
  const ENTRY_MAGIC: int := 0x00fab1ed
  const FREED_MAGIC: int := 0xdecea5ed

  class Entry {
    var magic: int
    const key: nat
    const value: Pointer
    const levels: nat
    var forward: seq<Entry?>

    /** SLCreateEntry; the allocator clears the link array. */
    constructor (maxLevel: int, key: nat, value: Pointer)
      ensures magic == ENTRY_MAGIC && this.key == key && this.value == value
      ensures levels == 1 + if 0 <= maxLevel <= MAX_LEVEL then maxLevel else MAX_LEVEL
      ensures forward == seq(levels, _ => null)
    {
      var top := if maxLevel < 0 || maxLevel > MAX_LEVEL then MAX_LEVEL else maxLevel;
      this.magic := ENTRY_MAGIC;
      this.key := key;
      this.value := value;
      this.levels := top + 1;
      this.forward := seq(top + 1, _ => null);
    }
  }

  // ---- Levels: functions of the heights alone --------------------------------------------------

  /** The first index from `i` on that takes part in level `l`, or |h|. */
  ghost function NextAt(h: seq<nat>, i: nat, l: nat): (r: nat)
    requires i <= |h|
    ensures i <= r <= |h|
    ensures forall j :: i <= j < r ==> h[j] <= l
    ensures r < |h| ==> h[r] > l
    decreases |h| - i
  {
    if i == |h| || h[i] > l then i else NextAt(h, i + 1, l)
  }

  /** The last index up to `p` that takes part in level `l`. */
  ghost function LastAt(h: seq<nat>, p: nat, l: nat): (r: nat)
    requires p < |h| && h[0] > l
    ensures r <= p && h[r] > l
    ensures forall j :: r < j <= p ==> h[j] <= l
  {
    if h[p] > l then p else LastAt(h, p - 1, l)
  }

  lemma NextUnique(h: seq<nat>, i: nat, l: nat, r: nat)
    requires i <= r <= |h|
    requires forall j :: i <= j < r ==> h[j] <= l
    requires r < |h| ==> h[r] > l
    ensures NextAt(h, i, l) == r
  {
  }

  /** The predecessor of a position at level `l` leads past that position. */
  lemma PredecessorNext(h: seq<nat>, p: nat, l: nat)
    requires p < |h| && h[0] > l
    ensures NextAt(h, LastAt(h, p, l) + 1, l) == NextAt(h, p + 1, l)
  {
    NextUnique(h, LastAt(h, p, l) + 1, l, NextAt(h, p + 1, l));
  }

  /** The indices that level `l` visits from `i` on. */
  ghost function LevelFrom(h: seq<nat>, i: nat, l: nat): (v: seq<nat>)
    requires i <= |h|
    decreases |h| - i
  {
    var n := NextAt(h, i, l);
    if n == |h| then [] else [n] + LevelFrom(h, n + 1, l)
  }

  lemma {:induction false} LevelMembers(h: seq<nat>, i: nat, l: nat)
    requires i <= |h|
    ensures forall j :: j in LevelFrom(h, i, l) <==> i <= j < |h| && h[j] > l
    ensures forall a, b :: 0 <= a < b < |LevelFrom(h, i, l)| ==> LevelFrom(h, i, l)[a] < LevelFrom(h, i, l)[b]
    decreases |h| - i
  {
    var n := NextAt(h, i, l);
    if n == |h| {
    } else {
      LevelMembers(h, n + 1, l);
      var rest := LevelFrom(h, n + 1, l);
      assert forall b :: 0 <= b < |rest| ==> rest[b] in rest;
    }
  }

  /** Each level visits, in the same order, some of the entries that the level below visits. */
  lemma LevelsNest(h: seq<nat>, l: nat)
    requires |h| > 0
    ensures forall j :: j in LevelFrom(h, 1, l + 1) ==> j in LevelFrom(h, 1, l)
    ensures forall a, b :: 0 <= a < b < |LevelFrom(h, 1, l)| ==> LevelFrom(h, 1, l)[a] < LevelFrom(h, 1, l)[b]
  {
    LevelMembers(h, 1, l);
    LevelMembers(h, 1, l + 1);
  }

  /** Where links of level `l` lead after an entry of height `x` has been spliced in: from behind it, ... */
  lemma GrownAfter(h: seq<nat>, g: seq<nat>, p: nat, x: nat, i: nat, l: nat)
    requires IsGrown(h, g, p, x) && p < i < |g|
    ensures NextAt(g, i + 1, l) == NextAt(h, i, l) + 1
  {
    NextUnique(g, i + 1, l, NextAt(h, i, l) + 1);
  }

  /** ... from its predecessor, ... */
  lemma GrownPred(h: seq<nat>, g: seq<nat>, p: nat, x: nat, l: nat)
    requires IsGrown(h, g, p, x) && h[0] > l
    ensures NextAt(h, LastAt(h, p, l) + 1, l) == NextAt(h, p + 1, l)
    ensures NextAt(g, LastAt(h, p, l) + 1, l) == if x > l then p + 1 else NextAt(h, p + 1, l) + 1
  {
    PredecessorNext(h, p, l);
    NextUnique(g, LastAt(h, p, l) + 1, l, if x > l then p + 1 else NextAt(h, p + 1, l) + 1);
  }

  /** ... and from before its predecessor. */
  lemma GrownBefore(h: seq<nat>, g: seq<nat>, p: nat, x: nat, i: nat, l: nat)
    requires IsGrown(h, g, p, x) && h[0] > l && i < LastAt(h, p, l)
    ensures NextAt(g, i + 1, l) == NextAt(h, i + 1, l) <= p
  {
    NextUnique(g, i + 1, l, NextAt(h, i + 1, l));
  }

  lemma GrownNext(h: seq<nat>, g: seq<nat>, p: nat, x: nat, i: nat, l: nat)
    requires IsGrown(h, g, p, x) && h[0] > l && i < |g| && l < g[i]
    ensures i > p ==> NextAt(g, i + 1, l) == NextAt(h, i, l) + 1
    ensures i <= p && i != LastAt(h, p, l) ==> NextAt(g, i + 1, l) == NextAt(h, i + 1, l) <= p
    ensures i == LastAt(h, p, l) ==> NextAt(h, i + 1, l) == NextAt(h, p + 1, l)
    ensures i == LastAt(h, p, l) ==> NextAt(g, i + 1, l) == if x > l then p + 1 else NextAt(h, p + 1, l) + 1
  {
    if i > p {
      GrownAfter(h, g, p, x, i, l);
    } else if i == LastAt(h, p, l) {
      GrownPred(h, g, p, x, l);
    } else {
      GrownBefore(h, g, p, x, i, l);
    }
  }

  /** The same read backwards: links of the spine `h` in terms of the spine `g` that has one entry more. */
  lemma ShrunkNext(h: seq<nat>, g: seq<nat>, p: nat, x: nat, i: nat, l: nat)
    requires IsGrown(h, g, p, x) && h[0] > l && i < |h| && l < h[i]
    ensures var n := NextAt(h, i + 1, l);
            (if n <= p then n else n + 1) ==
              if i == LastAt(h, p, l) && l < x then NextAt(g, p + 2, l)
              else NextAt(g, if i <= p then i + 1 else i + 2, l)
  {
    if i > p {
      GrownAfter(h, g, p, x, i + 1, l);
    } else if i == LastAt(h, p, l) {
      GrownPred(h, g, p, x, l);
      GrownAfter(h, g, p, x, p + 1, l);
    } else {
      GrownBefore(h, g, p, x, i, l);
    }
  }

  lemma MakeShrunk<T>(t: seq<T>, p: nat) returns (s: seq<T>)
    requires p + 1 < |t|
    ensures IsGrown(s, t, p, t[p + 1])
    ensures forall x :: x in s ==> x in t
  {
    s := t[..p + 1] + t[p + 2..];
  }

  /** A level in use before stays in use; the new entry's own levels are in use. */
  lemma GrownTop(h: seq<nat>, g: seq<nat>, p: nat, x: nat, l: nat)
    requires IsGrown(h, g, p, x) && (x > l || NextAt(h, 1, l) < |h|)
    ensures NextAt(g, 1, l) < |g|
  {
    if x > l {
      assert g[p + 1] == x;
    } else {
      var n := NextAt(h, 1, l);
      assert g[if n <= p then n else n + 1] == h[n];
    }
  }

  // ---- Entries on a spine ------------------------------------------------------------------------

  ghost function At(s: seq<Entry>, i: nat): Entry? {
    if i < |s| then s[i] else null
  }

  lemma GrownAt(s: seq<Entry>, t: seq<Entry>, p: nat, e: Entry, n: nat)
    requires IsGrown(s, t, p, e) && n <= |s|
    ensures At(s, n) == At(t, if n <= p then n else n + 1)
  {
    if p < n < |s| {
      assert t[n + 1] == s[n];
    }
  }

  ghost predicate Sized(s: seq<Entry>, h: seq<nat>)
    reads s
  {
    && |s| == |h| > 0
    && forall i :: 0 <= i < |s| ==> |s[i].forward| == s[i].levels == h[i]
  }

  /** Every link at level `l` leads to the next entry of that level. */
  ghost predicate Linked(s: seq<Entry>, h: seq<nat>, l: nat)
    requires Sized(s, h)
    reads s
  {
    forall i {:trigger s[i].forward[l]} :: 0 <= i < |s| && l < h[i] ==> s[i].forward[l] == At(s, NextAt(h, i + 1, l))
  }

  ghost predicate Distinct(s: seq<Entry>) {
    forall i, j :: 0 <= i < j < |s| ==> s[i] != s[j]
  }

  /** Keys increase strictly; index 0 is the head, whose key is not part of the list. */
  ghost predicate Sorted(s: seq<Entry>) {
    forall i, j {:trigger s[i].key, s[j].key} :: 1 <= i < j < |s| ==> s[i].key < s[j].key
  }

  /** The map that a spine stands for. */
  ghost predicate Represents(s: seq<Entry>, m: map<nat, Pointer>) {
    && (forall i {:trigger s[i].key} :: 1 <= i < |s| ==> s[i].key in m && m[s[i].key] == s[i].value)
    && (forall k :: k in m ==> exists i :: 1 <= i < |s| && s[i].key == k)
  }

  /** The index of the last entry whose key is below `key`, or 0 for the head. */
  ghost predicate IsRank(s: seq<Entry>, key: nat, p: nat) {
    && p < |s|
    && (forall i {:trigger s[i].key} :: 1 <= i <= p ==> s[i].key < key)
    && (forall i {:trigger s[i].key} :: p < i < |s| ==> key <= s[i].key)
  }

  lemma FindRank(s: seq<Entry>, key: nat) returns (p: nat)
    requires |s| > 0 && Sorted(s)
    ensures IsRank(s, key, p)
  {
    p := 0;
    while p + 1 < |s| && s[p + 1].key < key
      invariant p < |s|
      invariant forall i :: 1 <= i <= p ==> s[i].key < key
    {
      p := p + 1;
    }
  }

  lemma Absent(s: seq<Entry>, key: nat, p: nat)
    requires Sorted(s) && IsRank(s, key, p) && (p + 1 < |s| ==> s[p + 1].key != key)
    ensures forall i :: 1 <= i < |s| ==> s[i].key != key
  {
  }

  lemma AbsentKey(s: seq<Entry>, key: nat, p: nat, m: map<nat, Pointer>)
    requires Sorted(s) && IsRank(s, key, p) && (p + 1 < |s| ==> s[p + 1].key != key) && Represents(s, m)
    ensures key !in m && m - {key} == m
  {
    Absent(s, key, p);
  }

  /** Level `l` of the grown spine, given the links of the old entries and of the new one. */
  lemma GrownLinked(s: seq<Entry>, h: seq<nat>, t: seq<Entry>, g: seq<nat>, p: nat, e: Entry, l: nat)
    requires Sized(s, h) && Sized(t, g) && h[0] > l && |e.forward| == e.levels
    requires IsGrown(s, t, p, e) && IsGrown(h, g, p, e.levels)
    requires forall i {:trigger s[i].forward[l]} :: 0 <= i < |s| && l < h[i] && (i != LastAt(h, p, l) || e.levels <= l)
                         ==> s[i].forward[l] == At(s, NextAt(h, i + 1, l))
    requires l < e.levels ==> e.forward[l] == At(s, NextAt(h, p + 1, l)) && s[LastAt(h, p, l)].forward[l] == e
    ensures Linked(t, g, l)
  {
    forall i | 0 <= i < |t| && l < g[i]
      ensures t[i].forward[l] == At(t, NextAt(g, i + 1, l))
    {
      GrownNext(h, g, p, e.levels, i, l);
    }
  }

  /** Level `l` of the shrunk spine `s`, given the links of the entries that stay. */
  lemma ShrunkLinked(s: seq<Entry>, h: seq<nat>, t: seq<Entry>, g: seq<nat>, p: nat, e: Entry, l: nat)
    requires Sized(s, h) && Sized(t, g) && h[0] > l
    requires IsGrown(s, t, p, e) && IsGrown(h, g, p, e.levels)
    requires forall i {:trigger t[i].forward[l]} ::
               0 <= i < |t| && l < g[i] && i != p + 1 && (i != LastAt(h, p, l) || e.levels <= l) ==>
                 t[i].forward[l] == At(t, NextAt(g, i + 1, l))
    requires l < e.levels ==> s[LastAt(h, p, l)].forward[l] == At(t, NextAt(g, p + 2, l))
    ensures Linked(s, h, l)
  {
    forall i | 0 <= i < |s| && l < h[i]
      ensures s[i].forward[l] == At(s, NextAt(h, i + 1, l))
    {
      ShrunkNext(h, g, p, e.levels, i, l);
      GrownAt(s, t, p, e, NextAt(h, i + 1, l));
      var k := if i <= p then i else i + 1;
      assert t[k] == s[i] && g[k] == h[i];
      assert t[k].forward[l] == s[i].forward[l];
    }
  }

  /** Levels other than `i` stay linked when every entry keeps its other links. */
  twostate lemma StillLinked(s: seq<Entry>, new h: seq<nat>, new i: nat)
    requires old(Sized(s, h))
    requires forall k :: 0 <= k < |s| ==> |s[k].forward| == old(|s[k].forward|)
    requires forall k, l {:trigger s[k].forward[l]} :: 0 <= k < |s| && 0 <= l < h[k] && l != i ==>
               s[k].forward[l] == old(s[k].forward[l])
    ensures forall l :: 0 <= l != i && old(Linked(s, h, l)) ==> Linked(s, h, l)
  {
  }

  /** One turn of the fix-up loop of drmSLInsert. */
  method SpliceLevel(ghost s: seq<Entry>, ghost h: seq<nat>, ghost t: seq<Entry>, ghost g: seq<nat>,
                     ghost p: nat, e: Entry, pred: Entry, i: nat)
    requires Sized(s, h) && Sized(t, g) && Distinct(s) && e !in s && h[0] > i
    requires |e.forward| == e.levels > i
    requires IsGrown(s, t, p, e) && IsGrown(h, g, p, e.levels)
    requires Linked(s, h, i) && pred == s[LastAt(h, p, i)]
    modifies pred, e
    ensures Sized(s, h) && Sized(t, g) && |e.forward| == e.levels
    ensures Linked(t, g, i)
    ensures forall l :: 0 <= l != i && old(Linked(t, g, l)) ==> Linked(t, g, l)
    ensures forall l :: 0 <= l != i && old(Linked(s, h, l)) ==> Linked(s, h, l)
  {
    e.forward := e.forward[i := pred.forward[i]];
    pred.forward := pred.forward[i := e];
    StillLinked(s, h, i);
    StillLinked(t, g, i);
    PredecessorNext(h, p, i);
    GrownLinked(s, h, t, g, p, e, i);
  }

  /** The pointer fix-up loop of drmSLInsert: links `e` into levels 0..level. */
  method Splice(ghost s: seq<Entry>, ghost h: seq<nat>, ghost t: seq<Entry>, ghost g: seq<nat>,
                ghost p: nat, e: Entry, level: nat, update: array<Entry?>)
    requires Sized(s, h) && Distinct(s) && e !in s && h[0] == MAX_LEVEL + 1
    requires e.levels == level + 1 == |e.forward| <= MAX_LEVEL + 1 && update.Length == MAX_LEVEL + 1
    requires IsGrown(s, t, p, e) && IsGrown(h, g, p, e.levels)
    requires forall l :: 0 <= l <= MAX_LEVEL ==> Linked(s, h, l)
    requires forall l :: 0 <= l <= level ==> update[l] == s[LastAt(h, p, l)]
    modifies s, e
    ensures Sized(t, g)
    ensures forall l :: 0 <= l <= MAX_LEVEL ==> Linked(t, g, l)
  {
    assert t[p + 1] == e;
    for i := 0 to level + 1
      invariant Sized(s, h) && Sized(t, g) && |e.forward| == e.levels
      invariant forall l :: 0 <= l < i ==> Linked(t, g, l)
      invariant forall l :: i <= l <= MAX_LEVEL ==> Linked(s, h, l)
    {
      SpliceLevel(s, h, t, g, p, e, update[i], i);
    }
    forall l | level < l <= MAX_LEVEL
      ensures Linked(t, g, l)
    {
      assert Linked(s, h, l);
      GrownLinked(s, h, t, g, p, e, l);
    }
  }

  lemma LastUnique(h: seq<nat>, g: seq<nat>, p: nat, l: nat)
    requires p < |h| && p < |g| && h[0] > l && (forall j :: 0 <= j <= p ==> h[j] == g[j])
    ensures LastAt(h, p, l) == LastAt(g, p, l)
  {
  }

  /** One turn of the fix-up loop of drmSLDelete: `t` is the spine with `e`, `s` the one without. */
  method UnlinkLevel(ghost s: seq<Entry>, ghost h: seq<nat>, ghost t: seq<Entry>, ghost g: seq<nat>,
                     ghost p: nat, e: Entry, pred: Entry, i: nat)
    requires Sized(s, h) && Sized(t, g) && Distinct(t) && h[0] > i
    requires |e.forward| == e.levels && |pred.forward| > i
    requires IsGrown(s, t, p, e) && IsGrown(h, g, p, e.levels)
    requires Linked(t, g, i) && pred == s[LastAt(h, p, i)] && pred != e
    modifies pred
    ensures Sized(s, h) && Sized(t, g) && |pred.forward| == old(|pred.forward|)
    ensures Linked(s, h, i)
    ensures forall l :: 0 <= l != i && old(Linked(t, g, l)) ==> Linked(t, g, l)
    ensures forall l :: 0 <= l != i && old(Linked(s, h, l)) ==> Linked(s, h, l)
  {
    hide NextAt, LastAt;
    ghost var j := LastAt(h, p, i);
    assert t[j] == pred && t[p + 1] == e;
    assert pred.forward[i] == t[j].forward[i];
    GrownNext(h, g, p, e.levels, j, i);
    assert e.levels > i ==> e.forward[i] == t[p + 1].forward[i];
    if pred.forward[i] == e {
      pred.forward := pred.forward[i := e.forward[i]];
    }
    StillLinked(s, h, i);
    StillLinked(t, g, i);
    ShrunkLinked(s, h, t, g, p, e, i);
  }

  lemma ShrunkHeights(h: seq<nat>, g: seq<nat>, p: nat, x: nat, level: nat)
    requires IsGrown(h, g, p, x) && level <= MAX_LEVEL && h[0] > MAX_LEVEL
    requires forall i :: 1 <= i < |g| ==> 2 <= g[i] <= level + 1
    ensures forall i :: 1 <= i < |h| ==> 2 <= h[i] <= level + 1
    ensures forall l :: 0 <= l <= level ==> LastAt(h, p, l) == LastAt(g, p, l)
  {
    assert forall i :: 0 <= i < |h| ==> h[i] == g[if i <= p then i else i + 1];
    forall l | 0 <= l <= level
      ensures LastAt(h, p, l) == LastAt(g, p, l)
    {
      LastUnique(h, g, p, l);
    }
  }

  lemma ShrunkSized(s: seq<Entry>, h: seq<nat>, t: seq<Entry>, g: seq<nat>, p: nat, e: Entry)
    requires Sized(t, g) && IsGrown(s, t, p, e) && IsGrown(h, g, p, e.levels)
    ensures Sized(s, h) && h[0] == g[0]
    ensures forall i :: 0 <= i <= p ==> s[i] == t[i]
  {
    assert g[0] == h[0];
    forall i | 0 <= i < |s|
      ensures |s[i].forward| == s[i].levels == h[i]
    {
      var k := if i <= p then i else i + 1;
      assert t[k] == s[i] && g[k] == h[i];
    }
    assert forall i :: 0 <= i <= p ==> t[i] == s[i];
  }

  /** The pointer fix-up loop of drmSLDelete: takes `e` out of levels 0..level. */
  method Unlink(ghost s: seq<Entry>, ghost h: seq<nat>, ghost t: seq<Entry>, ghost g: seq<nat>,
                ghost p: nat, e: Entry, level: nat, update: array<Entry?>)
    requires Sized(s, h) && Sized(t, g) && Distinct(t) && h[0] == MAX_LEVEL + 1
    requires e.levels <= level + 1 <= MAX_LEVEL + 1 && update.Length == MAX_LEVEL + 1
    requires IsGrown(s, t, p, e) && IsGrown(h, g, p, e.levels)
    requires forall l :: 0 <= l <= MAX_LEVEL ==> Linked(t, g, l)
    requires forall l :: 0 <= l <= level ==> update[l] == s[LastAt(h, p, l)]
    modifies s
    ensures Sized(s, h)
    ensures forall l :: 0 <= l <= MAX_LEVEL ==> Linked(s, h, l)
  {
    assert t[p + 1] == e;
    for i := 0 to level + 1
      invariant Sized(s, h) && Sized(t, g)
      invariant forall l :: 0 <= l < i ==> Linked(s, h, l)
      invariant forall l :: i <= l <= MAX_LEVEL ==> Linked(t, g, l)
    {
      assert t[LastAt(h, p, i)] == s[LastAt(h, p, i)];
      UnlinkLevel(s, h, t, g, p, e, update[i], i);
    }
    forall l | level < l <= MAX_LEVEL
      ensures Linked(s, h, l)
    {
      assert Linked(t, g, l);
      ShrunkLinked(s, h, t, g, p, e, l);
    }
  }

  /** Entries on a sorted spine are distinct objects. */
  lemma SortedDistinct(s: seq<Entry>)
    requires Sorted(s) && (forall i :: 1 <= i < |s| ==> s[i] != s[0])
    ensures Distinct(s)
  {
    forall i, j | 0 <= i < j < |s|
      ensures s[i] != s[j]
    {
      if i > 0 {
        assert s[i].key < s[j].key;
      }
    }
  }

  lemma GrownOrdered(s: seq<Entry>, t: seq<Entry>, p: nat, e: Entry)
    requires IsGrown(s, t, p, e) && IsRank(s, e.key, p) && Sorted(s) && e !in s
    requires forall i :: 1 <= i < |s| ==> s[i] != s[0]
    requires forall i :: 1 <= i < |s| ==> s[i].key != e.key
    ensures Sorted(t) && forall i :: 1 <= i < |t| ==> t[i] != t[0]
  {
  }

  lemma GrownRepresents(s: seq<Entry>, t: seq<Entry>, p: nat, e: Entry, m: map<nat, Pointer>)
    requires IsGrown(s, t, p, e) && Represents(s, m) && e.key !in m
    ensures Represents(t, m[e.key := e.value])
  {
    var n := m[e.key := e.value];
    assert t[p + 1] == e;
    forall k | k in n
      ensures exists i :: 1 <= i < |t| && t[i].key == k
    {
      if k != e.key {
        var i :| 1 <= i < |s| && s[i].key == k;
        assert t[if i <= p then i else i + 1] == s[i];
      }
    }
  }

  lemma ShrunkOrdered(s: seq<Entry>, t: seq<Entry>, p: nat, e: Entry)
    requires IsGrown(s, t, p, e) && Sorted(t) && Distinct(t)
    ensures Sorted(s) && forall i :: 1 <= i < |s| ==> s[i] != s[0]
    ensures forall i :: 0 <= i < |s| ==> s[i] in t && s[i] != e
  {
    assert t[p + 1] == e;
    assert forall i :: 0 <= i < |s| ==> s[i] == t[if i <= p then i else i + 1];
  }

  lemma ShrunkRepresents(s: seq<Entry>, t: seq<Entry>, p: nat, e: Entry, m: map<nat, Pointer>)
    requires IsGrown(s, t, p, e) && Represents(t, m) && Sorted(t)
    ensures Represents(s, m - {e.key})
  {
    assert t[p + 1] == e;
    forall i | 1 <= i < |s|
      ensures s[i].key in m && s[i].key != e.key && m[s[i].key] == s[i].value
    {
      var k := if i <= p then i else i + 1;
      assert t[k] == s[i] && t[k].key != t[p + 1].key;
    }
    forall k | k in m && k != e.key
      ensures exists i :: 1 <= i < |s| && s[i].key == k
    {
      var i :| 1 <= i < |t| && t[i].key == k;
      assert s[if i <= p then i else i - 1] == t[i];
    }
  }

  /** The order, the heights and the links of a spine whose top level in use is `level`. */
  ghost predicate Wired(s: seq<Entry>, h: seq<nat>, level: int)
    reads s
  {
    && Sized(s, h) && h[0] == MAX_LEVEL + 1
    && Sorted(s) && (forall i :: 1 <= i < |s| ==> s[i] != s[0])
    && (forall l :: 0 <= l <= MAX_LEVEL ==> Linked(s, h, l))
    && (forall i :: 1 <= i < |h| ==> 2 <= h[i] <= level + 1)
  }

  /** The part of drmSLInsert that creates the entry and links it in, for an absent key. */
  method Place(ghost s: seq<Entry>, ghost h: seq<nat>, level: nat, update: array<Entry?>, ghost p: nat,
               key: nat, value: Pointer, lv: nat)
    returns (e: Entry, ghost t: seq<Entry>, ghost g: seq<nat>)
    requires Wired(s, h, level) && level <= MAX_LEVEL
    requires update.Length == MAX_LEVEL + 1 && 1 <= lv <= level
    requires IsRank(s, key, p) && forall i :: 1 <= i < |s| ==> s[i].key != key
    requires forall l :: 0 <= l <= lv ==> update[l] == s[LastAt(h, p, l)]
    modifies s
    ensures fresh(e) && e.key == key && e.value == value && e.levels == lv + 1
    ensures IsGrown(s, t, p, e) && IsGrown(h, g, p, e.levels)
    ensures Wired(t, g, level)
  {
    e := new Entry(lv, key, value);
    t := MakeGrown(s, p, e);
    g := MakeGrown(h, p, e.levels);
    SortedDistinct(s);
    GrownOrdered(s, t, p, e);
    Splice(s, h, t, g, p, e, lv, update);
  }

  /** The level that SLRandomLevel reaches from `level` with generator state `seed`. */
  ghost function CoinLevel(seed: int, level: nat): (r: nat)
    requires level <= MAX_LEVEL
    ensures level <= r <= MAX_LEVEL
    decreases MAX_LEVEL - level
  {
    if Step(seed) % 2 == 1 && level < MAX_LEVEL then CoinLevel(Step(seed), level + 1) else level
  }

  method RandomLevel(rng: RandomState) returns (level: nat)
    requires rng.Valid()
    modifies rng
    ensures rng.Valid()
    ensures level == CoinLevel(old(rng.seed), 1) && rng.seed == Iterate(old(rng.seed), level)
    ensures forall i :: 1 <= i < level ==> Iterate(old(rng.seed), i) % 2 == 1
    ensures 1 <= level <= 16 && (level < 16 ==> Iterate(old(rng.seed), level) % 2 == 0)
  {
    hide Step;
    level := 1;
    assert Iterate(rng.seed, 1) == Step(Iterate(rng.seed, 0));
    var coin := rng.Draw();
    while coin % 2 == 1 && level < MAX_LEVEL
      invariant rng.Valid() && 1 <= level <= MAX_LEVEL && coin == rng.seed == Iterate(old(rng.seed), level)
      invariant forall i :: 1 <= i < level ==> Iterate(old(rng.seed), i) % 2 == 1
      invariant CoinLevel(old(rng.seed), 1)
             == if coin % 2 == 1 && level < MAX_LEVEL then CoinLevel(coin, level + 1) else level
      decreases MAX_LEVEL - level
    {
      level := level + 1;
      coin := rng.Draw();
    }
  }

  /** The first `n` keys and values of a spine. */
  ghost function Items(s: seq<Entry>, n: nat): (out: seq<(nat, Pointer)>)
    requires n < |s|
    ensures |out| == n
    ensures forall i :: 0 <= i < n ==> out[i] == (s[i + 1].key, s[i + 1].value)
  {
    if n == 0 then [] else Items(s, n - 1) + [(s[n].key, s[n].value)]
  }

  /** A sorted spine written out is the map it represents, in key order. */
  lemma ItemsList(s: seq<Entry>, m: map<nat, Pointer>)
    requires |s| > 0 && Sorted(s) && Represents(s, m)
    ensures var out := Items(s, |s| - 1);
            && (forall i, j :: 0 <= i < j < |out| ==> out[i].0 < out[j].0)
            && (forall k, v :: (k, v) in out <==> k in m && m[k] == v)
  {
    var out := Items(s, |s| - 1);
    forall k, v
      ensures (k, v) in out <==> k in m && m[k] == v
    {
      if k in m {
        var i :| 1 <= i < |s| && s[i].key == k;
        assert out[i - 1] == (k, m[k]);
      }
    }
  }

  /** Chooses the new entry's top level; at most one new level comes into use. */
  method ChooseLevel(ghost s: seq<Entry>, ghost h: seq<nat>, head: Entry, top: nat,
                     update: array<Entry?>, ghost p: nat, drawn: nat)
    returns (level: nat, lv: nat)
    requires |s| == |h| && p < |h| && h[0] == MAX_LEVEL + 1 && head == s[0] && 1 <= drawn <= MAX_LEVEL
    requires forall i :: 1 <= i < |h| ==> h[i] <= top + 1
    requires update.Length == MAX_LEVEL + 1 && top <= MAX_LEVEL
    requires forall l :: 0 <= l <= top ==> update[l] == s[LastAt(h, p, l)]
    modifies update
    ensures top <= level <= MAX_LEVEL && 1 <= lv <= level
    ensures if drawn > top then level == lv == top + 1 else level == top && lv == drawn
    ensures forall l :: 0 <= l <= lv ==> update[l] == s[LastAt(h, p, l)]
  {
    level := top;
    lv := drawn;
    if lv > level {
      level := level + 1;
      lv := level;
      update[lv] := head;
      assert LastAt(h, p, lv) == 0;
    }
  }

  /** drmSLInsert after the search, for an absent key. */
  method AddEntry(ghost s: seq<Entry>, ghost h: seq<nat>, ghost m: map<nat, Pointer>, head: Entry, top: nat,
                  update: array<Entry?>, ghost p: nat, key: nat, value: Pointer, drawn: nat)
    returns (level: nat, ghost t: seq<Entry>, ghost g: seq<nat>)
    requires Wired(s, h, top) && top <= MAX_LEVEL && head == s[0] && 1 <= drawn <= MAX_LEVEL
    requires top > 0 ==> NextAt(h, 1, top) < |h|
    requires update.Length == MAX_LEVEL + 1
    requires IsRank(s, key, p) && (p + 1 < |s| ==> s[p + 1].key != key)
    requires Represents(s, m)
    requires forall l :: 0 <= l <= top ==> update[l] == s[LastAt(h, p, l)]
    modifies s, update
    ensures level == if drawn > top then top + 1 else top
    ensures Wired(t, g, level) && NextAt(g, 1, level) < |g|
    ensures |t| == |s| + 1 && t[0] == head
    ensures key !in m && Represents(t, m[key := value])
    ensures forall x :: x in t ==> x in s || fresh(x)
  {
    Absent(s, key, p);
    var lv;
    level, lv := ChooseLevel(s, h, head, top, update, p, drawn);
    assert Wired(s, h, level);
    var e;
    e, t, g := Place(s, h, level, update, p, key, value, lv);
    GrownTop(h, g, p, e.levels, level);
    GrownRepresents(s, t, p, e, m);
    assert t[0] == s[0];
  }

  /** The part of drmSLDelete that unlinks the entry behind index `p`. */
  method Remove(ghost t: seq<Entry>, ghost g: seq<nat>, level: nat, update: array<Entry?>, ghost p: nat, e: Entry)
    returns (ghost s: seq<Entry>, ghost h: seq<nat>)
    requires Wired(t, g, level) && level <= MAX_LEVEL
    requires update.Length == MAX_LEVEL + 1 && p + 1 < |t| && e == t[p + 1]
    requires forall l :: 0 <= l <= level ==> update[l] == t[LastAt(g, p, l)]
    modifies t
    ensures IsGrown(s, t, p, e) && Wired(s, h, level)
    ensures e !in s && forall x :: x in s ==> x in t
  {
    s := MakeShrunk(t, p);
    h := MakeShrunk(g, p);
    SortedDistinct(t);
    ShrunkOrdered(s, t, p, e);
    ShrunkHeights(h, g, p, e.levels, level);
    ShrunkSized(s, h, t, g, p, e);
    assert s[..p + 1] == t[..p + 1];
    Unlink(s, h, t, g, p, e, level, update);
  }

  /** Marks an unlinked entry, which leaves the links of the others alone. */
  method MarkFreed(ghost s: seq<Entry>, ghost h: seq<nat>, level: nat, e: Entry)
    requires Wired(s, h, level) && e !in s
    modifies e`magic
    ensures Wired(s, h, level) && e.magic == FREED_MAGIC
  {
    e.magic := FREED_MAGIC;
    assert Wired(s, h, level);
  }

  /** The final loop of drmSLDelete: lowers the top level while the head has no link there. */
  method LowerTop(ghost s: seq<Entry>, ghost h: seq<nat>, head: Entry, from: nat) returns (level: nat)
    requires Wired(s, h, from) && from <= MAX_LEVEL && head == s[0]
    ensures level <= from && Wired(s, h, level)
    ensures level > 0 ==> NextAt(h, 1, level) < |h|
  {
    level := from;
    while level > 0 && head.forward[level] == null
      invariant level <= from && Wired(s, h, level)
    {
      assert Linked(s, h, level);
      assert s[0].forward[level] == null;
      level := level - 1;
    }
    if level > 0 {
      assert Linked(s, h, level);
      assert s[0].forward[level] != null;
    }
  }

  /** drmSLDelete after the search, for the entry found. */
  method DropEntry(ghost t: seq<Entry>, ghost g: seq<nat>, ghost m: map<nat, Pointer>, head: Entry, level: nat,
                   update: array<Entry?>, ghost p: nat, e: Entry)
    returns (top: nat, ghost s: seq<Entry>, ghost h: seq<nat>)
    requires Wired(t, g, level) && level <= MAX_LEVEL && head == t[0] && Represents(t, m)
    requires update.Length == MAX_LEVEL + 1 && p + 1 < |t| && e == t[p + 1]
    requires forall l :: 0 <= l <= level ==> update[l] == t[LastAt(g, p, l)]
    modifies t
    ensures Wired(s, h, top) && top <= level && (top > 0 ==> NextAt(h, 1, top) < |h|)
    ensures |s| == |t| - 1 && s[0] == head && e.magic == FREED_MAGIC
    ensures Represents(s, m - {e.key})
    ensures forall x :: x in s ==> x in t
  {
    s, h := Remove(t, g, level, update, p, e);
    assert t[0] == s[0];
    ShrunkRepresents(s, t, p, e, m);
    MarkFreed(s, h, level, e);
    top := LowerTop(s, h, head, level);
  }

  // ---- The list ---------------------------------------------------------------------------------

  class SkipList {
    var magic: int
    var level: int
    var count: int
    var head: Entry
    var p0: Entry?
    ghost var spine: seq<Entry>
    ghost var heights: seq<nat>
    ghost var contents: map<nat, Pointer>

    ghost predicate Shape()
      reads `level, `head, `spine, `heights, spine
    {
      Wired(spine, heights, level) && spine[0] == head && 0 <= level <= MAX_LEVEL
    }

    /** All that the list promises between calls. */
    ghost predicate Valid()
      reads `magic, `level, `count, `head, `spine, `heights, `contents, spine
    {
      && magic == LIST_MAGIC
      && Shape()
      && (level > 0 ==> NextAt(heights, 1, level) < |heights|)
      && count == |spine| - 1
      && Represents(spine, contents)
    }

    /** drmSLCreate; the iteration pointer is left as allocated. */
    constructor ()
      ensures Valid() && fresh(head) && spine == [head]
      ensures contents == map[]
    {
      magic := LIST_MAGIC;
      level := 0;
      var h := new Entry(MAX_LEVEL, 0, 0);
      head := h;
      count := 0;
      p0 := null;
      spine := [h];
      heights := [h.levels];
      contents := map[];
    }

    /** The inner loop of SLLocate: runs along level `i` up to the last entry below `key`. */
    method Advance(key: nat, i: nat, from: Entry, ghost j0: nat, ghost p: nat) returns (e: Entry, ghost j: nat)
      requires Shape() && IsRank(spine, key, p) && i <= level
      requires j0 <= p && from == spine[j0] && heights[j0] > i
      ensures j == LastAt(heights, p, i) && e == spine[j]
    {
      e, j := from, j0;
      assert Linked(spine, heights, i);
      while e.forward[i] != null && e.forward[i].key < key
        invariant j <= p && e == spine[j] && heights[j] > i
        decreases p - j
      {
        j := NextAt(heights, j + 1, i);
        e := e.forward[i];
      }
    }

    /** The outer loop of SLLocate: fills `update` from the top level down. */
    method Descend(key: nat, update: array<Entry?>, ghost p: nat) returns (e: Entry)
      requires Shape() && IsRank(spine, key, p)
      requires update.Length == MAX_LEVEL + 1
      modifies update
      ensures e == spine[LastAt(heights, p, 0)]
      ensures forall l :: 0 <= l <= level ==> update[l] == spine[LastAt(heights, p, l)]
    {
      ghost var j: nat := 0;
      e := head;
      var i := level;
      while i >= 0
        invariant -1 <= i <= level
        invariant j <= p && e == spine[j] && heights[j] > i
        invariant i < 0 ==> j == LastAt(heights, p, 0)
        invariant forall l :: i < l <= level ==> update[l] == spine[LastAt(heights, p, l)]
      {
        e, j := Advance(key, i, e, j, p);
        update[i] := e;
        i := i - 1;
      }
    }

    /** SLLocate: the last entry below `key` at every level in use, and its successor at level 0. */
    method Locate(key: nat, update: array<Entry?>) returns (entry: Entry?, ghost p: nat)
      requires magic == LIST_MAGIC ==> Shape()
      requires update.Length == MAX_LEVEL + 1
      modifies update
      ensures magic != LIST_MAGIC ==> entry == null
      ensures magic == LIST_MAGIC ==>
                && IsRank(spine, key, p) && entry == At(spine, p + 1)
                && forall l :: 0 <= l <= level ==> update[l] == spine[LastAt(heights, p, l)]
    {
      p := 0;
      if magic != LIST_MAGIC {
        return null, p;
      }
      p := FindRank(spine, key);
      var e := Descend(key, update, p);
      assert Linked(spine, heights, 0);
      assert heights[p] > 0;
      NextUnique(heights, p + 1, 0, p + 1);
      entry := e.forward[0];
    }

    /** Records a new top level and, as ghosts, the spine and the map that the links now stand for. */
    method Adopt(top: nat, size: nat, ghost t: seq<Entry>, ghost g: seq<nat>, ghost m: map<nat, Pointer>)
      requires magic == LIST_MAGIC && Wired(t, g, top) && top <= MAX_LEVEL && t[0] == head
      requires (top > 0 ==> NextAt(g, 1, top) < |g|) && size == |t| - 1 && Represents(t, m)
      modifies this
      ensures Valid() && head == old(head) && spine == t && contents == m
    {
      level, count := top, size;
      spine, heights, contents := t, g, m;
      assert Wired(t, g, top);
    }

    /** The search that drmSLInsert, drmSLDelete and drmSLLookup begin with. */
    method Search(key: nat) returns (found: Entry?, update: array<Entry?>, ghost p: nat)
      requires Valid()
      ensures fresh(update) && update.Length == MAX_LEVEL + 1 && IsRank(spine, key, p)
      ensures forall l :: 0 <= l <= level ==> update[l] == spine[LastAt(heights, p, l)]
      ensures found != null <==> key in contents
      ensures found != null ==>
                p + 1 < |spine| && found == spine[p + 1] && found.key == key && found.value == contents[key]
      ensures found == null ==> (p + 1 < |spine| ==> spine[p + 1].key != key) && contents - {key} == contents
    {
      update := new Entry?[MAX_LEVEL + 1];
      found, p := Locate(key, update);
      if found != null && found.key == key {
        assert found.key in contents;
      } else {
        AbsentKey(spine, key, p, contents);
        found := null;
      }
    }

    /** The branch of drmSLInsert for an absent key, whatever level was drawn for it. */
    method InsertAbsent(key: nat, value: Pointer, update: array<Entry?>, ghost p: nat, drawn: nat)
      requires Valid() && 1 <= drawn <= MAX_LEVEL && update.Length == MAX_LEVEL + 1
      requires IsRank(spine, key, p) && (p + 1 < |spine| ==> spine[p + 1].key != key)
      requires forall l :: 0 <= l <= level ==> update[l] == spine[LastAt(heights, p, l)]
      modifies this, spine, update
      ensures Valid() && head == old(head)
      ensures key !in old(contents) && contents == old(contents)[key := value]
      ensures forall x :: x in spine ==> x in old(spine) || fresh(x)
    {
      var top, t, g := AddEntry(spine, heights, contents, head, level, update, p, key, value, drawn);
      Adopt(top, count + 1, t, g, contents[key := value]);
    }

    /** drmSLInsert with the level that is drawn if the key is absent. */
    method InsertAt(key: nat, value: Pointer, drawn: nat) returns (r: int)
      requires Valid() && 1 <= drawn <= MAX_LEVEL
      modifies this, spine
      ensures Valid() && head == old(head)
      ensures r == if key in old(contents) then 1 else 0
      ensures contents == if key in old(contents) then old(contents) else old(contents)[key := value]
      ensures forall x :: x in spine ==> x in old(spine) || fresh(x)
    {
      var found, update, p := Search(key);
      if found != null {
        return 1;
      }
      InsertAbsent(key, value, update, p, drawn);
      return 0;
    }

    /** drmSLInsert: map insertion that refuses a key already present. */
    method Insert(key: nat, value: Pointer, rng: RandomState) returns (r: int)
      requires magic == LIST_MAGIC ==> Valid()
      requires rng.Valid()
      modifies this, spine, rng
      ensures rng.Valid()
      ensures old(magic) != LIST_MAGIC ==> r == -1 && unchanged(this)
      ensures old(magic) == LIST_MAGIC ==> Valid() && head == old(head)
      ensures old(magic) == LIST_MAGIC && key in old(contents) ==> r == 1 && contents == old(contents)
      ensures old(magic) == LIST_MAGIC && key !in old(contents) ==> r == 0 && contents == old(contents)[key := value]
      ensures forall x :: x in spine ==> x in old(spine) || fresh(x)
    {
      if magic != LIST_MAGIC {
        return -1;
      }
      var found, update, p := Search(key);
      if found != null {
        return 1;
      }
      var drawn := RandomLevel(rng);
      assert Valid();
      InsertAbsent(key, value, update, p, drawn);
      return 0;
    }

    /** The branch of drmSLDelete for a key that is present. */
    method DeletePresent(entry: Entry, update: array<Entry?>, ghost p: nat)
      requires Valid() && update.Length == MAX_LEVEL + 1 && p + 1 < |spine| && entry == spine[p + 1]
      requires forall l :: 0 <= l <= level ==> update[l] == spine[LastAt(heights, p, l)]
      modifies this, spine
      ensures Valid() && head == old(head) && entry.magic == FREED_MAGIC
      ensures contents == old(contents) - {entry.key}
      ensures forall x :: x in spine ==> x in old(spine)
    {
      var top, s, h := DropEntry(spine, heights, contents, head, level, update, p, entry);
      Adopt(top, count - 1, s, h, contents - {entry.key});
    }

    /** drmSLDelete: map removal. */
    method Delete(key: nat) returns (r: int)
      requires magic == LIST_MAGIC ==> Valid()
      modifies this, spine
      ensures old(magic) != LIST_MAGIC ==> r == -1 && unchanged(this)
      ensures old(magic) == LIST_MAGIC ==> Valid() && head == old(head)
      ensures old(magic) == LIST_MAGIC ==> r == if key in old(contents) then 0 else 1
      ensures old(magic) == LIST_MAGIC ==> contents == old(contents) - {key}
      ensures forall x :: x in spine ==> x in old(spine)
    {
      if magic != LIST_MAGIC {
        return -1;
      }
      var found, update, p := Search(key);
      if found == null {
        return 1;
      }
      DeletePresent(found, update, p);
      return 0;
    }

    /** drmSLLookup: hands out the entry itself, not its value. */
    method Lookup(key: nat) returns (r: int, value: Entry?)
      requires magic == LIST_MAGIC ==> Valid()
      ensures r == if magic == LIST_MAGIC && key in contents then 0 else -1
      ensures r == 0 ==> value != null && value in spine && value.key == key && value.value == contents[key]
      ensures r != 0 ==> value == null
    {
      if magic != LIST_MAGIC {
        return -1, null;
      }
      var found, update, p := Search(key);
      return if found != null then 0 else -1, found;
    }

    /** drmSLNext; `i` is the place on the spine that the iteration pointer stands for. */
    method Next(ghost i: nat) returns (r: int, key: nat, value: Pointer)
      requires magic == LIST_MAGIC ==> Valid() && p0 == At(spine, i)
      modifies this`p0
      ensures magic != LIST_MAGIC ==> r == -1 && p0 == old(p0)
      ensures magic == LIST_MAGIC ==> Valid()
      ensures magic == LIST_MAGIC ==> p0 == At(spine, i + 1) && r == if i < |spine| then 1 else 0
      ensures r == 1 ==> key == spine[i].key && value == spine[i].value
    {
      hide Represents, Sorted, NextAt;
      if magic != LIST_MAGIC {
        return -1, 0, 0;
      }
      var entry := p0;
      if entry != null {
        assert Linked(spine, heights, 0);
        assert entry == spine[i];
        NextUnique(heights, i + 1, 0, i + 1);
        p0 := entry.forward[0];
        return 1, entry.key, entry.value;
      }
      p0 := null;
      return 0, 0, 0;
    }

    /** drmSLFirst. */
    method First() returns (r: int, key: nat, value: Pointer)
      requires magic == LIST_MAGIC ==> Valid()
      modifies this`p0
      ensures magic != LIST_MAGIC ==> r == -1
      ensures magic == LIST_MAGIC ==> Valid()
      ensures magic == LIST_MAGIC ==> p0 == At(spine, 2) && r == if 1 < |spine| then 1 else 0
      ensures r == 1 ==> key == spine[1].key && value == spine[1].value
    {
      if magic != LIST_MAGIC {
        return -1, 0, 0;
      }
      assert Linked(spine, heights, 0);
      assert head == spine[0];
      NextUnique(heights, 1, 0, 1);
      p0 := head.forward[0];
      r, key, value := Next(1);
    }

    /** A traversal has listed `out` and holds the answer (r, key, value) of its latest call. */
    ghost predicate Listing(out: seq<(nat, Pointer)>, r: int, key: nat, value: Pointer)
      reads `p0, `spine, spine
    {
      && |out| < |spine| && out == Items(spine, |out|) && p0 == At(spine, |out| + 2)
      && r == (if |out| + 1 < |spine| then 1 else 0)
      && (r == 1 ==> key == spine[|out| + 1].key && value == spine[|out| + 1].value)
    }

    method ListOne(out: seq<(nat, Pointer)>, key: nat, value: Pointer)
      returns (longer: seq<(nat, Pointer)>, r: int, key': nat, value': Pointer)
      requires Valid() && Listing(out, 1, key, value)
      modifies `p0
      ensures Valid() && Listing(longer, r, key', value') && |longer| == |out| + 1
    {
      hide Wired, Represents, NextAt, Sorted, Linked, Sized;
      longer := out + [(key, value)];
      r, key', value' := Next(|out| + 2);
    }

    /** The traversal of the file's own print loop: every key once, in increasing order, with its value. */
    method List() returns (out: seq<(nat, Pointer)>)
      requires Valid()
      modifies `p0
      ensures Valid() && |out| == count
      ensures forall i, j :: 0 <= i < j < |out| ==> out[i].0 < out[j].0
      ensures forall k, v :: (k, v) in out <==> k in contents && contents[k] == v
    {
      ItemsList(spine, contents);
      out := [];
      var r, key, value := First();
      while r == 1
        invariant Valid() && Listing(out, r, key, value)
        decreases |spine| - |out|
      {
        out, r, key, value := ListOne(out, key, value);
      }
    }
  }

  // ---- Whole runs -------------------------------------------------------------------------------

  /** An operation; an insertion comes with the level that is drawn if the key is absent. */
  datatype Op = Insert(key: nat, value: Pointer, drawn: nat) | Delete(key: nat) | Lookup(key: nat)

  /** The levels that SLRandomLevel can return. */
  predicate IsOp(op: Op) {
    op.Insert? ==> 1 <= op.drawn <= MAX_LEVEL
  }

  /** What an operation on the finite map `m` returns. */
  function Reply(m: map<nat, Pointer>, op: Op): int {
    match op
    case Insert(k, _, _) => if k in m then 1 else 0
    case Delete(k) => if k in m then 0 else 1
    case Lookup(k) => if k in m then 0 else -1
  }

  function Effect(m: map<nat, Pointer>, op: Op): map<nat, Pointer> {
    match op
    case Insert(k, v, _) => if k in m then m else m[k := v]
    case Delete(k) => m - {k}
    case Lookup(_) => m
  }

  function Replies(m: map<nat, Pointer>, ops: seq<Op>): seq<int>
    decreases |ops|
  {
    if ops == [] then [] else [Reply(m, ops[0])] + Replies(Effect(m, ops[0]), ops[1..])
  }

  function Final(m: map<nat, Pointer>, ops: seq<Op>): map<nat, Pointer>
    decreases |ops|
  {
    if ops == [] then m else Final(Effect(m, ops[0]), ops[1..])
  }

  method Perform(list: SkipList, op: Op) returns (r: int)
    requires list.Valid() && IsOp(op)
    modifies list, list.spine
    ensures list.Valid()
    ensures r == Reply(old(list.contents), op) && list.contents == Effect(old(list.contents), op)
    ensures forall x :: x in list.spine ==> x in old(list.spine) || fresh(x)
  {
    match op
    case Insert(k, v, drawn) =>
      r := list.InsertAt(k, v, drawn);
    case Delete(k) =>
      r := list.Delete(k);
    case Lookup(k) =>
      var entry;
      r, entry := list.Lookup(k);
  }

  /** The keys of the first `n` entries are as many. */
  lemma {:induction false} KeyCount(s: seq<Entry>, n: nat)
    requires n < |s| && Sorted(s)
    ensures |set i | 1 <= i <= n :: s[i].key| == n
  {
    var keys := set i | 1 <= i <= n :: s[i].key;
    if n == 0 {
      assert keys == {};
    } else {
      KeyCount(s, n - 1);
      var fewer := set i | 1 <= i <= n - 1 :: s[i].key;
      assert keys == fewer + {s[n].key} && s[n].key !in fewer;
    }
  }

  /** A spine has one entry for each key of the map it stands for. */
  lemma SpineSize(s: seq<Entry>, m: map<nat, Pointer>)
    requires |s| > 0 && Sorted(s) && Represents(s, m)
    ensures |m| == |s| - 1
  {
    KeyCount(s, |s| - 1);
    assert m.Keys == set i | 1 <= i <= |s| - 1 :: s[i].key;
  }

  /**
   Any sequence of operations on a new list answers as a finite map would, whatever levels are
   drawn, and the count is the size of the map.
   */
  method Run(ops: seq<Op>) returns (list: SkipList, replies: seq<int>)
    requires forall i :: 0 <= i < |ops| ==> IsOp(ops[i])
    ensures fresh(list) && list.Valid() && list.count == |list.contents|
    ensures replies == Replies(map[], ops) && list.contents == Final(map[], ops)
  {
    list := new SkipList();
    replies := [];
    for i := 0 to |ops|
      invariant fresh(list) && list.Valid()
      invariant fresh(list.spine)
      invariant replies + Replies(list.contents, ops[i..]) == Replies(map[], ops)
      invariant Final(list.contents, ops[i..]) == Final(map[], ops)
    {
      var r := Perform(list, ops[i]);
      forall k | 0 <= k < |list.spine|
        ensures fresh(list.spine[k])
      {
        assert list.spine[k] in list.spine;
      }
      replies := replies + [r];
    }
    SpineSize(list.spine, list.contents);
  }
}

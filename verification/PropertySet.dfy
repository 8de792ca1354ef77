/**
 The atomic property set of external/libdrm/xf86drmMode.c: a linked list kept sorted by
 (object, property), its three counters, and the arrays that a commit flattens it into.

 `Entries` reads the list as a sequence of values.  Both add operations are proved against
 `Placed` on that sequence; the flattened arrays decode back to it.
 */
module PropertySet {
  import opened Collections

  const EINVAL: int := 22

  /** One property assignment; for a blob, `value` is its length and `blob` its address. */
  datatype Entry = Entry(obj: nat, prop: nat, isBlob: bool, value: nat, blob: nat)

  class Item {
    const objectId: nat
    const propertyId: nat
    const isBlob: bool
    var value: nat
    var blob: nat
    var next: Item?

    constructor (objectId: nat, propertyId: nat, isBlob: bool, value: nat, blob: nat, next: Item?)
      ensures this.objectId == objectId && this.propertyId == propertyId && this.isBlob == isBlob
      ensures this.value == value && this.blob == blob && this.next == next
    {
      this.objectId, this.propertyId, this.isBlob := objectId, propertyId, isBlob;
      this.value, this.blob, this.next := value, blob, next;
    }
  }

  // ---- Sequences of entries ------------------------------------------------------------------------

  predicate Before(obj: nat, prop: nat, obj': nat, prop': nat) {
    obj < obj' || (obj == obj' && prop < prop')
  }

  /** Strictly increasing in (object, property). */
  predicate Sorted(es: seq<Entry>) {
    forall i, j :: 0 <= i < j < |es| ==> Before(es[i].obj, es[i].prop, es[j].obj, es[j].prop)
  }

  ghost function Objects(es: seq<Entry>): set<nat> {
    set i | 0 <= i < |es| :: es[i].obj
  }

  /** The addresses of the blob entries, in order. */
  function Blobs(es: seq<Entry>): seq<nat> {
    if es == [] then []
    else
      var rest, e := Blobs(es[..|es| - 1]), es[|es| - 1];
      if e.isBlob then rest + [e.blob] else rest
  }

  /** `k` is where (obj, prop) belongs: everything before it is smaller, nothing from it on is. */
  predicate IsSlot(es: seq<Entry>, obj: nat, prop: nat, k: nat) {
    && k <= |es|
    && (forall i :: 0 <= i < k ==> Before(es[i].obj, es[i].prop, obj, prop))
    && (forall i :: k <= i < |es| ==> !Before(es[i].obj, es[i].prop, obj, prop))
  }

  predicate Occupied(es: seq<Entry>, e: Entry, k: nat) {
    k < |es| && es[k].obj == e.obj && es[k].prop == e.prop
  }

  /** The entries after `e` has been put at its slot `k`, replacing an entry for the same property. */
  function Placed(es: seq<Entry>, e: Entry, k: nat): seq<Entry>
    requires k <= |es|
  {
    if Occupied(es, e, k) then es[k := e] else es[..k] + [e] + es[k..]
  }

  lemma PlacedSorted(es: seq<Entry>, e: Entry, k: nat)
    requires Sorted(es) && IsSlot(es, e.obj, e.prop, k)
    ensures Sorted(Placed(es, e, k))
  {
    var t := Placed(es, e, k);
    if Occupied(es, e, k) {
    } else {
      assert forall j :: 0 <= j < |t| ==> t[j] == if j < k then es[j] else if j == k then e else es[j - 1];
    }
  }

  /** As a map from (object, property), placing an entry is overwriting. */
  lemma PlacedMeans(es: seq<Entry>, e: Entry, k: nat, x: Entry)
    requires Sorted(es) && IsSlot(es, e.obj, e.prop, k)
    ensures x in Placed(es, e, k) <==> x == e || (x in es && (x.obj, x.prop) != (e.obj, e.prop))
  {
    var t := Placed(es, e, k);
    if x in es && (x.obj, x.prop) != (e.obj, e.prop) {
      var i :| 0 <= i < |es| && es[i] == x;
      assert t[if Occupied(es, e, k) || i < k then i else i + 1] == x;
    }
    assert t[k] == e;
    if x in t && x != e {
      var j :| 0 <= j < |t| && t[j] == x;
      var i := if Occupied(es, e, k) || j < k then j else j - 1;
      assert es[i] == x;
      if i < k {
        assert Before(x.obj, x.prop, e.obj, e.prop);
      } else if k < i {
        assert Before(es[k].obj, es[k].prop, x.obj, x.prop) && !Before(es[k].obj, es[k].prop, e.obj, e.prop);
      }
    }
  }

  /** The object is new exactly when neither neighbour of the slot has it. */
  lemma NewObject(es: seq<Entry>, obj: nat, prop: nat, k: nat)
    requires Sorted(es) && IsSlot(es, obj, prop, k)
    ensures obj !in Objects(es) <==> (k == 0 || es[k - 1].obj != obj) && (k == |es| || es[k].obj != obj)
  {
    if obj in Objects(es) {
      var i :| 0 <= i < |es| && es[i].obj == obj;
      if i < k - 1 {
        assert Before(es[i].obj, es[i].prop, es[k - 1].obj, es[k - 1].prop);
        assert Before(es[k - 1].obj, es[k - 1].prop, obj, prop);
      } else if i > k {
        assert Before(es[k].obj, es[k].prop, es[i].obj, es[i].prop);
        assert !Before(es[k].obj, es[k].prop, obj, prop);
      }
    }
  }

  lemma PlacedObjects(es: seq<Entry>, e: Entry, k: nat)
    requires k <= |es|
    ensures Objects(Placed(es, e, k)) == Objects(es) + {e.obj}
    ensures |Objects(Placed(es, e, k))| == |Objects(es)| + if e.obj in Objects(es) then 0 else 1
  {
    var t := Placed(es, e, k);
    forall o | o in Objects(es)
      ensures o in Objects(t)
    {
      var i :| 0 <= i < |es| && es[i].obj == o;
      assert t[if Occupied(es, e, k) || i < k then i else i + 1].obj == o;
    }
    forall o | o in Objects(t)
      ensures o in Objects(es) + {e.obj}
    {
      var j :| 0 <= j < |t| && t[j].obj == o;
      if j != k {
        assert es[if Occupied(es, e, k) || j < k then j else j - 1].obj == o;
      }
    }
    assert t[k].obj == e.obj;
    assert Objects(t) == Objects(es) + {e.obj};
    assert e.obj in Objects(es) ==> Objects(es) + {e.obj} == Objects(es);
  }

  lemma {:induction false} BlobsConcat(a: seq<Entry>, b: seq<Entry>)
    ensures Blobs(a + b) == Blobs(a) + Blobs(b)
  {
    if b == [] {
      assert a + b == a;
    } else {
      var c := b[..|b| - 1];
      assert (a + b)[..|a + b| - 1] == a + c;
      BlobsConcat(a, c);
    }
  }

  lemma BlobsAround(a: seq<Entry>, e: Entry, b: seq<Entry>)
    ensures |Blobs(a + [e] + b)| == |Blobs(a)| + (if e.isBlob then 1 else 0) + |Blobs(b)|
  {
    BlobsConcat(a, [e]);
    BlobsConcat(a + [e], b);
    assert [e][..0] == [];
    assert Blobs([e]) == if e.isBlob then [e.blob] else [];
  }

  /** The number of blobs grows with a new blob entry and stays when one is replaced by its kind. */
  lemma PlacedBlobs(es: seq<Entry>, e: Entry, k: nat)
    requires k <= |es| && (Occupied(es, e, k) ==> es[k].isBlob == e.isBlob)
    ensures |Blobs(Placed(es, e, k))| == |Blobs(es)| + if e.isBlob && !Occupied(es, e, k) then 1 else 0
  {
    if Occupied(es, e, k) {
      BlobsAround(es[..k], e, es[k + 1..]);
      BlobsAround(es[..k], es[k], es[k + 1..]);
      assert Placed(es, e, k) == es[..k] + [e] + es[k + 1..];
      assert es == es[..k] + [es[k]] + es[k + 1..];
    } else {
      BlobsAround(es[..k], e, es[k..]);
      BlobsConcat(es[..k], es[k..]);
      assert es == es[..k] + es[k..];
    }
  }

  // ---- The list --------------------------------------------------------------------------------------

  ghost function At(s: seq<Item>, i: nat): Item? {
    if i < |s| then s[i] else null
  }

  /** The links of the list from its sentinel: `s` holds the sentinel first, then the items. */
  ghost predicate Chained(s: seq<Item>)
    reads s
  {
    |s| > 0 && forall i {:trigger s[i].next} :: 0 <= i < |s| ==> s[i].next == At(s, i + 1)
  }

  ghost predicate Linked(s: seq<Item>)
    reads s
  {
    Chained(s) && forall i, j :: 0 <= i < j < |s| ==> s[i] != s[j]
  }

  ghost function EntryOf(x: Item): Entry
    reads x
  {
    Entry(x.objectId, x.propertyId, x.isBlob, x.value, x.blob)
  }

  /** The items behind the sentinel, as values. */
  ghost function Entries(s: seq<Item>): (es: seq<Entry>)
    requires |s| > 0
    reads s
    ensures |es| == |s| - 1
    ensures forall i :: 0 <= i < |es| ==> es[i] == EntryOf(s[i + 1])
  {
    seq(|s| - 1, i requires 0 <= i < |s| - 1 reads s => EntryOf(s[i + 1]))
  }

  /** The search loop that both add operations share: stops behind the last smaller entry. */
  method FindSlot(list: Item, objectId: nat, propertyId: nat, ghost s: seq<Item>) returns (prev: Item, ghost k: nat)
    requires Linked(s) && s[0] == list && Sorted(Entries(s))
    ensures k < |s| && prev == s[k] && IsSlot(Entries(s), objectId, propertyId, k)
  {
    ghost var es := Entries(s);
    prev, k := list, 0;
    while prev.next != null
      invariant k < |s| && prev == s[k]
      invariant forall i :: 0 <= i < k ==> Before(es[i].obj, es[i].prop, objectId, propertyId)
      decreases |s| - k
    {
      assert prev.next == s[k + 1] && es[k] == EntryOf(s[k + 1]);
      if prev.next.objectId > objectId {
        SlotFound(es, objectId, propertyId, k);
        return;
      }
      if prev.next.objectId == objectId && prev.next.propertyId >= propertyId {
        SlotFound(es, objectId, propertyId, k);
        return;
      }
      prev := prev.next;
      k := k + 1;
    }
  }

  lemma SlotFound(es: seq<Entry>, obj: nat, prop: nat, k: nat)
    requires Sorted(es) && k < |es| && !Before(es[k].obj, es[k].prop, obj, prop)
    requires forall i :: 0 <= i < k ==> Before(es[i].obj, es[i].prop, obj, prop)
    ensures IsSlot(es, obj, prop, k)
  {
    forall i | k < i < |es|
      ensures !Before(es[i].obj, es[i].prop, obj, prop)
    {
      assert Before(es[k].obj, es[k].prop, es[i].obj, es[i].prop);
    }
  }

  lemma SplicedEntries(s: seq<Item>, t: seq<Item>, k: nat, x: Item)
    requires IsGrown(s, t, k, x)
    ensures Entries(t) == Entries(s)[..k] + [EntryOf(x)] + Entries(s)[k..]
  {
    var u := Entries(s)[..k] + [EntryOf(x)] + Entries(s)[k..];
    forall i | 0 <= i < |u|
      ensures Entries(t)[i] == u[i]
    {
      assert Entries(t)[i] == EntryOf(t[i + 1]);
    }
  }

  /** Links a new item in behind `prev`. */
  method Splice(prev: Item, e: Entry, ghost s: seq<Item>, ghost k: nat) returns (item: Item, ghost t: seq<Item>)
    requires Linked(s) && k < |s| && prev == s[k]
    modifies prev
    ensures fresh(item) && Linked(t) && t[0] == s[0] && (forall y :: y in t ==> y == item || y in s)
    ensures Entries(t) == old(Entries(s))[..k] + [e] + old(Entries(s))[k..]
  {
    item := new Item(e.obj, e.prop, e.isBlob, e.value, e.blob, prev.next);
    t := MakeGrown(s, k, item);
    ghost var es := Entries(s);
    prev.next := item;
    assert Entries(s) == es;
    SplicedEntries(s, t, k, item);
    forall i | 0 <= i < |t|
      ensures t[i].next == At(t, i + 1)
    {
      if i < k {
        assert s[i].next == At(s, i + 1);
      } else if i > k + 1 {
        assert s[i - 1].next == At(s, i);
      }
    }
  }

  /** Overwrites value and blob of the item behind `prev`. */
  method Overwrite(item: Item, e: Entry, ghost s: seq<Item>, ghost k: nat)
    requires Linked(s) && k + 1 < |s| && item == s[k + 1]
    requires item.objectId == e.obj && item.propertyId == e.prop && item.isBlob == e.isBlob
    modifies item
    ensures Linked(s) && Entries(s) == old(Entries(s))[k := e]
  {
    ghost var es := Entries(s);
    item.value, item.blob := e.value, e.blob;
    forall i | 0 <= i < |es|
      ensures Entries(s)[i] == es[k := e][i]
    {
      assert Entries(s)[i] == EntryOf(s[i + 1]);
    }
    assert forall i :: 0 <= i < |s| ==> s[i].next == At(s, i + 1);
  }

  /** Plain entries carry no blob. */
  predicate Plain(es: seq<Entry>) {
    forall i :: 0 <= i < |es| && !es[i].isBlob ==> es[i].blob == 0
  }

  lemma PlacedPlain(es: seq<Entry>, e: Entry, k: nat)
    requires Plain(es) && k <= |es| && (!e.isBlob ==> e.blob == 0)
    ensures Plain(Placed(es, e, k))
  {
  }

  /** What the three counters promise about the entries. */
  ghost predicate Counted(es: seq<Entry>, objs: nat, props: nat, blobs: nat) {
    Sorted(es) && Plain(es) && props == |es| && objs == |Objects(es)| && blobs == |Blobs(es)|
  }

  /** The test by which the code recognises an object that the set does not have yet. */
  predicate Newcomer(es: seq<Entry>, obj: nat, k: nat)
    requires k <= |es|
  {
    (k == 0 || es[k - 1].obj != obj) && (k == |es| || es[k].obj != obj)
  }

  lemma PlacedCounted(es: seq<Entry>, e: Entry, k: nat, objs: nat, props: nat, blobs: nat)
    requires Counted(es, objs, props, blobs) && IsSlot(es, e.obj, e.prop, k)
    requires (Occupied(es, e, k) ==> es[k].isBlob == e.isBlob) && (!e.isBlob ==> e.blob == 0)
    ensures var added := if Occupied(es, e, k) then 0 else 1;
            Counted(Placed(es, e, k), objs + (if Newcomer(es, e.obj, k) then 1 else 0),
                    props + added, blobs + if e.isBlob then added else 0)
  {
    PlacedSorted(es, e, k);
    PlacedPlain(es, e, k);
    NewObject(es, e.obj, e.prop, k);
    PlacedObjects(es, e, k);
    PlacedBlobs(es, e, k);
  }

  /** An entry for the same property but of the other kind is in the way. */
  predicate Refused(es: seq<Entry>, e: Entry, k: nat) {
    Occupied(es, e, k) && es[k].isBlob != e.isBlob
  }

  /** The entries after an add operation. */
  function After(es: seq<Entry>, e: Entry, k: nat): seq<Entry>
    requires k <= |es|
  {
    if Refused(es, e, k) then es else Placed(es, e, k)
  }

  /** `after` holds `e`, and what `before` holds under other keys. */
  ghost predicate Overwritten(before: seq<Entry>, after: seq<Entry>, e: Entry) {
    forall x :: x in after <==> x == e || (x in before && !(x.obj == e.obj && x.prop == e.prop))
  }

  /** By object, and by property within an object; no two entries have the same key. */
  predicate InOrder(es: seq<Entry>) {
    forall i, j :: 0 <= i < j < |es| ==>
      es[i].obj < es[j].obj || (es[i].obj == es[j].obj && es[i].prop < es[j].prop)
  }

  lemma InOrderMeans(es: seq<Entry>)
    requires Sorted(es)
    ensures InOrder(es)
  {
  }

  /** An add operation is refused exactly if some entry for the property is of the other kind. */
  lemma AfterMeans(es: seq<Entry>, e: Entry, k: nat)
    requires Sorted(es) && IsSlot(es, e.obj, e.prop, k)
    ensures Refused(es, e, k) <==> exists x :: x in es && x.obj == e.obj && x.prop == e.prop && x.isBlob != e.isBlob
    ensures !Refused(es, e, k) ==> Overwritten(es, After(es, e, k), e)
  {
    if Refused(es, e, k) {
      assert es[k] in es;
    }
    forall x | x in es && x.obj == e.obj && x.prop == e.prop
      ensures Occupied(es, e, k) && es[k] == x
    {
      var i :| 0 <= i < |es| && es[i] == x;
    }
    forall x: Entry
      ensures x in Placed(es, e, k) <==> x == e || (x in es && !(x.obj == e.obj && x.prop == e.prop))
    {
      PlacedMeans(es, e, k, x);
    }
  }

  lemma PutCounted(es: seq<Entry>, e: Entry, k: nat, objs: nat, props: nat, blobs: nat)
    requires Counted(es, objs, props, blobs) && IsSlot(es, e.obj, e.prop, k) && (!e.isBlob ==> e.blob == 0)
    ensures var added := if Occupied(es, e, k) then 0 else 1;
            Counted(After(es, e, k), objs + (if Newcomer(es, e.obj, k) then 1 else 0),
                    props + added, blobs + if e.isBlob then added else 0)
  {
    if !Refused(es, e, k) {
      PlacedCounted(es, e, k, objs, props, blobs);
    }
  }

  /** The list part of both add operations. */
  method PutInto(list: Item, e: Entry, ghost s: seq<Item>)
    returns (refused: bool, newObj: bool, added: bool, ghost t: seq<Item>, ghost k: nat)
    requires Linked(s) && s[0] == list && Sorted(Entries(s))
    modifies s
    ensures k <= |old(Entries(s))| && IsSlot(old(Entries(s)), e.obj, e.prop, k)
    ensures Linked(t) && t[0] == list && forall y :: y in t ==> y in s || fresh(y)
    ensures refused <==> Refused(old(Entries(s)), e, k)
    ensures Entries(t) == After(old(Entries(s)), e, k)
    ensures newObj <==> Newcomer(old(Entries(s)), e.obj, k)
    ensures added <==> !Occupied(old(Entries(s)), e, k)
  {
    var prev;
    prev, k := FindSlot(list, e.obj, e.prop, s);
    refused, added, t := false, false, s;
    ghost var es := Entries(s);
    assert prev.next == At(s, k + 1);
    assert k > 0 ==> es[k - 1] == EntryOf(s[k]);
    assert k < |es| ==> es[k] == EntryOf(s[k + 1]);
    newObj := (prev == list || prev.objectId != e.obj) && (prev.next == null || prev.next.objectId != e.obj);
    if prev.next != null && prev.next.objectId == e.obj && prev.next.propertyId == e.prop {
      var item := prev.next;
      if item.isBlob != e.isBlob {
        refused := true;
        return;
      }
      Overwrite(item, e, s, k);
    } else {
      var item;
      item, t := Splice(prev, e, s, k);
      added := true;
    }
  }

  class PropertySet {
    var countObjs: nat
    var countProps: nat
    var countBlobs: nat
    const list: Item
    ghost var items: seq<Item>

    ghost predicate Valid()
      reads this, items
    {
      && Linked(items) && items[0] == list
      && Counted(Entries(items), countObjs, countProps, countBlobs)
    }

    ghost function View(): seq<Entry>
      requires Valid()
      reads this, items
    {
      Entries(items)
    }

    /** drmModePropertySetAlloc, on cleared memory. */
    constructor ()
      ensures Valid() && View() == [] && fresh(list) && items == [list]
    {
      var sentinel := new Item(0, 0, false, 0, 0, null);
      list := sentinel;
      countObjs, countProps, countBlobs := 0, 0, 0;
      items := [sentinel];
      new;
      assert Objects([]) == {};
      assert Entries(items) == [];
    }

    /** Records a new list, as a ghost, together with its counters. */
    method Adopt(objs: nat, props: nat, blobs: nat, ghost t: seq<Item>)
      requires Linked(t) && t[0] == list && Counted(Entries(t), objs, props, blobs)
      modifies this
      ensures Valid() && items == t && View() == Entries(t)
    {
      ghost var es := Entries(t);
      countObjs, countProps, countBlobs, items := objs, props, blobs, t;
      assert Linked(t);
      assert Entries(t) == es;
    }

    /** The body common to both add operations; an entry of the other kind is left alone. */
    method Put(e: Entry) returns (r: int, ghost k: nat)
      requires Valid() && (!e.isBlob ==> e.blob == 0)
      modifies this, items
      ensures Valid() && IsSlot(old(View()), e.obj, e.prop, k)
      ensures r == if Refused(old(View()), e, k) then -EINVAL else 0
      ensures View() == After(old(View()), e, k)
      ensures forall y :: y in items ==> y in old(items) || fresh(y)
    {
      var refused, newObj, added;
      ghost var t;
      ghost var es := Entries(items);
      refused, newObj, added, t, k := PutInto(list, e, items);
      PutCounted(es, e, k, countObjs, countProps, countBlobs);
      Adopt(countObjs + (if newObj then 1 else 0), countProps + (if added then 1 else 0),
            countBlobs + (if added && e.isBlob then 1 else 0), t);
      r := if refused then -EINVAL else 0;
    }

    /**
     drmModePropertySetAdd: as a map from (object, property) the set is overwritten, unless it holds a
     blob there, and it stays in order.
     */
    method Add(objectId: nat, propertyId: nat, value: nat) returns (r: int)
      requires Valid()
      modifies this, items
      ensures Valid() && InOrder(View())
      ensures r == 0 <==> forall x :: x in old(View()) && x.obj == objectId && x.prop == propertyId ==> !x.isBlob
      ensures r == 0 ==> Overwritten(old(View()), View(), Entry(objectId, propertyId, false, value, 0))
      ensures r != 0 ==> r == -22 && View() == old(View())
      ensures forall y :: y in items ==> y in old(items) || fresh(y)
    {
      ghost var k;
      ghost var es := View();
      var e := Entry(objectId, propertyId, false, value, 0);
      r, k := Put(e);
      AfterMeans(es, e, k);
      InOrderMeans(View());
    }

    /** drmModePropertySetAddBlob: likewise, unless the set holds a plain value there. */
    method AddBlob(objectId: nat, propertyId: nat, length: nat, data: nat) returns (r: int)
      requires Valid()
      modifies this, items
      ensures Valid() && InOrder(View())
      ensures r == 0 <==> forall x :: x in old(View()) && x.obj == objectId && x.prop == propertyId ==> x.isBlob
      ensures r == 0 ==> Overwritten(old(View()), View(), Entry(objectId, propertyId, true, length, data))
      ensures r != 0 ==> r == -22 && View() == old(View())
      ensures forall y :: y in items ==> y in old(items) || fresh(y)
    {
      ghost var k;
      ghost var es := View();
      var e := Entry(objectId, propertyId, true, length, data);
      r, k := Put(e);
      AfterMeans(es, e, k);
      InOrderMeans(View());
    }
  }

  // ---- Flattening for a commit -----------------------------------------------------------------------

  /** The object/property/value triples that a sequence of entries asks for. */
  function Triples(es: seq<Entry>): (ts: seq<(nat, nat, nat)>)
    ensures |ts| == |es|
    ensures forall i :: 0 <= i < |es| ==> ts[i] == (es[i].obj, es[i].prop, es[i].value)
  {
    seq(|es|, i requires 0 <= i < |es| => (es[i].obj, es[i].prop, es[i].value))
  }

  function Group(obj: nat, props: seq<nat>, values: seq<nat>): (ts: seq<(nat, nat, nat)>)
    requires |props| == |values|
    ensures |ts| == |props|
    ensures forall i :: 0 <= i < |ts| ==> ts[i] == (obj, props[i], values[i])
  {
    seq(|props|, i requires 0 <= i < |props| => (obj, props[i], values[i]))
  }

  /** How the kernel interface reads the arrays: each object owns the next `counts` properties. */
  function Decode(objs: seq<nat>, counts: seq<nat>, props: seq<nat>, values: seq<nat>): seq<(nat, nat, nat)>
    requires |objs| == |counts| && |props| == |values|
  {
    if objs == [] || counts[|objs| - 1] > |props| then []
    else
      var m, n := |objs| - 1, |props| - counts[|objs| - 1];
      Decode(objs[..m], counts[..m], props[..n], values[..n]) + Group(objs[m], props[n..], values[n..])
  }

  lemma TriplesSplit(es: seq<Entry>, i: nat, j: nat, props: seq<nat>, values: seq<nat>)
    requires i < j <= |es| && |props| == |values| == j
    requires forall k :: 0 <= k < j ==> props[k] == es[k].prop && values[k] == es[k].value
    requires forall k :: i <= k < j ==> es[k].obj == es[i].obj
    ensures Triples(es[..j]) == Triples(es[..i]) + Group(es[i].obj, props[i..], values[i..])
  {
    var a, b := Triples(es[..j]), Triples(es[..i]) + Group(es[i].obj, props[i..], values[i..]);
    forall k | 0 <= k < j
      ensures a[k] == b[k]
    {
    }
  }

  lemma DecodeStep(objs: seq<nat>, counts: seq<nat>, obj: nat, count: nat, props: seq<nat>, values: seq<nat>)
    requires |objs| == |counts| && |props| == |values| && count <= |props|
    ensures var n := |props| - count;
            Decode(objs + [obj], counts + [count], props, values)
            == Decode(objs, counts, props[..n], values[..n]) + Group(obj, props[n..], values[n..])
  {
    var o, c := objs + [obj], counts + [count];
    assert o[|objs|] == obj && c[|objs|] == count;
    assert o[..|objs|] == objs && c[..|objs|] == counts;
  }

  /** One more group of entries of one object extends the decoded triples. */
  lemma DecodeExtends(es: seq<Entry>, i: nat, j: nat, objs: seq<nat>, counts: seq<nat>, props: seq<nat>,
                      values: seq<nat>)
    requires i < j <= |es| && |objs| == |counts| && |props| == |values| == j
    requires forall k :: 0 <= k < j ==> props[k] == es[k].prop && values[k] == es[k].value
    requires forall k :: i <= k < j ==> es[k].obj == es[i].obj
    requires Decode(objs, counts, props[..i], values[..i]) == Triples(es[..i])
    ensures Decode(objs + [es[i].obj], counts + [j - i], props, values) == Triples(es[..j])
  {
    DecodeStep(objs, counts, es[i].obj, j - i, props, values);
    TriplesSplit(es, i, j, props, values);
  }

  /** A group of entries of one object adds that object, which fits into the array sized by the counter. */
  lemma GroupObjects(es: seq<Entry>, i: nat, j: nat)
    requires Sorted(es) && i < j <= |es|
    requires i > 0 ==> es[i - 1].obj != es[i].obj
    requires forall k :: i <= k < j ==> es[k].obj == es[i].obj
    ensures |Objects(es[..j])| == |Objects(es[..i])| + 1 <= |Objects(es)|
  {
    var o := es[i].obj;
    forall k | 0 <= k < i
      ensures es[k].obj != o
    {
      if k < i - 1 {
        assert Before(es[k].obj, es[k].prop, es[i - 1].obj, es[i - 1].prop);
      }
      assert Before(es[i - 1].obj, es[i - 1].prop, es[i].obj, es[i].prop);
    }
    assert es[..j][i].obj == o;
    forall x | x in Objects(es[..i])
      ensures x in Objects(es[..j])
    {
      var k :| 0 <= k < i && es[..i][k].obj == x;
      assert es[..j][k].obj == x;
    }
    assert Objects(es[..j]) == Objects(es[..i]) + {o};
    forall x | x in Objects(es[..j])
      ensures x in Objects(es)
    {
      var k :| 0 <= k < j && es[..j][k].obj == x;
      assert es[k].obj == x;
    }
    SubsetSize(Objects(es[..j]), Objects(es));
  }

  lemma BlobsPrefix(es: seq<Entry>, i: nat)
    requires i <= |es|
    ensures |Blobs(es[..i])| <= |Blobs(es)|
  {
    BlobsConcat(es[..i], es[i..]);
    assert es == es[..i] + es[i..];
  }

  /** The address of a blob comes after those of the blobs before it. */
  lemma {:induction false} BlobAt(es: seq<Entry>, i: nat)
    requires i < |es| && es[i].isBlob
    ensures |Blobs(es[..i])| < |Blobs(es)| && Blobs(es)[|Blobs(es[..i])|] == es[i].blob
    decreases |es|
  {
    var n := |es| - 1;
    if i == n {
    } else {
      BlobAt(es[..n], i);
      assert es[..n][..i] == es[..i];
    }
  }

  /** The entries before `i` have been written to the three flat arrays. */
  ghost predicate Written(es: seq<Entry>, i: nat, props: array<nat>, values: array<nat>, blobs: array<nat>,
                          blobIdx: nat)
    reads props, values, blobs
  {
    && i <= |es| == props.Length == values.Length && blobs.Length == |Blobs(es)|
    && (forall k :: 0 <= k < i ==> props[k] == es[k].prop && values[k] == es[k].value)
    && blobIdx <= blobs.Length && blobs[..blobIdx] == Blobs(es[..i])
  }

  /** Writes one entry. */
  method WriteOne(item: Item, ghost es: seq<Entry>, i: nat, props: array<nat>, values: array<nat>, blobs: array<nat>,
                  blobIdx: nat)
    returns (blobIdx': nat)
    requires props != values && values != blobs && props != blobs
    requires Written(es, i, props, values, blobs, blobIdx) && i < |es| && es[i] == EntryOf(item)
    modifies props, values, blobs
    ensures Written(es, i + 1, props, values, blobs, blobIdx')
  {
    assert es[..i + 1][..i] == es[..i];
    BlobsPrefix(es, i + 1);
    props[i] := item.propertyId;
    values[i] := item.value;
    blobIdx' := blobIdx;
    if item.isBlob {
      blobs[blobIdx] := item.blob;
      blobIdx' := blobIdx + 1;
      assert blobs[..blobIdx'] == blobs[..blobIdx] + [item.blob];
    }
  }

  /** The list `s` is properly linked and holds the entries `es`. */
  ghost predicate Shows(s: seq<Item>, es: seq<Entry>)
    reads s
  {
    Chained(s) && |s| == |es| + 1 && forall i {:trigger es[i]} :: 0 <= i < |es| ==> es[i] == EntryOf(s[i + 1])
  }

  /** One turn of the inner loop of drmModePropertySetCommit. */
  method WriteNext(item: Item, ghost s: seq<Item>, ghost es: seq<Entry>, i: nat,
                   props: array<nat>, values: array<nat>, blobs: array<nat>, blobIdx: nat)
    returns (next: Item?, blobIdx': nat)
    requires props != values && values != blobs && props != blobs
    requires Shows(s, es) && i < |es| && item == s[i + 1]
    requires Written(es, i, props, values, blobs, blobIdx)
    modifies props, values, blobs
    ensures Shows(s, es) && next == At(s, i + 2)
    ensures Written(es, i + 1, props, values, blobs, blobIdx')
  {
    assert es[i] == EntryOf(s[i + 1]);
    assert s[i + 1].next == At(s, i + 2);
    blobIdx' := WriteOne(item, es, i, props, values, blobs, blobIdx);
    assert Shows(s, es);
    next := item.next;
  }

  /** Entries `i` to `j - 1` belong to one object. */
  ghost predicate OneObject(es: seq<Entry>, i: nat, j: nat) {
    i <= j <= |es| && forall k :: i <= k < j ==> es[k].obj == es[i].obj
  }

  /** The inner loop of drmModePropertySetCommit: writes all properties of one object. */
  method WriteGroup(first: Item, ghost s: seq<Item>, ghost es: seq<Entry>, i: nat,
                    props: array<nat>, values: array<nat>, blobs: array<nat>, blobIdx: nat)
    returns (next: Item?, count: nat, blobIdx': nat)
    requires props != values && values != blobs && props != blobs
    requires Shows(s, es) && i < |es| && first == s[i + 1]
    requires Written(es, i, props, values, blobs, blobIdx)
    modifies props, values, blobs
    ensures Shows(s, es) && count >= 1 && next == At(s, i + count + 1)
    ensures OneObject(es, i, i + count) && (i + count < |es| ==> es[i + count].obj != es[i].obj)
    ensures Written(es, i + count, props, values, blobs, blobIdx')
  {
    next, count, blobIdx' := first, 0, blobIdx;
    assert es[i] == EntryOf(s[i + 1]);
    while next != null && next.objectId == first.objectId
      invariant Shows(s, es) && next == At(s, i + count + 1)
      invariant OneObject(es, i, i + count) && (count == 0 ==> next == first)
      invariant Written(es, i + count, props, values, blobs, blobIdx')
      decreases |es| - (i + count)
    {
      next, blobIdx' := WriteNext(next, s, es, i + count, props, values, blobs, blobIdx');
      count := count + 1;
    }
    assert i + count < |es| ==> es[i + count] == EntryOf(s[i + count + 1]);
  }

  function Props(es: seq<Entry>): (ps: seq<nat>)
    ensures |ps| == |es| && forall i :: 0 <= i < |es| ==> ps[i] == es[i].prop
  {
    seq(|es|, i requires 0 <= i < |es| => es[i].prop)
  }

  function Values(es: seq<Entry>): (vs: seq<nat>)
    ensures |vs| == |es| && forall i :: 0 <= i < |es| ==> vs[i] == es[i].value
  {
    seq(|es|, i requires 0 <= i < |es| => es[i].value)
  }

  lemma PropsPrefix(es: seq<Entry>, i: nat, j: nat)
    requires i <= j <= |es|
    ensures Props(es[..j])[..i] == Props(es[..i]) && Values(es[..j])[..i] == Values(es[..i])
  {
  }

  /** The groups `o`, `c` end at entry `i`, and decode to the entries before it. */
  ghost predicate Grouped(es: seq<Entry>, i: nat, o: seq<nat>, c: seq<nat>) {
    && i <= |es| && |o| == |c| == |Objects(es[..i])|
    && (0 < i < |es| ==> es[i - 1].obj != es[i].obj)
    && Decode(o, c, Props(es[..i]), Values(es[..i])) == Triples(es[..i])
  }

  lemma GroupedExtends(es: seq<Entry>, i: nat, j: nat, o: seq<nat>, c: seq<nat>) returns (o': seq<nat>, c': seq<nat>)
    requires Sorted(es) && Grouped(es, i, o, c) && OneObject(es, i, j) && i < j && (j < |es| ==> es[j].obj != es[i].obj)
    ensures o' == o + [es[i].obj] && c' == c + [j - i]
    ensures Grouped(es, j, o', c') && |o'| <= |Objects(es)|
  {
    var step: nat := j - i;
    o', c' := o + [es[i].obj], c + [step];
    GroupObjects(es, i, j);
    PropsPrefix(es, i, j);
    DecodeExtends(es, i, j, o, c, Props(es[..j]), Values(es[..j]));
  }

  /** One turn of the outer loop of drmModePropertySetCommit: one object with all its properties. */
  method WriteObject(item: Item, ghost s: seq<Item>, ghost es: seq<Entry>, i: nat,
                     objs: array<nat>, counts: array<nat>, objIdx: nat,
                     props: array<nat>, values: array<nat>, blobs: array<nat>, blobIdx: nat)
    returns (next: Item?, j: nat, blobIdx': nat)
    requires && objs != counts && objs != props && objs != values && objs != blobs && counts != props
             && counts != values && counts != blobs
    requires props != values && values != blobs && props != blobs
    requires Shows(s, es) && i < |es| && item == s[i + 1] && objIdx < objs.Length == counts.Length
    requires Written(es, i, props, values, blobs, blobIdx)
    modifies objs, counts, props, values, blobs
    ensures Shows(s, es) && i < j && next == At(s, j + 1)
    ensures OneObject(es, i, j) && (j < |es| ==> es[j].obj != es[i].obj)
    ensures objs[..objIdx + 1] == old(objs[..objIdx]) + [es[i].obj]
    ensures counts[..objIdx + 1] == old(counts[..objIdx]) + [j - i]
    ensures Written(es, j, props, values, blobs, blobIdx')
  {
    hide Written, OneObject;
    assert es[i] == EntryOf(s[i + 1]);
    objs[objIdx] := item.objectId;
    assert Shows(s, es) && Written(es, i, props, values, blobs, blobIdx);
    var count;
    next, count, blobIdx' := WriteGroup(item, s, es, i, props, values, blobs, blobIdx);
    counts[objIdx] := count;
    j := i + count;
    assert Shows(s, es) && Written(es, j, props, values, blobs, blobIdx');
  }

  /** The arrays that drmModePropertySetCommit hands to the kernel, sized by the set's own counters. */
  method Flatten(set_: PropertySet)
    returns (objs: array<nat>, counts: array<nat>, props: array<nat>, values: array<nat>, blobs: array<nat>)
    requires set_.Valid()
    ensures objs.Length == counts.Length == set_.countObjs && props.Length == values.Length == set_.countProps
    ensures blobs.Length == set_.countBlobs
    ensures set_.Valid() && Decode(objs[..], counts[..], props[..], values[..]) == Triples(set_.View())
    ensures blobs[..] == Blobs(set_.View())
  {
    ghost var es := set_.View();
    assert Shows(set_.items, es);
    objs, counts, props, values, blobs :=
      Allocate(set_.list, set_.items, es, set_.countObjs, set_.countProps, set_.countBlobs);
  }

  method Allocate(list: Item, ghost s: seq<Item>, ghost es: seq<Entry>, countObjs: nat, countProps: nat,
                  countBlobs: nat)
    returns (objs: array<nat>, counts: array<nat>, props: array<nat>, values: array<nat>, blobs: array<nat>)
    requires Shows(s, es) && Counted(es, countObjs, countProps, countBlobs) && list == s[0]
    ensures && objs.Length == counts.Length == countObjs && props.Length == values.Length == countProps
            && blobs.Length == countBlobs
    ensures Decode(objs[..], counts[..], props[..], values[..]) == Triples(es) && blobs[..] == Blobs(es)
  {
    objs, counts := new nat[countObjs], new nat[countObjs];
    props, values := new nat[countProps], new nat[countProps];
    blobs := new nat[countBlobs];
    assert Shows(s, es);
    FlattenInto(list, s, es, objs, counts, props, values, blobs);
  }

  /** The first `objIdx` slots of the object arrays hold the groups `o`, `c`, which end at entry `i`. */
  ghost predicate Filled(es: seq<Entry>, i: nat, o: seq<nat>, c: seq<nat>, objs: array<nat>, counts: array<nat>,
                         objIdx: nat)
    reads objs, counts
  {
    && Grouped(es, i, o, c) && objIdx == |o| <= objs.Length == counts.Length == |Objects(es)|
    && objs[..objIdx] == o && counts[..objIdx] == c
  }

  method FlattenStep(item: Item, ghost s: seq<Item>, ghost es: seq<Entry>, i: nat,
                     objs: array<nat>, counts: array<nat>, objIdx: nat, ghost o: seq<nat>, ghost c: seq<nat>,
                     props: array<nat>, values: array<nat>, blobs: array<nat>, blobIdx: nat)
    returns (next: Item?, j: nat, blobIdx': nat, ghost o': seq<nat>, ghost c': seq<nat>)
    requires && objs != counts && objs != props && objs != values && objs != blobs && counts != props
             && counts != values && counts != blobs
    requires props != values && values != blobs && props != blobs
    requires Shows(s, es) && Sorted(es) && i < |es| && item == s[i + 1]
    requires Filled(es, i, o, c, objs, counts, objIdx) && Written(es, i, props, values, blobs, blobIdx)
    modifies objs, counts, props, values, blobs
    ensures Shows(s, es) && i < j <= |es| && next == At(s, j + 1)
    ensures Filled(es, j, o', c', objs, counts, objIdx + 1) && Written(es, j, props, values, blobs, blobIdx')
  {
    hide Written, Sorted, Shows;
    GroupObjects(es, i, i + 1);
    next, j, blobIdx' := WriteObject(item, s, es, i, objs, counts, objIdx, props, values, blobs, blobIdx);
    o', c' := GroupedExtends(es, i, j, o, c);
  }

  /** The loops of drmModePropertySetCommit. */
  method FlattenInto(list: Item, ghost s: seq<Item>, ghost es: seq<Entry>,
                     objs: array<nat>, counts: array<nat>, props: array<nat>, values: array<nat>, blobs: array<nat>)
    requires && objs != counts && objs != props && objs != values && objs != blobs && counts != props
             && counts != values && counts != blobs
    requires props != values && values != blobs && props != blobs
    requires Shows(s, es) && Sorted(es) && list == s[0] && objs.Length == counts.Length == |Objects(es)|
    requires props.Length == values.Length == |es| && blobs.Length == |Blobs(es)|
    modifies objs, counts, props, values, blobs
    ensures Decode(objs[..], counts[..], props[..], values[..]) == Triples(es)
    ensures blobs[..] == Blobs(es)
  {
    var item := list.next;
    assert s[0].next == At(s, 1);
    var i: nat, objIdx: nat, blobIdx: nat := 0, 0, 0;
    ghost var o: seq<nat>, c: seq<nat> := [], [];
    assert Objects(es[..0]) == {};
    while item != null
      invariant Shows(s, es) && i <= |es| && item == At(s, i + 1)
      invariant Filled(es, i, o, c, objs, counts, objIdx)
      invariant Written(es, i, props, values, blobs, blobIdx)
      decreases |es| - i
    {
      item, i, blobIdx, o, c := FlattenStep(item, s, es, i, objs, counts, objIdx, o, c, props, values, blobs, blobIdx);
      objIdx := objIdx + 1;
    }
    FlattenDone(es, objs, counts, props, values, blobs, o, c, blobIdx);
  }

  lemma FlattenDone(es: seq<Entry>, objs: array<nat>, counts: array<nat>, props: array<nat>, values: array<nat>,
                    blobs: array<nat>, o: seq<nat>, c: seq<nat>, blobIdx: nat)
    requires objs.Length == counts.Length == |Objects(es)| && Written(es, |es|, props, values, blobs, blobIdx)
    requires Grouped(es, |es|, o, c) && |o| <= objs.Length && objs[..|o|] == o && counts[..|o|] == c
    ensures Decode(objs[..], counts[..], props[..], values[..]) == Triples(es)
    ensures blobs[..] == Blobs(es)
  {
    assert es[..|es|] == es;
    assert props[..] == Props(es) && values[..] == Values(es);
    assert objs[..] == o && counts[..] == c && blobs[..] == blobs[..blobIdx];
  }
}

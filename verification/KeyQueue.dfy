/**
 The queue of registered keys of bootable/recovery/ui.cpp: EnqueueKey, WaitKey and FlushKeys.

 `InOrder` relates the queue to what was ever offered to it: keys leave in the order in which they
 entered, and none is lost except to a flush or to a full queue.  Class `KeyQueue` carries out the
 turns in place.
 */
module KeyQueue {
  import opened KeyEvents

  const QUEUE_MAX: nat := 256

  /** What became of a key that has left the queue. */
  datatype Fate = Taken | Flushed

  /** The keys that were taken, in the order in which they entered. */
  function TakenKeys(put: seq<int>, fates: seq<Fate>): seq<int>
    requires |fates| <= |put|
  {
    if fates == [] then []
    else
      var n := |fates| - 1;
      TakenKeys(put, fates[..n]) + if fates[n] == Taken then [put[n]] else []
  }

  lemma {:induction false} TakenAfterFlush(put: seq<int>, fates: seq<Fate>, n: nat)
    requires |fates| + n <= |put|
    ensures TakenKeys(put, fates + seq(n, _ => Flushed)) == TakenKeys(put, fates)
  {
    var all := fates + seq(n, _ => Flushed);
    if n == 0 {
      assert all == fates;
    } else {
      assert all[..|all| - 1] == fates + seq(n - 1, _ => Flushed);
      TakenAfterFlush(put, fates, n - 1);
    }
  }

  lemma {:induction false} TakenOfPrefix(put: seq<int>, more: seq<int>, fates: seq<Fate>)
    requires |fates| <= |put|
    ensures TakenKeys(put + more, fates) == TakenKeys(put, fates)
  {
    if fates == [] {
    } else {
      TakenOfPrefix(put, more, fates[..|fates| - 1]);
    }
  }

  /** The memory move of WaitKey: the `n` elements after the first go to the front. */
  method ShiftDown(a: array<int>, n: nat)
    requires n < a.Length
    modifies a
    ensures a[..n] == old(a[1..n + 1])
  {
    for i := 0 to n
      invariant forall j :: 0 <= j < i ==> a[j] == old(a[1..n + 1])[j]
      invariant forall j :: i <= j < a.Length ==> a[j] == old(a[j])
    {
      a[i] := a[i + 1];
    }
  }

  /** A key offered to the queue while `waiting` keys were in it. */
  datatype Offer = Offer(key: int, waiting: nat)

  /** The keys of the offers that found the queue not full, in order. */
  function Accepted(offers: seq<Offer>): seq<int> {
    if offers == [] then []
    else
      var o := offers[|offers| - 1];
      Accepted(offers[..|offers| - 1]) + if o.waiting < QUEUE_MAX then [o.key] else []
  }

  lemma AcceptedGrows(offers: seq<Offer>, o: Offer)
    ensures Accepted(offers + [o]) == Accepted(offers) + if o.waiting < QUEUE_MAX then [o.key] else []
  {
    assert (offers + [o])[..|offers|] == offers;
  }

  /**
   The bounded queue of registered keys.  `offers` are the keys ever offered to it, `put` those that
   entered it, `fates` says what became of those that have left it, and `returned` are the keys that
   WaitKey has returned.
   */
  datatype QueueState = QueueState(queue: seq<int>, offers: seq<Offer>, put: seq<int>, fates: seq<Fate>,
                                   returned: seq<int>)

  /**
   The keys in the queue are the last that entered, in order; the keys returned are, in order, all
   that entered before them and were not flushed; every key entered that did not find the queue full.
   */
  predicate InOrder(s: QueueState) {
    && |s.queue| <= QUEUE_MAX && |s.put| == |s.fates| + |s.queue| && s.queue == s.put[|s.fates|..]
    && s.returned == TakenKeys(s.put, s.fates)
    && s.put == Accepted(s.offers)
  }

  /** EnqueueKey */
  function OfferTurn(s: QueueState, key: int): QueueState {
    var offered := s.(offers := s.offers + [Offer(key, |s.queue|)]);
    if |s.queue| < QUEUE_MAX then offered.(queue := s.queue + [key], put := s.put + [key]) else offered
  }

  /** WaitKey once it stops waiting */
  function TakeTurn(s: QueueState): QueueState {
    if s.queue == [] then s
    else s.(queue := s.queue[1..], fates := s.fates + [Taken], returned := s.returned + [s.queue[0]])
  }

  /** FlushKeys */
  function FlushTurn(s: QueueState): QueueState {
    s.(queue := [], fates := s.fates + seq(|s.queue|, _ => Flushed))
  }

  lemma OfferInOrder(s: QueueState, key: int)
    requires InOrder(s)
    ensures InOrder(OfferTurn(s, key))
  {
    TakenOfPrefix(s.put, [key], s.fates);
    AcceptedGrows(s.offers, Offer(key, |s.queue|));
  }

  lemma TakeInOrder(s: QueueState)
    requires InOrder(s)
    ensures InOrder(TakeTurn(s))
  {
    assert (s.fates + [Taken])[..|s.fates|] == s.fates;
  }

  lemma FlushInOrder(s: QueueState)
    requires InOrder(s)
    ensures InOrder(FlushTurn(s))
  {
    TakenAfterFlush(s.put, s.fates, |s.queue|);
  }

  class KeyQueue {
    const keyQueue: array<int>
    var keyQueueLen: nat

    ghost var offers: seq<Offer>
    ghost var put: seq<int>
    ghost var fates: seq<Fate>
    ghost var returned: seq<int>

    ghost function Value(): QueueState
      requires keyQueueLen <= keyQueue.Length
      reads this, keyQueue
    {
      QueueState(keyQueue[..keyQueueLen], offers, put, fates, returned)
    }

    ghost predicate Valid()
      reads this, keyQueue
    {
      keyQueue.Length == QUEUE_MAX && keyQueueLen <= QUEUE_MAX && InOrder(Value())
    }

    constructor ()
      ensures Valid() && put == [] && fresh(keyQueue)
    {
      keyQueue := new int[QUEUE_MAX];
      keyQueueLen := 0;
      offers, put, fates, returned := [], [], [], [];
    }

    /** EnqueueKey: a key is dropped exactly if the queue is full. */
    method EnqueueKey(key: int)
      requires Valid()
      modifies this, keyQueue
      ensures Valid() && Value() == OfferTurn(old(Value()), key)
      ensures keyQueue[..keyQueueLen] == old(keyQueue[..keyQueueLen]) + if old(keyQueueLen) < 256 then [key] else []
    {
      OfferInOrder(Value(), key);
      offers := offers + [Offer(key, keyQueueLen)];
      if keyQueueLen < QUEUE_MAX {
        keyQueue[keyQueueLen] := key;
        keyQueueLen := keyQueueLen + 1;
        put := put + [key];
      }
      assert Value() == OfferTurn(old(Value()), key);
    }

    /** WaitKey once it stops waiting: the longest-queued key, or -1 if there is none. */
    method TakeKey() returns (key: int)
      requires Valid()
      modifies this, keyQueue
      ensures Valid() && Value() == TakeTurn(old(Value()))
      ensures if old(keyQueueLen) == 0 then key == -1 && keyQueueLen == 0
              else [key] + keyQueue[..keyQueueLen] == old(keyQueue[..keyQueueLen])
    {
      hide TakenKeys, Accepted;
      TakeInOrder(Value());
      ghost var before := Value();
      assert before.queue != [] ==> before.queue[0] == put[|fates|];
      key := NO_KEY;
      if keyQueueLen > 0 {
        key := keyQueue[0];
        keyQueueLen := keyQueueLen - 1;
        ShiftDown(keyQueue, keyQueueLen);
        assert keyQueue[..keyQueueLen] == before.queue[1..];
        fates, returned := fates + [Taken], returned + [key];
      }
      assert Value() == TakeTurn(old(Value()));
    }

    /** FlushKeys: what is queued is dropped. */
    method FlushKeys()
      requires Valid()
      modifies this
      ensures Valid() && Value() == FlushTurn(old(Value())) && keyQueueLen == 0
    {
      FlushInOrder(Value());
      fates := fates + seq(keyQueueLen, _ => Flushed);
      keyQueueLen := 0;
      assert Value() == FlushTurn(old(Value()));
    }
  }
}

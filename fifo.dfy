/**
 * The simulator's bounded first-in first-out queue `Fifo<T>`: a double-ended
 * queue plus an optional maximum size.  The maximum only informs the
 * `full`/`can_fit`/`can_send` queries; pushing never checks it.
 */
module Fifo {
  import opened Wrappers

  /** `full`: a bounded queue whose length reached its maximum.  An unbounded
      queue is never full. */
  predicate IsFull(len: nat, maxSize: Option<nat>)
  {
    match maxSize
    case Some(max) => len >= max
    case None => false
  }

  /** `can_fit(n)`: `n` more elements stay within the maximum, or there is none. */
  predicate Fits(len: nat, maxSize: Option<nat>, n: nat)
  {
    match maxSize
    case Some(max) => len + n <= max
    case None => true
  }

  /** A queue is full exactly when one more element would not fit. */
  lemma FullIffCannotFitOne(len: nat, maxSize: Option<nat>)
    ensures IsFull(len, maxSize) <==> !Fits(len, maxSize, 1)
  {
  }

  /** Fitting is monotone: if `n` elements fit, so does any smaller number. */
  lemma FitsMonotone(len: nat, maxSize: Option<nat>, n: nat, m: nat)
    requires m <= n && Fits(len, maxSize, n)
    ensures Fits(len, maxSize, m)
  {
  }

  class Fifo<T> {
    /** The queued elements, front first. */
    var items: seq<T>
    /** `max_size`. */
    var maxSize: Option<nat>

    /** `Fifo::new`: an empty queue with the given bound. */
    constructor (maxSize: Option<nat>)
      ensures this.items == [] && this.maxSize == maxSize
    {
      this.items := [];
      this.maxSize := maxSize;
    }

    /** `enqueue`: appends at the back, whatever the bound says. */
    method Enqueue(value: T)
      modifies this
      ensures items == old(items) + [value]
      ensures maxSize == old(maxSize)
    {
      items := items + [value];
    }

    /** `dequeue`: removes and returns the front element, or `None` when empty. */
    method Dequeue() returns (r: Option<T>)
      modifies this
      ensures old(items) == [] ==> r == None && items == []
      ensures old(items) != [] ==> r == Some(old(items)[0]) && items == old(items)[1..]
      ensures maxSize == old(maxSize)
    {
      if items == [] {
        r := None;
      } else {
        r := Some(items[0]);
        items := items[1..];
      }
    }

    /** `first`: the front element without removing it. */
    method First() returns (r: Option<T>)
      ensures r.Some? <==> items != []
      ensures r.Some? ==> r.value == items[0]
    {
      if items == [] {
        r := None;
      } else {
        r := Some(items[0]);
      }
    }

    /** `full`. */
    predicate Full()
      reads this
    {
      IsFull(|items|, maxSize)
    }

    /** `len`. */
    function Len(): nat
      reads this
    {
      |items|
    }

    /** `is_empty`. */
    predicate IsEmpty()
      reads this
    {
      |items| == 0
    }

    /** `can_fit(n)`. */
    predicate CanFit(n: nat)
      reads this
    {
      Fits(|items|, maxSize, n)
    }

    /** `drain(..)`: yields every element, front first, and empties the queue. */
    method Drain() returns (drained: seq<T>)
      modifies this
      ensures drained == old(items) && items == []
      ensures maxSize == old(maxSize)
    {
      drained := items;
      items := [];
    }

    /** `Connection::can_send`: the same test as `can_fit`, counting packets and
        ignoring their sizes. */
    predicate CanSend(packetSizes: seq<nat>)
      reads this
    {
      Fits(|items|, maxSize, |packetSizes|)
    }

    /** `Connection::send`: appends like `enqueue`. */
    method Send(packet: T)
      modifies this
      ensures items == old(items) + [packet]
      ensures maxSize == old(maxSize)
    {
      items := items + [packet];
    }

    /** `Connection::receive`: pops the front like `dequeue`. */
    method Receive() returns (r: Option<T>)
      modifies this
      ensures old(items) == [] ==> r == None && items == []
      ensures old(items) != [] ==> r == Some(old(items)[0]) && items == old(items)[1..]
      ensures maxSize == old(maxSize)
    {
      r := Dequeue();
    }

    /** `can_send` is `can_fit` of the packet count; packet sizes never matter. */
    lemma CanSendCountsPackets(p: seq<nat>, q: seq<nat>)
      requires |p| == |q|
      ensures CanSend(p) == CanFit(|p|)
      ensures CanSend(p) == CanSend(q)
    {
    }

    /** An unbounded queue is never full and always has room. */
    lemma UnboundedNeverFull(n: nat)
      requires maxSize == None
      ensures !Full() && CanFit(n)
    {
    }
  }

  /** First-in first-out order: enqueueing `a` then `b` on an empty queue and
      dequeuing twice yields `a` then `b` and leaves the queue empty. */
  method FifoOrder<T>(a: T, b: T) returns (first: Option<T>, second: Option<T>)
    ensures first == Some(a) && second == Some(b)
  {
    var q := new Fifo<T>(None);
    q.Enqueue(a);
    q.Enqueue(b);
    first := q.Dequeue();
    second := q.Dequeue();
    assert q.items == [];
  }
}

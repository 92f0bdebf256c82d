/**
 * `PacketBuffer`: the bounded ring buffer between the connection and the
 * client's consumers. A pushed packet goes straight to the longest-waiting
 * consumer if there is one; otherwise it is queued, and when the ring is full
 * the oldest queued packet is overwritten. `next` takes the oldest queued
 * packet, or registers the caller as waiting when the ring is empty.
 */
module Buffering {
  import opened Wrappers
  import opened Inflight
  import opened Packets

  /** The position of the `i`-th oldest element of a ring of `size` slots starting at `head`. */
  function Slot(head: nat, i: nat, size: nat): (r: nat)
    requires head < size && i <= size
    ensures r < size
    ensures r == (head + i) % size
  {
    if head + i < size then
      ModBelow(head + i, size);
      head + i
    else
      ModWrapOnce(head + i, size);
      head + i - size
  }

  lemma ModBelow(x: nat, size: nat)
    requires x < size
    ensures x % size == x
  {
  }

  lemma ModWrapOnce(x: nat, size: nat)
    requires size <= x < 2 * size
    ensures x % size == x - size
  {
  }

  /** The ring's step `(x + 1) % size`, wrapping to 0 after the last slot. */
  lemma Wrap(x: nat, size: nat)
    requires x < size
    ensures (x + 1) % size == Slot(x, 1, size)
  {
  }

  /** Distinct positions of a window no longer than the ring occupy distinct slots. */
  lemma SlotsDistinct(head: nat, i: nat, j: nat, size: nat)
    requires head < size && i < j < size
    ensures Slot(head, i, size) != Slot(head, j, size)
  {
  }

  /** Advancing the head by one moves every position of the window down by one. */
  lemma SlotAdvance(head: nat, i: nat, size: nat)
    requires head < size && i < size
    ensures Slot(Slot(head, 1, size), i, size) == Slot(head, i + 1, size)
  {
  }

  /** The last `n` elements of `s` (all of it when it is shorter). */
  function Last<T>(n: nat, s: seq<T>): (r: seq<T>)
    ensures |r| == if |s| <= n then |s| else n
    ensures s == s[..|s| - |r|] + r
  {
    if |s| <= n then s else s[|s| - n..]
  }

  /** Keeping the last `n` after every push is keeping the last `n` of the whole history. */
  lemma {:induction false} LastAppend<T>(n: nat, s: seq<T>, x: T)
    requires n > 0
    ensures Last(n, Last(n, s) + [x]) == Last(n, s + [x])
  {
    if |s| > n {
      assert Last(n, s) + [x] == s[|s| - n..] + [x];
      assert (s + [x])[|s| + 1 - n..] == (s[|s| - n..] + [x])[1..];
    }
  }

  /** A packet handed to a waiting consumer. */
  datatype Delivery = Delivery(waiter: Waiter, packet: MQTTPacket)

  class PacketBuffer {
    const size: nat
    const queue: array<Option<MQTTPacket>>
    var tail: nat
    var head: nat
    var count: nat
    /** The consumers waiting in `next`, longest-waiting first. */
    var conts: seq<Waiter>
    /** Every packet handed straight to a waiting consumer, in order. */
    var delivered: seq<Delivery>
    /** The queued packets, oldest first. */
    ghost var contents: seq<MQTTPacket>

    ghost predicate Valid()
      reads this, queue
    {
      && size > 0 && queue.Length == size
      && head < size && tail < size && count <= size
      && tail == Slot(head, count, size)
      && |contents| == count
      && (forall i :: 0 <= i < count ==> queue[Slot(head, i, size)] == Some(contents[i]))
      && (conts != [] ==> count == 0)
    }

    /** `init(size:)`: traps unless `size >= 1`; the ring starts empty. */
    constructor(size: nat)
      requires size >= 1
      ensures Valid() && fresh(queue)
      ensures this.size == size && contents == [] && conts == [] && delivered == []
    {
      this.size := size;
      queue := new Option<MQTTPacket>[size](_ => None);
      tail, head, count := 0, 0, 0;
      conts, delivered := [], [];
      contents := [];
    }

    /**
     * `push`: with a consumer waiting, the packet is delivered to the longest
     * waiting one and nothing is queued; otherwise it is appended and only the
     * newest `size` packets are kept.
     */
    method Push(packet: MQTTPacket)
      requires Valid()
      modifies this, queue
      ensures Valid()
      ensures old(conts) != [] ==>
        conts == old(conts)[1..] && delivered == old(delivered) + [Delivery(old(conts)[0], packet)] && contents == old(contents)
      ensures old(conts) == [] ==>
        conts == [] && delivered == old(delivered) && contents == Last(size, old(contents) + [packet])
      ensures old(conts) == [] && |old(contents)| < size ==> contents == old(contents) + [packet]
      ensures old(conts) == [] && |old(contents)| == size ==> contents == old(contents)[1..] + [packet]
    {
      if conts != [] {
        var cont := conts[0];
        conts := conts[1..];
        delivered := delivered + [Delivery(cont, packet)];
        return;
      }
      if count < size {
        Append(packet);
      } else {
        Overwrite(packet);
      }
    }

    /** A ring with room: the packet takes the slot after the newest. */
    method Append(packet: MQTTPacket)
      requires Valid() && conts == [] && count < size
      modifies this, queue
      ensures Valid()
      ensures conts == [] && delivered == old(delivered) && contents == old(contents) + [packet]
    {
      queue[tail] := Some(packet);
      Wrap(tail, size);
      tail := (tail + 1) % size;
      forall i | 0 <= i < count
        ensures Slot(head, i, size) != Slot(head, count, size)
      {
        SlotsDistinct(head, i, count, size);
      }
      count := count + 1;
      contents := contents + [packet];
    }

    /** A full ring: the packet overwrites the oldest, and the head moves past it. */
    method Overwrite(packet: MQTTPacket)
      requires Valid() && conts == [] && count == size
      modifies this, queue
      ensures Valid()
      ensures conts == [] && delivered == old(delivered) && contents == old(contents)[1..] + [packet]
    {
      assert tail == head;
      queue[tail] := Some(packet);
      Wrap(tail, size);
      tail := (tail + 1) % size;
      ghost var oldHead := head;
      Wrap(head, size);
      head := (head + 1) % size;
      forall i | 0 <= i < count
        ensures queue[Slot(head, i, size)] == Some((contents[1..] + [packet])[i])
      {
        SlotAdvance(oldHead, i, size);
        if i + 1 < count {
          SlotsDistinct(oldHead, 0, i + 1, size);
        }
      }
      contents := contents[1..] + [packet];
    }

    /**
     * `next`: the oldest queued packet, removed from the ring; with nothing
     * queued the caller is registered as waiting, behind those already waiting,
     * and receives nothing now.
     */
    method Next(w: Waiter) returns (r: Option<MQTTPacket>)
      requires Valid()
      modifies this, queue
      ensures Valid()
      ensures old(contents) != [] ==>
        r == Some(old(contents)[0]) && contents == old(contents)[1..] && conts == old(conts)
      ensures old(contents) == [] ==> r == None && contents == [] && conts == old(conts) + [w]
      ensures delivered == old(delivered)
    {
      if count > 0 {
        assert queue[Slot(head, 0, size)] == Some(contents[0]);
        r := queue[head];
        queue[head] := None;
        ghost var oldHead := head;
        Wrap(head, size);
        head := (head + 1) % size;
        count := count - 1;
        forall i | 0 <= i < count
          ensures queue[Slot(head, i, size)] == Some(contents[i + 1])
        {
          SlotAdvance(oldHead, i, size);
          SlotsDistinct(oldHead, 0, i + 1, size);
        }
        contents := contents[1..];
        SlotAdvance(oldHead, count, size);
      } else {
        r := None;
        conts := conts + [w];
      }
    }
  }
}

/** Small histories of one buffer. */
module BufferScenarios {
  import opened Wrappers
  import opened Inflight
  import opened Packets
  import opened Buffering

  /** A ring of two keeps the two newest of three pushed packets and yields them oldest first. */
  method KeepsNewest(a: MQTTPacket, b: MQTTPacket, c: MQTTPacket, w: Waiter) returns (first: Option<MQTTPacket>, second: Option<MQTTPacket>, third: Option<MQTTPacket>)
    ensures first == Some(b) && second == Some(c) && third == None
  {
    var buffer := PushThree(a, b, c);
    first := buffer.Next(w);
    second := buffer.Next(w);
    third := buffer.Next(w);
  }

  /** Three pushes into a fresh ring of two leave the newest two queued. */
  method PushThree(a: MQTTPacket, b: MQTTPacket, c: MQTTPacket) returns (buffer: PacketBuffer)
    ensures fresh(buffer) && fresh(buffer.queue) && buffer.Valid()
    ensures buffer.contents == [b, c] && buffer.conts == []
  {
    buffer := new PacketBuffer(2);
    buffer.Push(a);
    buffer.Push(b);
    buffer.Push(c);
  }

  /** A consumer that waited on an empty buffer receives the next push; the packet is not also queued. */
  method WaiterServedFirst(p: MQTTPacket, w: Waiter, v: Waiter) returns (delivered: seq<Delivery>, later: Option<MQTTPacket>)
    ensures delivered == [Delivery(w, p)] && later == None
  {
    var buffer := new PacketBuffer(4);
    var none := buffer.Next(w);
    buffer.Push(p);
    delivered := buffer.delivered;
    later := buffer.Next(v);
  }
}

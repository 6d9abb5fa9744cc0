/** A task's mailbox (kernel/src/ipc/mod.rs): an eight-slot ring with a count,
    refined to the queue of messages it holds. */
module Mailboxes {
  import opened Wrappers
  import opened RingBuffer
  import opened Scheduler

  class Mailbox {
    const buffer: array<Option<Message>>
    var head: nat
    var tail: nat
    var count: nat

    /** Occupied places, and only those, hold a message. */
    ghost predicate Valid()
      reads this, buffer
    {
      && buffer.Length == MAILBOX_CAPACITY && head < MAILBOX_CAPACITY && count <= MAILBOX_CAPACITY
      && tail == Place(head, count, MAILBOX_CAPACITY)
      && forall i :: 0 <= i < MAILBOX_CAPACITY ==> (buffer[Place(head, i, MAILBOX_CAPACITY)].Some? <==> i < count)
    }

    ghost function Queue(): (q: seq<Message>)
      requires Valid()
      reads this, buffer
      ensures |q| == count
    {
      seq(count, i requires 0 <= i < count && Valid() reads this, buffer =>
        buffer[Place(head, i, MAILBOX_CAPACITY)].value)
    }

    constructor ()
      ensures Valid() && fresh(buffer) && Queue() == []
    {
      buffer := new Option<Message>[MAILBOX_CAPACITY](_ => None);
      head, tail, count := 0, 0, 0;
    }

    /** Fails exactly when eight messages wait. */
    method Push(msg: Message) returns (r: Result<(), ()>)
      requires Valid()
      modifies this, buffer
      ensures Valid()
      ensures r.Ok? <==> |old(Queue())| < MAILBOX_CAPACITY
      ensures Queue() == if r.Ok? then old(Queue()) + [msg] else old(Queue())
    {
      if MAILBOX_CAPACITY <= count { return Err(()); }
      buffer[tail] := Some(msg);
      PlaceIsRemainder(tail, 1, MAILBOX_CAPACITY);
      tail := (tail + 1) % MAILBOX_CAPACITY;
      count := count + 1;
      r := Ok(());
    }

    method Pop() returns (r: Option<Message>)
      requires Valid()
      modifies this, buffer
      ensures Valid()
      ensures if old(Queue()) == [] then r == None && Queue() == []
              else r == Some(old(Queue())[0]) && Queue() == old(Queue())[1..]
    {
      if count == 0 { return None; }
      r := buffer[head];
      buffer[head] := None;
      assert r == Some(old(Queue())[0]);
      PlaceIsRemainder(head, 1, MAILBOX_CAPACITY);
      ghost var was := head;
      head := (head + 1) % MAILBOX_CAPACITY;
      count := count - 1;
      forall i | 0 <= i < MAILBOX_CAPACITY
        ensures Place(head, i, MAILBOX_CAPACITY) ==
                if i < MAILBOX_CAPACITY - 1 then Place(was, i + 1, MAILBOX_CAPACITY) else was
      {
      }
    }
  }
}

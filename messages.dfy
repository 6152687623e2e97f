/**
 * The per-type message queues (src/MessageContainer.cs, and its twin
 * SilverECS.Core/src/MessageBus.cs): a dictionary from message type to a list of messages
 * of that type, used first in, first out.
 *
 * A message is a value of its queue's type, like a component value (module Components).
 */
module Messages {
  import opened Components

  /** What a type's queue holds: the stored list, or nothing before the type is first used. */
  function QueueOf(storage: map<TypeTag, seq<Value>>, t: TypeTag): (q: seq<Value>)
    ensures t !in storage ==> q == []
  {
    if t in storage then storage[t] else []
  }

  /** One PopMessage on a queue: its head and the rest, or nothing and the queue as it was. */
  datatype Popped = Popped(ok: bool, message: Value, rest: seq<Value>)

  /** PopMessage on a queue of type t: the head comes off; an empty queue gives false and default(T). */
  function PopHead(q: seq<Value>, t: TypeTag): (p: Popped)
    ensures p.ok <==> |q| > 0
    ensures p.ok ==> q == [p.message] + p.rest
    ensures !p.ok ==> p.message == Default(t) && p.rest == q
  {
    if |q| > 0 then Popped(true, q[0], q[1..]) else Popped(false, Default(t), q)
  }

  /** n PopMessage calls in a row: the messages they return, in order, and what is left. */
  function PopMany(q: seq<Value>, t: TypeTag, n: nat): (r: (seq<Value>, seq<Value>))
    ensures |r.0| == n
    ensures |r.1| == if n <= |q| then |q| - n else 0
    ensures forall i | |q| <= i < n :: r.0[i] == Default(t)
  {
    if n == 0 then ([], q)
    else
      var p := PopHead(q, t);
      var (later, rest) := PopMany(p.rest, t, n - 1);
      ([p.message] + later, rest)
  }

  /** First in, first out: popping n messages from a queue with at least n returns its
      first n messages in the order they were pushed and leaves the others. */
  lemma {:induction false} PopManyIsFifo(q: seq<Value>, t: TypeTag, n: nat)
    requires n <= |q|
    ensures PopMany(q, t, n) == (q[..n], q[n..])
  {
    if n > 0 {
      PopManyIsFifo(q[1..], t, n - 1);
      assert q[..n] == [q[0]] + q[1..][..n - 1];
      assert q[n..] == q[1..][n - 1..];
    }
  }

  /** Pushing ms onto a queue and popping as many messages as there were (old ones
      included) gives back exactly the old messages followed by ms and empties the queue. */
  lemma PushThenPopAll(q: seq<Value>, ms: seq<Value>, t: TypeTag)
    ensures PopMany(q + ms, t, |q| + |ms|) == (q + ms, [])
  {
    PopManyIsFifo(q + ms, t, |q| + |ms|);
    assert (q + ms)[..|q| + |ms|] == q + ms;
  }

  /** Once a queue is empty every further pop fails and changes nothing. */
  lemma {:induction false} PopEmpty(t: TypeTag, n: nat)
    ensures PopMany([], t, n).1 == []
    ensures forall i | 0 <= i < |PopMany([], t, n).0| :: PopMany([], t, n).0[i] == Default(t)
    ensures |PopMany([], t, n).0| == n
  {
    if n > 0 {
      PopEmpty(t, n - 1);
    }
  }

  class MessageContainer {
    /** Message type -> the messages of that type not yet popped, oldest first. */
    var storage: map<TypeTag, seq<Value>>

    /** A List<T> holds only messages of type T. */
    ghost predicate Valid()
      reads this
    {
      forall t | t in storage :: forall i | 0 <= i < |storage[t]| :: storage[t][i].ty == t
    }

    /** The queue of one type, empty for a type never used. */
    function Queue(t: TypeTag): (q: seq<Value>)
      reads this
    {
      QueueOf(storage, t)
    }

    constructor ()
      ensures Valid() && storage == map[]
    {
      storage := map[];
    }

    /** GetStorage<T>: the list of T, created and stored empty on first use. */
    method GetStorage(t: TypeTag) returns (q: seq<Value>)
      requires Valid()
      modifies this
      ensures Valid()
      ensures q == old(Queue(t))
      ensures storage == if t in old(storage) then old(storage) else old(storage)[t := []]
    {
      if t in storage {
        return storage[t];
      }
      storage := storage[t := []];
      return [];
    }

    /** PushMessage<T>: the message goes to the tail of T's queue. */
    method PushMessage(t: TypeTag, message: Value)
      requires Valid() && message.ty == t
      modifies this
      ensures Valid()
      ensures storage == old(storage)[t := old(Queue(t)) + [message]]
    {
      var list := GetStorage(t);
      storage := storage[t := list + [message]];
    }

    /** PushMessages<T>: all the messages go to the tail of T's queue, in enumeration order. */
    method PushMessages(t: TypeTag, messages: seq<Value>)
      requires Valid() && forall i | 0 <= i < |messages| :: messages[i].ty == t
      modifies this
      ensures Valid()
      ensures storage == old(storage)[t := old(Queue(t)) + messages]
    {
      var list := GetStorage(t);
      storage := storage[t := list + messages];
    }

    /** PopMessage<T>: takes the head of T's queue; false and default(T) when it is empty,
        and then the queue (created if it was missing) stays empty. */
    method PopMessage(t: TypeTag) returns (ok: bool, message: Value)
      requires Valid()
      modifies this
      ensures Valid()
      ensures Popped(ok, message, Queue(t)) == PopHead(old(Queue(t)), t)
      ensures storage == old(storage)[t := Queue(t)]
      ensures ok ==> message.ty == t
    {
      var list := GetStorage(t);
      if |list| > 0 {
        message := list[0];
        storage := storage[t := list[1..]];
        return true, message;
      }
      return false, Default(t);
    }

    /** PopMessages<T>: all of T's queue, oldest first; the queue is replaced by an empty one. */
    method PopMessages(t: TypeTag) returns (messages: seq<Value>)
      requires Valid()
      modifies this
      ensures Valid()
      ensures messages == old(Queue(t))
      ensures storage == old(storage)[t := []]
      ensures forall i | 0 <= i < |messages| :: messages[i].ty == t
    {
      messages := GetStorage(t);
      storage := storage[t := []];
    }

    /** Clear: every stored queue is emptied in place; the set of known types stays. */
    method Clear()
      requires Valid()
      modifies this
      ensures Valid()
      ensures storage.Keys == old(storage).Keys
      ensures forall t :: Queue(t) == []
    {
      var pending := storage.Keys;
      while pending != {}
        invariant pending <= storage.Keys == old(storage).Keys
        invariant forall t | t in storage :: storage[t] == if t in pending then old(storage)[t] else []
        invariant Valid()
        decreases pending
      {
        var t :| t in pending;
        storage := storage[t := []];
        pending := pending - {t};
      }
    }
  }
}

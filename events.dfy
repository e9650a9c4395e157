/**
 * The event emitter of `createEventEmitter`: a registry from event names to
 * the callbacks registered for them, in registration order.
 */
module Events {
  import opened Seqs

  /** The test `cb !== callback` that `off` filters with. */
  function Differs<C(==)>(callback: C): C -> bool {
    c => c != callback
  }

  /** The callbacks left after `off(event, callback)` removes `callback`. */
  function Without<C(==)>(callbacks: seq<C>, callback: C): (r: seq<C>)
    ensures callback !in r
    ensures forall c :: c in callbacks && c != callback ==> c in r
  {
    Filter(callbacks, Differs(callback))
  }

  class EventEmitter<C(==)> {
    /** The closure's `events` object: only names with a list are keys. */
    var events: map<string, seq<C>>

    /** The callbacks registered for `event`; none when it has no list. */
    function Listeners(event: string): seq<C>
      reads this
    {
      if event in events then events[event] else []
    }

    constructor()
      ensures events == map[]
    {
      events := map[];
    }

    /** `on`: creates the list when missing and appends, duplicates included. */
    method On(event: string, callback: C)
      modifies this
      ensures events == old(events)[event := old(Listeners(event)) + [callback]]
    {
      var callbacks := if event in events then events[event] else [];
      events := events[event := callbacks + [callback]];
    }

    /** `off`: nothing for an unknown event, else drops every `callback`. */
    method Off(event: string, callback: C)
      modifies this
      ensures event !in old(events) ==> events == old(events)
      ensures event in old(events) ==>
        events == old(events)[event := Without(old(events)[event], callback)]
    {
      if event !in events {
        return;
      }
      events := events[event := Without(events[event], callback)];
    }

    /**
     * `emit`: the callbacks invoked, in the order they are invoked; an
     * unknown event invokes none.
     */
    method Emit(event: string) returns (invoked: seq<C>)
      ensures invoked == Listeners(event)
      ensures event !in events ==> invoked == []
    {
      invoked := [];
      if event !in events {
        return;
      }
      var callbacks := events[event];
      var i := 0;
      while i < |callbacks|
        invariant 0 <= i <= |callbacks|
        invariant invoked == callbacks[..i]
      {
        invoked := invoked + [callbacks[i]];
        i := i + 1;
      }
    }
  }

  /**
   * `off` keeps every other callback, with its multiplicity, in its original
   * relative order.
   */
  lemma OffKeepsOthers<C>(callbacks: seq<C>, callback: C)
    ensures IsSubsequence(Without(callbacks, callback), callbacks)
    ensures multiset(Without(callbacks, callback))[callback] == 0
    ensures forall c :: c != callback ==>
      multiset(Without(callbacks, callback))[c] == multiset(callbacks)[c]
  {
    FilterIsSubsequence(callbacks, Differs(callback));
    FilterCount(callbacks, Differs(callback), callback);
    forall c | c != callback
      ensures multiset(Without(callbacks, callback))[c] == multiset(callbacks)[c]
    {
      FilterCount(callbacks, Differs(callback), c);
    }
  }

  /** Removing a callback that was never registered changes nothing. */
  lemma OffAbsent<C>(callbacks: seq<C>, callback: C)
    requires callback !in callbacks
    ensures Without(callbacks, callback) == callbacks
  {
    FilterAll(callbacks, Differs(callback));
  }

  /** `off` right after `on` with the same callback undoes the registration. */
  lemma {:induction false} OnThenOff<C>(callbacks: seq<C>, callback: C)
    ensures Without(callbacks + [callback], callback) == Without(callbacks, callback)
  {
    assert (callbacks + [callback])[..|callbacks|] == callbacks;
  }

  /** Removing is idempotent: a second `off` finds nothing left to remove. */
  lemma OffIdempotent<C>(callbacks: seq<C>, callback: C)
    ensures Without(Without(callbacks, callback), callback) == Without(callbacks, callback)
  {
    OffAbsent(Without(callbacks, callback), callback);
  }

  /** A scenario: `on(a)`, `on(b)`, `on(a)`, `off(a)`, then `emit` invokes `b` only. */
  method Scenario<C(==)>(a: C, b: C) returns (invoked: seq<C>)
    requires a != b
    ensures invoked == [b]
  {
    var emitter := new EventEmitter<C>();
    emitter.On("update", a);
    assert emitter.events["update"] == [a];
    emitter.On("update", b);
    assert emitter.events["update"] == [a, b];
    emitter.On("update", a);
    assert emitter.events["update"] == [a, b, a];
    emitter.Off("update", a);
    assert [a, b, a][..2] == [a, b] && [a, b][..1] == [a] && [a][..0] == [];
    assert Without([a], a) == [];
    assert Without([a, b], a) == [b];
    assert emitter.events["update"] == [b];
    invoked := emitter.Emit("update");
  }
}

/**
 * delegate: a list of (id, handler) listeners with ids from a counter shared by every delegate of
 * the same signature, a snapshot of the handlers (followed by an empty sentinel) rebuilt after
 * every change and walked on invocation, and delegate_token, which removes its listener when it
 * is cleared while the delegate is alive.
 */
module Delegates {
  import opened Wrappers

  /** A listener: its id and its handler; an empty std::function is None. */
  datatype Listener<F> = Listener(id: nat, handler: Option<F>)

  /** The handlers of the listeners, in list order. */
  function Handlers<F>(listeners: seq<Listener<F>>): (r: seq<Option<F>>)
    ensures |r| == |listeners| && forall i :: 0 <= i < |listeners| ==> r[i] == listeners[i].handler
  {
    seq(|listeners|, i requires 0 <= i < |listeners| => listeners[i].handler)
  }

  /** The readable buffer: every handler in list order, then an empty sentinel. */
  function Snapshot<F>(listeners: seq<Listener<F>>): seq<Option<F>>
  {
    Handlers(listeners) + [None]
  }

  /** Listener ids strictly increase along the list. */
  predicate IdsIncreasing<F>(listeners: seq<Listener<F>>)
  {
    forall i, j :: 0 <= i < j < |listeners| ==> listeners[i].id < listeners[j].id
  }

  /** The list with the first listener carrying the id erased (find_if, then erase). */
  function Without<F>(listeners: seq<Listener<F>>, id: nat): (r: seq<Listener<F>>)
  {
    if listeners == [] then []
    else if listeners[0].id == id then listeners[1..]
    else [listeners[0]] + Without(listeners[1..], id)
  }

  /** Erasing an id no listener has changes nothing; otherwise exactly the first listener with it goes. */
  lemma {:induction false} WithoutSpec<F>(listeners: seq<Listener<F>>, id: nat, i: nat)
    requires i <= |listeners| && forall j :: 0 <= j < i ==> listeners[j].id != id
    requires i < |listeners| ==> listeners[i].id == id
    ensures i == |listeners| ==> Without(listeners, id) == listeners
    ensures i < |listeners| ==> Without(listeners, id) == listeners[..i] + listeners[i + 1..]
  {
    if listeners != [] && i > 0 {
      WithoutSpec(listeners[1..], id, i - 1);
      if i < |listeners| {
        assert listeners[1..][..i - 1] + listeners[1..][i..] == listeners[1..i] + listeners[i + 1..];
        assert listeners[..i] == [listeners[0]] + listeners[1..i];
      }
    }
  }

  /** A listener added and then removed by its id, new to the list, leaves the list as it was. */
  lemma {:induction false} AddThenRemove<F>(listeners: seq<Listener<F>>, id: nat, handler: Option<F>)
    requires forall j :: 0 <= j < |listeners| ==> listeners[j].id != id
    ensures Without(listeners + [Listener(id, handler)], id) == listeners
  {
    var longer := listeners + [Listener(id, handler)];
    WithoutSpec(longer, id, |listeners|);
    assert longer[..|listeners|] == listeners;
  }

  /** The handlers the invocation loop calls as written: those before the first empty entry. */
  function CalledAsWritten<F>(buffer: seq<Option<F>>): seq<F>
  {
    if buffer == [] || buffer[0].None? then [] else [buffer[0].value] + CalledAsWritten(buffer[1..])
  }

  /** The walk calls the handlers of the leading set entries, in order, and stops at the first empty one. */
  lemma {:induction false} CalledAsWrittenStops<F>(buffer: seq<Option<F>>)
    ensures |CalledAsWritten(buffer)| <= |buffer|
    ensures forall k :: 0 <= k < |CalledAsWritten(buffer)| ==> buffer[k] == Some(CalledAsWritten(buffer)[k])
    ensures |CalledAsWritten(buffer)| < |buffer| ==> buffer[|CalledAsWritten(buffer)|].None?
  {
    if buffer != [] && buffer[0].Some? {
      CalledAsWrittenStops(buffer[1..]);
    }
  }

  /** One step of the walk: a set entry is called, then the walk goes on from the next one. */
  lemma CalledAsWrittenStep<F>(buffer: seq<Option<F>>, k: nat)
    requires k < |buffer| && buffer[k].Some?
    ensures CalledAsWritten(buffer[k..]) == [buffer[k].value] + CalledAsWritten(buffer[k + 1..])
  {
    assert buffer[k..][1..] == buffer[k + 1..];
  }

  /** Moving x from the front of the rest to the end of what was already called keeps the whole. */
  lemma PushFront<F>(calls: seq<F>, x: F, rest: seq<F>)
    ensures (calls + [x]) + rest == calls + ([x] + rest)
  {
  }

  /** The non-empty handlers from index i on: the one at i when it is set, then those after it. */
  lemma NonEmptyStep<F>(handlers: seq<Option<F>>, i: nat)
    requires i < |handlers|
    ensures NonEmpty(handlers[i..]) == (if handlers[i].Some? then [handlers[i].value] else []) + NonEmpty(handlers[i + 1..])
  {
    assert handlers[i..][1..] == handlers[i + 1..];
  }

  /** The non-empty handlers, in order. */
  function NonEmpty<F>(handlers: seq<Option<F>>): (r: seq<F>)
    ensures |r| <= |handlers|
  {
    if handlers == [] then []
    else if handlers[0].None? then NonEmpty(handlers[1..])
    else [handlers[0].value] + NonEmpty(handlers[1..])
  }

  /** When no handler is empty, the walk as written calls every handler once, in list order. */
  lemma {:induction false} CalledAsWrittenAllSet<F>(listeners: seq<Listener<F>>)
    requires forall i :: 0 <= i < |listeners| ==> listeners[i].handler.Some?
    ensures CalledAsWritten(Snapshot(listeners)) == NonEmpty(Handlers(listeners))
    ensures |CalledAsWritten(Snapshot(listeners))| == |listeners|
  {
    if listeners != [] {
      CalledAsWrittenAllSet(listeners[1..]);
      assert Snapshot(listeners)[1..] == Snapshot(listeners[1..]);
      assert Handlers(listeners)[1..] == Handlers(listeners[1..]);
    }
  }

  /** An empty handler added first hides a handler added after it from every invocation as written. */
  lemma EmptyHandlerHidesLater<F>(f: F)
    ensures CalledAsWritten(Snapshot([Listener(0, None), Listener(1, Some(f))])) == []
    ensures NonEmpty(Handlers([Listener(0, None), Listener(1, Some(f))])) == [f]
  {
    var handlers := Handlers([Listener(0, None), Listener(1, Some(f))]);
    assert handlers == [None, Some(f)];
    assert handlers[1..] == [Some(f)];
    assert handlers[1..][1..] == [];
  }

  /** The static global_counter_ shared by every delegate with the same signature. */
  class IdCounter {
    var next: nat

    constructor ()
      ensures next == 0
    {
      next := 0;
    }
  }

  /** delegate<Result, Args...>. */
  class Delegate<F> {
    const counter: IdCounter
    var listeners: seq<Listener<F>>
    var snapshot: seq<Option<F>>
    /** Whether lifetime_observer_ is still owned, that is, whether the delegate is alive. */
    var alive: bool

    /** Ids increase and were all drawn from the counter; the snapshot matches the list. */
    ghost predicate Valid()
      reads this, counter
    {
      IdsValid() && snapshot == Snapshot(listeners)
    }

    /** Ids increase along the list and were all drawn from the counter. */
    ghost predicate IdsValid()
      reads this, counter
    {
      && IdsIncreasing(listeners)
      && (forall i :: 0 <= i < |listeners| ==> listeners[i].id < counter.next)
    }

    /** delegate(): no listeners, a snapshot holding only the sentinel. */
    constructor (counter: IdCounter)
      ensures this.counter == counter && listeners == [] && snapshot == [None] && alive && Valid()
    {
      this.counter := counter;
      listeners := [];
      snapshot := [None];
      alive := true;
    }

    /** update_readable_buffer: a new buffer of |listeners| + 1 empty entries, filled with the handlers. */
    method UpdateReadableBuffer()
      modifies this
      ensures snapshot == Snapshot(listeners)
      ensures listeners == old(listeners) && alive == old(alive)
    {
      var buffer: seq<Option<F>> := seq(|listeners| + 1, _ => None);
      var i := 0;
      while i < |listeners|
        invariant 0 <= i <= |listeners| && |buffer| == |listeners| + 1
        invariant forall k :: 0 <= k < i ==> buffer[k] == listeners[k].handler
        invariant forall k :: i <= k < |buffer| ==> buffer[k].None?
      {
        buffer := buffer[i := listeners[i].handler];
        i := i + 1;
      }
      snapshot := buffer;
    }

    /** add_listener: appends the handler under the counter's next id, which the counter then passes. */
    method AddListener(handler: Option<F>) returns (id: nat)
      requires IdsValid()
      modifies this, counter
      ensures id == old(counter.next) && counter.next == old(counter.next) + 1
      ensures listeners == old(listeners) + [Listener(id, handler)]
      ensures snapshot == old(snapshot) && alive == old(alive)
      ensures IdsValid()
    {
      id := counter.next;
      counter.next := counter.next + 1;
      listeners := listeners + [Listener(id, handler)];
    }

    /** operator+=(handler) and add_listener_with_updating: add_listener, then a new snapshot. */
    method Add(handler: Option<F>) returns (id: nat)
      requires Valid()
      modifies this, counter
      ensures Valid() && id == old(counter.next) && counter.next == old(counter.next) + 1
      ensures listeners == old(listeners) + [Listener(id, handler)] && alive == old(alive)
    {
      id := AddListener(handler);
      UpdateReadableBuffer();
    }

    /**
     * operator+=(delegate): each of the other delegate's handlers is added under a fresh id, in
     * its order, then a new snapshot is made. (Appending a delegate to itself walks a vector that
     * grows under the walk, which is undefined, so the two must differ.)
     */
    method Append(right: Delegate<F>)
      requires Valid() && right != this
      modifies this, counter
      ensures Valid() && alive == old(alive)
      ensures counter.next == old(counter.next) + |old(right.listeners)|
      ensures |listeners| == |old(listeners)| + |old(right.listeners)|
      ensures listeners[..|old(listeners)|] == old(listeners)
      ensures forall k :: 0 <= k < |old(right.listeners)| ==>
        listeners[|old(listeners)| + k] == Listener(old(counter.next) + k, old(right.listeners)[k].handler)
    {
      var others := right.listeners;
      var k := 0;
      while k < |others|
        invariant 0 <= k <= |others| && right.listeners == others
        invariant snapshot == old(snapshot) && alive == old(alive)
        invariant counter.next == old(counter.next) + k
        invariant |listeners| == |old(listeners)| + k && listeners[..|old(listeners)|] == old(listeners)
        invariant forall j :: 0 <= j < k ==> listeners[|old(listeners)| + j] == Listener(old(counter.next) + j, others[j].handler)
        invariant IdsValid()
      {
        var id := AddListener(others[k].handler);
        k := k + 1;
      }
      UpdateReadableBuffer();
    }

    /** remove_listener: the first listener with the id is erased and a new snapshot made; an unknown id changes nothing. */
    method RemoveListener(id: nat)
      requires Valid()
      modifies this
      ensures Valid() && alive == old(alive)
      ensures listeners == Without(old(listeners), id)
    {
      var i := 0;
      while i < |listeners|
        invariant 0 <= i <= |listeners| && listeners == old(listeners) && snapshot == old(snapshot)
        invariant forall j :: 0 <= j < i ==> listeners[j].id != id
      {
        if listeners[i].id == id {
          WithoutSpec(listeners, id, i);
          listeners := listeners[..i] + listeners[i + 1..];
          UpdateReadableBuffer();
          return;
        }
        i := i + 1;
      }
      WithoutSpec(listeners, id, i);
    }

    /**
     * operator() as written: walks the snapshot until an empty entry and calls each handler; the
     * result is the last handler's, or Result{} when none was called.
     */
    method InvokeAsWritten<R>(call: F -> R, default: R) returns (calls: seq<F>, result: R)
      requires Valid()
      ensures calls == CalledAsWritten(snapshot)
      ensures result == if calls == [] then default else call(calls[|calls| - 1])
    {
      calls := [];
      result := default;
      var buffer := snapshot;
      var k := 0;
      while buffer[k].Some?
        invariant 0 <= k < |buffer| && buffer[|buffer| - 1].None?
        invariant calls + CalledAsWritten(buffer[k..]) == CalledAsWritten(buffer)
        invariant result == if calls == [] then default else call(calls[|calls| - 1])
        decreases |buffer| - k
      {
        CalledAsWrittenStep(buffer, k);
        PushFront(calls, buffer[k].value, CalledAsWritten(buffer[k + 1..]));
        calls := calls + [buffer[k].value];
        result := call(buffer[k].value);
        k := k + 1;
      }
      assert CalledAsWritten(buffer[k..]) == [];
    }

    /**
     * operator(), corrected to walk all |listeners| entries and skip the empty ones: every non-empty handler
     * is called once, in list order, whatever handlers are empty.
     */
    method Invoke<R>(call: F -> R, default: R) returns (calls: seq<F>, result: R)
      requires Valid()
      ensures calls == NonEmpty(Handlers(listeners))
      ensures result == if calls == [] then default else call(calls[|calls| - 1])
    {
      calls := [];
      result := default;
      var handlers := snapshot[..|listeners|];
      assert handlers == Handlers(listeners);
      var i := 0;
      while i < |handlers|
        invariant 0 <= i <= |handlers|
        invariant calls + NonEmpty(handlers[i..]) == NonEmpty(handlers)
        invariant result == if calls == [] then default else call(calls[|calls| - 1])
      {
        NonEmptyStep(handlers, i);
        if handlers[i].Some? {
          PushFront(calls, handlers[i].value, NonEmpty(handlers[i + 1..]));
          calls := calls + [handlers[i].value];
          result := call(handlers[i].value);
        }
        i := i + 1;
      }
    }

    /** ~delegate: the lifetime observer goes, so tokens no longer call back. */
    method Destroy()
      modifies this
      ensures !alive && listeners == old(listeners)
    {
      alive := false;
    }

    /** add_listener_auto_removal: adds the handler and returns a token bound to this delegate and the new id. */
    method AddListenerAutoRemoval(handler: Option<F>) returns (token: DelegateToken<F>)
      requires Valid()
      modifies this, counter
      ensures Valid() && fresh(token) && token.source == Some(this) && token.id == old(counter.next)
      ensures listeners == old(listeners) + [Listener(token.id, handler)] && alive == old(alive)
    {
      var id := Add(handler);
      token := new DelegateToken.Bound(this, id);
    }
  }

  /** delegate_token: the id, and the delegate whose remove_listener it calls (None when default or moved from). */
  class DelegateToken<F> {
    var id: nat
    var source: Option<Delegate<F>>

    /** delegate_token(): id 0, nothing to call. */
    constructor ()
      ensures id == 0 && source.None?
    {
      id := 0;
      source := None;
    }

    constructor Bound(source: Delegate<F>, id: nat)
      ensures this.id == id && this.source == Some(source)
    {
      this.id := id;
      this.source := Some(source);
    }

    /** The move constructor: takes the id (leaving 0) and the observer and handler (leaving none). */
    constructor Move(other: DelegateToken<F>)
      modifies other
      ensures id == old(other.id) && source == old(other.source)
      ensures other.id == 0 && other.source.None?
    {
      id := other.id;
      source := other.source;
      new;
      other.id := 0;
      other.source := None;
    }

    /**
     * clear and ~delegate_token: while the delegate is alive, its remove_listener is called with the
     * id; otherwise nothing happens. The token itself keeps its id and delegate.
     */
    method Clear()
      requires source.Some? ==> source.value.Valid()
      modifies if source.Some? then {source.value} else {}
      ensures source.Some? && old(source.value.alive) ==>
        source.value.Valid() && source.value.listeners == Without(old(source.value.listeners), id)
      ensures source.None? || !old(source.value.alive) ==> source.None? || unchanged(source.value)
    {
      if source.Some? && source.value.alive {
        source.value.RemoveListener(id);
      }
    }

    /**
     * The move assignment: clears this token first (its delegate, if alive, drops the old id), then
     * takes the other token's id and delegate, leaving the other one with id 0 and no delegate.
     * Assigning a token to itself keeps its id and delegate.
     */
    method MoveAssign(right: DelegateToken<F>)
      requires source.Some? ==> source.value.Valid()
      modifies this, right, if source.Some? then {source.value} else {}
      ensures id == old(right.id) && source == old(right.source)
      ensures right != this ==> right.id == 0 && right.source.None?
      ensures old(source).Some? && old(source.value.alive) ==>
        old(source).value.Valid() && old(source).value.listeners == Without(old(source.value.listeners), old(id))
    {
      Clear();
      var taken, from := right.id, right.source;
      right.id, right.source := 0, None;
      id, source := taken, from;
    }
  }
}

/**
 * profiler: a stack of open scopes, each named after its parent, and the list of closed scopes,
 * recorded only while the profiler runs. The clock is a parameter: each call is given now().
 */
module Profilers {
  import opened Meta

  /** A scope: its name and its start and end in microseconds since the profiler was made. */
  datatype Scope = Scope(name: string, startMicros: nat, endMicros: nat)

  /** now() - init_ in unsigned 64-bit arithmetic. */
  function Elapsed(now: nat, init: nat): (r: nat)
    ensures r < SizeMax
    ensures init <= now < init + SizeMax ==> r == now - init
  {
    (now - init) % SizeMax
  }

  /** The name of a scope opened inside another: the parent's name, a colon, then its own. */
  function NestedName(parent: string, name: string): (r: string)
    ensures |r| == |parent| + 1 + |name|
    ensures r[..|parent| + 1] == parent + ":" && r[|parent| + 1..] == name
  {
    parent + ":" + name
  }

  class Profiler {
    var running: bool
    var stack: seq<Scope>
    var scopes: seq<Scope>
    const init: nat

    /** Each open scope's name extends its parent's name and a colon; nothing is open while stopped. */
    ghost predicate Valid()
      reads this
    {
      && (!running ==> stack == [])
      && (forall i :: 0 < i < |stack| ==> stack[i - 1].name + ":" <= stack[i].name)
    }

    /** profiler(): not running, no scopes, the clock reading kept as init_. */
    constructor (now: nat)
      ensures Valid() && !running && stack == [] && scopes == [] && init == now
    {
      running := false;
      stack := [];
      scopes := [];
      init := now;
    }

    /** scope_start: while running, opens a scope named after the open one (or alone at the top). */
    method ScopeStart(name: string, now: nat)
      requires Valid()
      modifies this
      ensures Valid() && running == old(running) && scopes == old(scopes)
      ensures !running ==> stack == old(stack)
      ensures running ==> stack == old(stack) + [Scope(
        if old(stack) == [] then name else NestedName(old(stack)[|old(stack)| - 1].name, name),
        Elapsed(now, init), 0)]
    {
      if !running {
        return;
      }
      var scopeName := if stack == [] then name else NestedName(stack[|stack| - 1].name, name);
      stack := stack + [Scope(scopeName, Elapsed(now, init), 0)];
    }

    /** scope_end: while running, the open scope (there must be one) gets its end time and moves to the closed list. */
    method ScopeEnd(now: nat)
      requires Valid()
      requires running ==> stack != []
      modifies this
      ensures Valid() && running == old(running)
      ensures !running ==> stack == old(stack) && scopes == old(scopes)
      ensures running ==> stack == old(stack)[..|old(stack)| - 1]
      ensures running ==> scopes == old(scopes) + [old(stack)[|old(stack)| - 1].(endMicros := Elapsed(now, init))]
    {
      if !running {
        return;
      }
      var current := stack[|stack| - 1].(endMicros := Elapsed(now, init));
      scopes := scopes + [current];
      stack := stack[..|stack| - 1];
    }

    /** turn_on: the profiler must be stopped; it starts running. */
    method TurnOn()
      requires Valid() && !running
      modifies this
      ensures Valid() && running && stack == old(stack) && scopes == old(scopes)
    {
      running := true;
    }

    /** turn_off: the profiler must be running with no open scope; it stops. */
    method TurnOff()
      requires Valid() && running && stack == []
      modifies this
      ensures Valid() && !running && stack == old(stack) && scopes == old(scopes)
    {
      running := false;
    }
  }

  /**
   * A scope opened and closed while running: the stack is back as it was and the closed list
   * gains one scope with the nested name, its start, and its end.
   */
  method StartThenEnd(p: Profiler, name: string, start: nat, end: nat)
    requires p.Valid() && p.running
    modifies p
    ensures p.Valid() && p.running && p.stack == old(p.stack)
    ensures p.scopes == old(p.scopes) + [Scope(
      if old(p.stack) == [] then name else NestedName(old(p.stack)[|old(p.stack)| - 1].name, name),
      Elapsed(start, p.init), Elapsed(end, p.init))]
  {
    p.ScopeStart(name, start);
    p.ScopeEnd(end);
  }
}

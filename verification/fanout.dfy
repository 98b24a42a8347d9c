/**
 * Local listener lists: registration, removal, and delivery of one message
 * to every registered listener.  A listener is an opaque value (a callback's
 * identity); whether calling it throws is given by `throws`.
 */
module FanOut {

  /** onMessage: a new listener is appended after the existing ones. */
  function Subscribe<L>(ls: seq<L>, cb: L): (r: seq<L>)
    ensures |r| == |ls| + 1
    ensures r[..|ls|] == ls && r[|ls|] == cb
  {
    ls + [cb]
  }

  /** No listener of `ls` throws when called. */
  predicate NoneThrows<L>(ls: seq<L>, throws: L -> bool) {
    forall i :: 0 <= i < |ls| ==> !throws(ls[i])
  }

  /** The unsubscribe closure of usePlayroom's onMessage: drop every occurrence of `cb`. */
  function Unsubscribe<L(==)>(ls: seq<L>, cb: L): (r: seq<L>)
    ensures forall i :: 0 <= i < |r| ==> r[i] in ls && r[i] != cb
    ensures forall i :: 0 <= i < |ls| && ls[i] != cb ==> ls[i] in r
    ensures |r| <= |ls|
    decreases |ls|
  {
    if |ls| == 0 then []
    else (if ls[0] == cb then [] else [ls[0]]) + Unsubscribe(ls[1..], cb)
  }

  /** Removing a listener that is not registered changes nothing. */
  lemma {:induction false} UnsubscribeAbsent<L>(ls: seq<L>, cb: L)
    requires cb !in ls
    ensures Unsubscribe(ls, cb) == ls
    decreases |ls|
  {
    if |ls| > 0 {
      UnsubscribeAbsent(ls[1..], cb);
      assert ls == [ls[0]] + ls[1..];
    }
  }

  /** Removal distributes over concatenation. */
  lemma {:induction false} UnsubscribeAppend<L>(a: seq<L>, b: seq<L>, cb: L)
    ensures Unsubscribe(a + b, cb) == Unsubscribe(a, cb) + Unsubscribe(b, cb)
    decreases |a|
  {
    if |a| > 0 {
      assert (a + b)[1..] == a[1..] + b;
      UnsubscribeAppend(a[1..], b, cb);
    } else {
      assert a + b == b;
    }
  }

  /** Subscribing a new listener and calling its unsubscribe restores the list. */
  lemma UnsubscribeUndoesSubscribe<L>(ls: seq<L>, cb: L)
    requires cb !in ls
    ensures Unsubscribe(Subscribe(ls, cb), cb) == ls
  {
    UnsubscribeAppend(ls, [cb], cb);
    UnsubscribeAbsent(ls, cb);
    assert Unsubscribe([cb], cb) == [];
  }

  /** The number of listeners in `ls` that throw. */
  function CountThrowing<L>(ls: seq<L>, throws: L -> bool): nat
    decreases |ls|
  {
    if |ls| == 0 then 0
    else CountThrowing(ls[..|ls| - 1], throws) + (if throws(ls[|ls| - 1]) then 1 else 0)
  }

  /** Nothing is logged exactly when no listener throws. */
  lemma {:induction false} NoThrowsNothingLogged<L>(ls: seq<L>, throws: L -> bool)
    ensures CountThrowing(ls, throws) == 0 <==> NoneThrows(ls, throws)
    decreases |ls|
  {
    if |ls| > 0 {
      var pre := ls[..|ls| - 1];
      NoThrowsNothingLogged(pre, throws);
      assert forall i :: 0 <= i < |pre| ==> pre[i] == ls[i];
    }
  }

  /**
   * notifyListeners of the WebSocket and Playroom layers: each listener is
   * called inside its own try/catch, so every listener is called, in
   * registration order, and each one that throws is logged once.
   */
  method NotifyListeners<L>(listeners: seq<L>, throws: L -> bool) returns (called: seq<L>, logged: nat)
    ensures called == listeners
    ensures logged == CountThrowing(listeners, throws)
    ensures logged <= |listeners|
  {
    called, logged := [], 0;
    var i := 0;
    while i < |listeners|
      invariant 0 <= i <= |listeners|
      invariant called == listeners[..i]
      invariant logged == CountThrowing(listeners[..i], throws)
      invariant logged <= i
    {
      var cb := listeners[i];
      called := called + [cb];
      if throws(cb) {
        logged := logged + 1;
      }
      assert listeners[..i + 1][..i] == listeners[..i];
      i := i + 1;
    }
    assert listeners[..i] == listeners;
  }

  /**
   * The plain forEach of usePlayroom's handlers: listeners are called in
   * order until one throws; that exception escapes and the later listeners
   * are not called.
   */
  function DeliverUnguarded<L>(listeners: seq<L>, throws: L -> bool): (r: (seq<L>, bool))
    ensures |r.0| <= |listeners| && r.0 == listeners[..|r.0|]
    ensures forall i :: 0 <= i < |r.0| - 1 ==> !throws(r.0[i])
    ensures r.1 <==> |r.0| > 0 && throws(r.0[|r.0| - 1])
    ensures !r.1 ==> r.0 == listeners
    ensures r.1 <==> !NoneThrows(listeners, throws)
    decreases |listeners|
  {
    if |listeners| == 0 then ([], false)
    else if throws(listeners[0]) then ([listeners[0]], true)
    else
      var rest := DeliverUnguarded(listeners[1..], throws);
      ([listeners[0]] + rest.0, rest.1)
  }

  /**
   * The two deliveries differ exactly when a listener throws: with a thrower
   * before the last place the unguarded loop skips the later listeners,
   * which the isolating one still calls.
   */
  lemma UnguardedSkipsAfterThrow<L>(listeners: seq<L>, throws: L -> bool, j: nat)
    requires j < |listeners| - 1 && throws(listeners[j])
    ensures |DeliverUnguarded(listeners, throws).0| <= j + 1 < |listeners|
    ensures DeliverUnguarded(listeners, throws).1
  {
  }
}

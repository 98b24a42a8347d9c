/**
 * The WebSocket/BroadcastChannel communication layer: the bounded,
 * exponentially growing reconnect schedule, the two-channel send, and
 * delivery of incoming messages to the registered listeners.  Sockets,
 * timers and JSON parsing are outside the model; their outcomes are given.
 */
module Communication {
  import FanOut

  /** maxReconnectAttempts. */
  const MaxReconnectAttempts: nat := 5
  /** The base of the backoff, in milliseconds. */
  const BaseDelayMs: nat := 1000
  /** The cap on any reconnect delay, in milliseconds. */
  const MaxDelayMs: nat := 10000

  function Pow2(n: nat): (p: nat)
    ensures p >= 1
  {
    if n == 0 then 1 else 2 * Pow2(n - 1)
  }

  /** Powers of two grow with the exponent. */
  lemma {:induction false} Pow2Monotone(m: nat, n: nat)
    requires m <= n
    ensures Pow2(m) <= Pow2(n)
    decreases n - m
  {
    if m < n {
      Pow2Monotone(m, n - 1);
    }
  }

  /** The delay before reconnect number `attempt`: `1000 * 2^attempt`, capped at 10000. */
  function ReconnectDelay(attempt: nat): (d: nat)
    ensures d <= MaxDelayMs
    ensures d == MaxDelayMs || d == BaseDelayMs * Pow2(attempt)
    ensures BaseDelayMs * Pow2(attempt) <= MaxDelayMs ==> d == BaseDelayMs * Pow2(attempt)
    ensures attempt >= 4 ==> d == MaxDelayMs
  {
    var raw := BaseDelayMs * Pow2(attempt);
    assert attempt >= 4 ==> raw > MaxDelayMs by {
      if attempt >= 4 {
        Pow2Monotone(4, attempt);
        assert Pow2(4) == 16;
      }
    }
    if raw < MaxDelayMs then raw else MaxDelayMs
  }

  /** The reconnect counter of a Communication object. */
  datatype Backoff = Backoff(reconnectAttempts: nat)

  /** What a close leads to: a new socket after a delay, or nothing more. */
  datatype Decision = ReconnectIn(delayMs: nat) | GiveUp

  /** The counter never passes the maximum. */
  predicate Bounded(b: Backoff) {
    b.reconnectAttempts <= MaxReconnectAttempts
  }

  /**
   * handleReconnect, run when the socket closes: below the maximum, count the
   * attempt and schedule a new socket after the delay for the new count;
   * at the maximum, give up and leave the counter as it is.
   */
  function HandleReconnect(b: Backoff): (r: (Backoff, Decision))
    ensures r.1.ReconnectIn? <==> b.reconnectAttempts < MaxReconnectAttempts
    ensures r.1.ReconnectIn? ==> r.0.reconnectAttempts == b.reconnectAttempts + 1
    ensures r.1.ReconnectIn? ==> r.1.delayMs == ReconnectDelay(r.0.reconnectAttempts) <= MaxDelayMs
    ensures r.1.GiveUp? ==> r.0 == b
    ensures Bounded(b) ==> Bounded(r.0)
  {
    if b.reconnectAttempts < MaxReconnectAttempts then
      var next := Backoff(b.reconnectAttempts + 1);
      (next, ReconnectIn(ReconnectDelay(next.reconnectAttempts)))
    else
      (b, GiveUp)
  }

  /** onopen: a socket that opens resets the counter. */
  function OnOpen(b: Backoff): (r: Backoff)
    ensures r.reconnectAttempts == 0
    ensures Bounded(r) && r.reconnectAttempts <= b.reconnectAttempts
  {
    Backoff(0)
  }

  /** After a successful open, the next close schedules the shortest delay again. */
  lemma OpenRestartsSchedule(b: Backoff)
    ensures HandleReconnect(OnOpen(b)) == (Backoff(1), ReconnectIn(2000))
  {
    assert Pow2(1) == 2;
  }

  /** The counter and the decisions after `n` closes with no successful open in between. */
  function Closes(b: Backoff, n: nat): (r: (Backoff, seq<Decision>))
    ensures |r.1| == n
    decreases n
  {
    if n == 0 then (b, [])
    else
      var step := HandleReconnect(b);
      var rest := Closes(step.0, n - 1);
      (rest.0, [step.1] + rest.1)
  }

  /**
   * Close number `i` of a run of consecutive closes schedules a reconnect
   * exactly when it is among the first `5 - attempts`, after the delay for
   * its own count; every later close gives up.
   */
  lemma {:induction false} CloseDecision(b: Backoff, n: nat, i: nat)
    requires Bounded(b) && i < n
    ensures Closes(b, n).1[i]
            == if i < MaxReconnectAttempts - b.reconnectAttempts
               then ReconnectIn(ReconnectDelay(b.reconnectAttempts + i + 1))
               else GiveUp
    decreases i
  {
    var a := b.reconnectAttempts;
    var step := HandleReconnect(b);
    var rest := Closes(step.0, n - 1);
    assert Closes(b, n).1 == [step.1] + rest.1;
    if i == 0 {
      assert Closes(b, n).1[0] == step.1;
    } else {
      CloseDecision(step.0, n - 1, i - 1);
      assert Closes(b, n).1[i] == rest.1[i - 1];
      if a < MaxReconnectAttempts {
        assert step.0.reconnectAttempts + (i - 1) + 1 == a + i + 1;
      } else {
        assert step.0 == b;
      }
    }
  }

  /** After `n` consecutive closes the counter has grown by `n`, but never past 5. */
  lemma {:induction false} ClosesCounter(b: Backoff, n: nat)
    requires Bounded(b)
    ensures Closes(b, n).0.reconnectAttempts
            == if b.reconnectAttempts + n < MaxReconnectAttempts then b.reconnectAttempts + n
               else MaxReconnectAttempts
    decreases n
  {
    if n > 0 {
      ClosesCounter(HandleReconnect(b).0, n - 1);
    }
  }

  /**
   * Along consecutive closes the first `5 - attempts` schedule a reconnect,
   * each after the delay for its own count, and every later one gives up;
   * the counter ends at the number of reconnects scheduled, never past 5.
   */
  lemma ClosesAreBounded(b: Backoff, n: nat)
    requires Bounded(b)
    ensures var r := Closes(b, n);
            var left := MaxReconnectAttempts - b.reconnectAttempts;
            && (forall i :: 0 <= i < n ==> (r.1[i].ReconnectIn? <==> i < left))
            && (forall i :: 0 <= i < n && i < left ==>
                  r.1[i] == ReconnectIn(ReconnectDelay(b.reconnectAttempts + i + 1)))
            && r.0.reconnectAttempts == (if n < left then b.reconnectAttempts + n else MaxReconnectAttempts)
  {
    forall i | 0 <= i < n {
      CloseDecision(b, n, i);
    }
    ClosesCounter(b, n);
  }

  /** From a fresh counter, six closes in a row give 2, 4, 8, 10 and 10 seconds, then nothing. */
  lemma FreshSchedule()
    ensures Closes(Backoff(0), 6).1
            == [ReconnectIn(2000), ReconnectIn(4000), ReconnectIn(8000),
                ReconnectIn(10000), ReconnectIn(10000), GiveUp]
  {
    assert Pow2(1) == 2 && Pow2(2) == 4 && Pow2(3) == 8;
    ClosesAreBounded(Backoff(0), 6);
  }

  /** The channels a message goes out on. */
  datatype Route = ViaChannel | ViaSocket

  /**
   * send: post on the BroadcastChannel when there is one and on the socket
   * when it is open, each in its own try/catch, so a failure of one channel
   * does not stop the other.
   */
  function Send(hasChannel: bool, channelThrows: bool, socketOpen: bool, socketThrows: bool): (delivered: seq<Route>)
    ensures ViaChannel in delivered <==> hasChannel && !channelThrows
    ensures ViaSocket in delivered <==> socketOpen && !socketThrows
    ensures |delivered| <= 2
    ensures |delivered| == 2 ==> delivered == [ViaChannel, ViaSocket]
  {
    (if hasChannel && !channelThrows then [ViaChannel] else [])
    + (if socketOpen && !socketThrows then [ViaSocket] else [])
  }

  /**
   * Each channel's try/catch isolates it from the other: whether the socket
   * delivers does not depend on the BroadcastChannel at all, and the other
   * way round.
   */
  lemma ChannelsIndependent(hasChannel: bool, channelThrows: bool, otherChannel: bool, otherChannelThrows: bool,
                            socketOpen: bool, socketThrows: bool, otherOpen: bool, otherSocketThrows: bool)
    ensures ViaSocket in Send(hasChannel, channelThrows, socketOpen, socketThrows)
            <==> ViaSocket in Send(otherChannel, otherChannelThrows, socketOpen, socketThrows)
    ensures ViaChannel in Send(hasChannel, channelThrows, socketOpen, socketThrows)
            <==> ViaChannel in Send(hasChannel, channelThrows, otherOpen, otherSocketThrows)
  {
  }

  /**
   * The socket's onmessage: a frame that parses as JSON goes to every
   * listener through the isolating fan-out; one that does not parse is
   * logged once and reaches no listener.
   */
  method OnSocketMessage<L>(listeners: seq<L>, parses: bool, throws: L -> bool)
    returns (called: seq<L>, logged: nat)
    ensures !parses ==> called == [] && logged == 1
    ensures parses ==> called == listeners && logged == FanOut.CountThrowing(listeners, throws)
  {
    if !parses {
      called, logged := [], 1;
      return;
    }
    called, logged := FanOut.NotifyListeners(listeners, throws);
  }
}

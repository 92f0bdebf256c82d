/**
 * `Inflight.swift`: where each client-initiated exchange stands, and the
 * `TimeoutTask` that lets a caller wait for its acknowledgement or its timeout.
 */
module Inflight {
  import opened Wrappers
  import opened Wire
  import opened Errors

  datatype PublishQoS1State = PublishSent1 | PubAckReceived
  datatype PublishQoS2State = PublishSent2 | PubRecReceived | PubRelSent | PubCompReceived
  datatype SubscribeState = SubscribeSent | Done
  datatype UnsubscribeState = UnsubSent

  datatype InflightState =
    | PublishQoS1(qos1: PublishQoS1State)
    | PublishQoS2(qos2: PublishQoS2State)
    | Subscribing(subscribe: SubscribeState)
    | Unsubscribing(unsubscribe: UnsubscribeState)

  /** How a wait ends: the acknowledgement arrived, or an error (a timeout) is thrown. */
  datatype Outcome = Success | Failure(error: MQTTError)

  /** A suspended caller of `wait()`, known only by a name. */
  datatype Waiter = Waiter(name: nat)

  /** One resumption of a suspended caller, with what it was resumed with. */
  datatype Resumption = Resumption(waiter: Waiter, outcome: Outcome)

  /**
   * `TimeoutTask`. `timerRunning` stands for the sleeping `task`; the timer firing
   * is the separate event `Expire`. `resumed` records every continuation resumed,
   * in order: the only effect a resumption has.
   */
  class TimeoutTask {
    var timerRunning: bool
    var waiter: Option<Waiter>
    var completedResult: Option<Outcome>
    var resumed: seq<Resumption>
    const timeout: uint16
    const kind: TimeoutKind

    /** A caller is parked only while no result is cached. */
    predicate Valid()
      reads this
    {
      waiter.Some? ==> completedResult.None?
    }

    constructor(timeout: uint16, kind: TimeoutKind)
      ensures Valid() && this.timeout == timeout && this.kind == kind
      ensures !timerRunning && waiter == None && completedResult == None && resumed == []
    {
      this.timeout := timeout;
      this.kind := kind;
      timerRunning := false;
      waiter := None;
      completedResult := None;
      resumed := [];
    }

    /** `start()`: a second start while a timer exists does nothing. */
    method Start()
      modifies this
      ensures timerRunning
      ensures waiter == old(waiter) && completedResult == old(completedResult) && resumed == old(resumed)
    {
      if !timerRunning {
        timerRunning := true;
      }
    }

    /** The effect of `finish(result:)`, shared by `Finish`, `Stop` and `Expire`. */
    twostate predicate Finished(result: Outcome)
      reads this
    {
      && !timerRunning
      && waiter == None
      && (old(waiter).Some? ==>
            resumed == old(resumed) + [Resumption(old(waiter).value, result)] && completedResult == old(completedResult))
      && (old(waiter).None? ==> resumed == old(resumed) && completedResult == Some(result))
    }

    /**
     * `finish(result:)`: a parked caller is resumed with the result, which is then
     * not cached; with no caller the result is cached. Either way the timer is cancelled.
     */
    method Finish(result: Outcome)
      requires Valid()
      modifies this
      ensures Valid() && Finished(result)
    {
      if waiter.Some? {
        var cont := waiter.value;
        waiter := None;
        timerRunning := false;
        resumed := resumed + [Resumption(cont, result)];
      } else {
        completedResult := Some(result);
        timerRunning := false;
      }
    }

    /** `stop()`: finishing with success. */
    method Stop()
      requires Valid()
      modifies this
      ensures Valid() && Finished(Success)
    {
      Finish(Success);
    }

    /**
     * The sleeping task waking up: it finishes with a timeout error, unless it was
     * cancelled, in which case nothing happens. So no failure arrives after a finish.
     */
    method Expire()
      requires Valid()
      modifies this
      ensures Valid()
      ensures old(timerRunning) ==> Finished(Failure(Timeout(kind)))
      ensures !old(timerRunning) ==> unchanged(this)
    {
      if timerRunning {
        Finish(Failure(Timeout(kind)));
      }
    }

    /** The effect of `wait()` on behalf of `w`. */
    twostate predicate WaitedOn(w: Waiter)
      reads this
    {
      && timerRunning == old(timerRunning)
      && completedResult == old(completedResult)
      && (old(completedResult).Some? ==>
            resumed == old(resumed) + [Resumption(w, old(completedResult).value)] && waiter == old(waiter))
      && (old(completedResult).None? ==> resumed == old(resumed) && waiter == Some(w))
    }

    /**
     * `wait()`: with a cached result the caller is resumed at once, and the cache
     * stays for every later caller; otherwise the caller is parked, replacing any
     * caller parked before.
     */
    method Wait(w: Waiter)
      requires Valid()
      modifies this
      ensures Valid() && WaitedOn(w)
    {
      if completedResult.Some? {
        resumed := resumed + [Resumption(w, completedResult.value)];
      } else {
        waiter := Some(w);
      }
    }
  }

  /** `InflightTask`: the state of one exchange and the timer guarding it. */
  datatype InflightTask = InflightTask(state: InflightState, timeout: Option<TimeoutTask>)

  /**
   * Stopping a task before anyone waits, then waiting twice: both callers are
   * resumed with success, and a late expiry changes nothing.
   */
  method StopThenWait() returns (t: TimeoutTask)
    ensures t.resumed == [Resumption(Waiter(1), Success), Resumption(Waiter(2), Success)]
    ensures !t.timerRunning
  {
    t := new TimeoutTask(10, PingTimeout);
    t.Start();
    t.Stop();
    t.Wait(Waiter(1));
    t.Wait(Waiter(2));
    t.Expire();
  }

  /** A caller parked before the timer fires is resumed with the timeout error for the timer's kind. */
  method WaitThenExpire() returns (t: TimeoutTask)
    ensures t.resumed == [Resumption(Waiter(1), Failure(Timeout(ConnectTimeout)))]
    ensures t.completedResult == None && t.waiter == None
  {
    t := new TimeoutTask(30, ConnectTimeout);
    t.Start();
    t.Wait(Waiter(1));
    t.Expire();
  }
}

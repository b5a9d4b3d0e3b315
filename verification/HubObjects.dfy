/** The hub and its subscribers as objects, each method a section under the hub's lock:
    internal/metrics/hub.go. */
module HubObjects {
  import opened Hub

  /** One connected client. Sending on a closed channel, or closing it again, is ruled out by what the
      methods require. */
  class Subscriber {
    var ch: Channel

    constructor ()
      ensures ch == Channel([], true, 0)
    {
      ch := Channel([], true, 0);
    }

    method TrySend(frame: Frame, buffer: nat)
      requires ch.open
      modifies this
      ensures ch == Offer(old(ch), frame, buffer)
      ensures if |old(ch).queue| < buffer then ch == old(ch).(queue := old(ch).queue + [frame])
              else ch == old(ch).(dropped := old(ch).dropped + 1)
    {
      if |ch.queue| < buffer {
        ch := ch.(queue := ch.queue + [frame]);
      } else {
        ch := ch.(dropped := ch.dropped + 1);
      }
    }

    method CloseChannel()
      requires ch.open
      modifies this
      ensures ch == old(ch).(open := false)
    {
      ch := ch.(open := false);
    }
  }

  class Broadcaster {
    const buffer: nat
    var subs: set<Subscriber>
    var closed: bool
    ghost var known: set<Subscriber> // every subscriber ever handed out

    /** A subscriber is registered exactly while its channel is open. */
    ghost predicate Valid()
      reads this, known
    {
      && buffer >= 1 && subs <= known
      && (closed ==> subs == {})
      && forall s :: s in known ==> (s.ch.open <==> s in subs)
    }

    constructor (buffer: int)
      ensures Valid() && subs == {} && !closed && known == {}
      ensures this.buffer == if buffer < 1 then 8 else buffer
    {
      this.buffer := if buffer < 1 then 8 else buffer;
      subs, closed, known := {}, false, {};
    }

    /** Never returns nothing: once the hub is closed the subscriber is handed out closed. */
    method Subscribe() returns (s: Subscriber)
      requires Valid()
      modifies this`subs, this`known
      ensures Valid() && fresh(s) && known == old(known) + {s}
      ensures s.ch == Channel([], !closed, 0)
      ensures subs == if closed then old(subs) else old(subs) + {s}
    {
      s := new Subscriber();
      known := known + {s};
      if closed {
        s.CloseChannel();
        return;
      }
      subs := subs + {s};
    }

    /** Closes a client's channel once, however often it is called; strangers are ignored. */
    method Unsubscribe(s: Subscriber?)
      requires Valid()
      modifies this`subs, s
      ensures Valid() && subs == old(subs) - {s}
      ensures s != null ==> s.ch == if s in old(subs) then old(s.ch).(open := false) else old(s.ch)
      ensures s != null && s in known ==> !s.ch.open
    {
      if s == null { return; }
      if s !in subs { return; }
      subs := subs - {s};
      s.CloseChannel();
    }

    /** Offers the frame to every subscriber exactly once, in any order. */
    method Broadcast(frame: Frame)
      requires Valid()
      modifies subs
      ensures Valid()
      ensures forall s :: s in subs ==> s.ch == Offer(old(s.ch), frame, buffer)
    {
      var remaining := subs;
      while remaining != {}
        invariant remaining <= subs
        invariant forall s :: s in subs && s in remaining ==> s.ch == old(s.ch)
        invariant forall s :: s in subs && s !in remaining ==> s.ch == Offer(old(s.ch), frame, buffer)
        invariant forall s :: s in known ==> (s.ch.open <==> s in subs)
        decreases |remaining|
      {
        var s :| s in remaining;
        remaining := remaining - {s};
        s.TrySend(frame, buffer);
      }
    }

    method Len() returns (n: nat)
      ensures n == |subs|
    {
      n := |subs|;
    }

    /** Disconnects every subscriber; what is queued can still be read. */
    method Close()
      requires Valid()
      modifies this`subs, this`closed, subs
      ensures Valid() && closed && subs == {}
      ensures forall s :: s in old(subs) ==> s.ch == old(s.ch).(open := false)
    {
      if closed { return; }
      closed := true;
      ghost var before := subs;
      while subs != {}
        invariant closed && subs <= before <= known
        invariant forall s :: s in subs ==> s.ch == old(s.ch)
        invariant forall s :: s in before && s !in subs ==> s.ch == old(s.ch).(open := false)
        invariant forall s :: s in known ==> (s.ch.open <==> s in subs)
        decreases subs
      {
        var s :| s in subs;
        subs := subs - {s};
        s.CloseChannel();
      }
    }
  }
}

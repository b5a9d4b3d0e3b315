/** The broadcast hub: internal/metrics/hub.go.

    Broadcasts hold the hub's lock for reading and may overlap each other and any client's reads;
    Subscribe, Unsubscribe and Close hold it for writing. */
module Hub {

  type Frame = string
  type Id = nat

  // ---------------------------------------------------------------- one subscriber

  /** A buffered channel and the count of frames skipped on it. */
  datatype Channel = Channel(queue: seq<Frame>, open: bool, dropped: nat)

  /** A send that does not block: what does not fit is dropped. */
  function Offer(c: Channel, frame: Frame, buffer: nat): Channel {
    if |c.queue| < buffer then c.(queue := c.queue + [frame]) else c.(dropped := c.dropped + 1)
  }

  /** A subscriber with its history: the frames broadcast while it was a member, in the order the
      broadcasts began, the frames offered to it, those that were put into its queue, and those its
      client has read. */
  datatype Sub = Sub(channel: Channel, begun: seq<Frame>, offered: seq<Frame>, enqueued: seq<Frame>,
                     received: seq<Frame>)

  function NewSub(open: bool): Sub {
    Sub(Channel([], open, 0), [], [], [], [])
  }

  function OfferSub(s: Sub, frame: Frame, buffer: nat): Sub {
    s.(channel := Offer(s.channel, frame, buffer), offered := s.offered + [frame],
       enqueued := if |s.channel.queue| < buffer then s.enqueued + [frame] else s.enqueued)
  }

  /** A read by the client; a closed channel still hands out what is queued. */
  function ReceiveSub(s: Sub): Sub
    requires s.channel.queue != []
  {
    s.(channel := s.channel.(queue := s.channel.queue[1..]), received := s.received + [s.channel.queue[0]])
  }

  function CloseSub(s: Sub): Sub {
    s.(channel := s.channel.(open := false))
  }

  /** Some of b's frames, in b's order. */
  predicate Subsequence(a: seq<Frame>, b: seq<Frame>) {
    a == [] ||
    (b != [] &&
     var m, n := |a| - 1, |b| - 1;
     (a[m] == b[n] && Subsequence(a[..m], b[..n])) || Subsequence(a, b[..n]))
  }

  /** Everything offered was queued or dropped, everything queued was read or is still queued, and
      nothing was reordered. */
  ghost predicate SubOk(s: Sub, buffer: nat) {
    && |s.offered| == |s.enqueued| + s.channel.dropped
    && s.enqueued == s.received + s.channel.queue
    && |s.channel.queue| <= buffer
    && Subsequence(s.enqueued, s.offered)
  }

  lemma SubsequenceSnoc(a: seq<Frame>, b: seq<Frame>, x: Frame)
    requires Subsequence(a, b)
    ensures Subsequence(a, b + [x]) && Subsequence(a + [x], b + [x])
  {
    assert (b + [x])[..|b|] == b && (a + [x])[..|a|] == a;
  }

  lemma {:induction false} SubsequencePrefix(a: seq<Frame>, n: nat, b: seq<Frame>)
    requires n <= |a| && Subsequence(a, b)
    ensures Subsequence(a[..n], b)
  {
    if n == |a| {
      assert a[..n] == a;
    } else if n > 0 {
      var m, k := |a| - 1, |b| - 1;
      if Subsequence(a, b[..k]) {
        SubsequencePrefix(a, n, b[..k]);
      } else {
        SubsequencePrefix(a[..m], n, b[..k]);
        assert a[..m][..n] == a[..n];
      }
    }
  }

  lemma OfferOk(s: Sub, frame: Frame, buffer: nat)
    requires SubOk(s, buffer)
    ensures SubOk(OfferSub(s, frame, buffer), buffer)
  {
    SubsequenceSnoc(s.enqueued, s.offered, frame);
  }

  lemma ReceiveOk(s: Sub, buffer: nat)
    requires SubOk(s, buffer) && s.channel.queue != []
    ensures SubOk(ReceiveSub(s), buffer)
  {
    assert s.received + s.channel.queue == s.received + [s.channel.queue[0]] + s.channel.queue[1..];
  }

  // ---------------------------------------------------------------- the hub, step by step

  /** A broadcast under way, and whom it has still to reach. */
  datatype Cast = Cast(frame: Frame, remaining: set<Id>)

  datatype State = State(subs: map<Id, Sub>, registered: set<Id>, closed: bool, casts: map<Id, Cast>)

  const INITIAL := State(map[], {}, false, map[])

  datatype Step =
    | Subscribe(s: Id)
    | Unsubscribe(s: Id)
    | Close
    | BeginCast(b: Id, frame: Frame)
    | OfferTo(b: Id, s: Id)
    | EndCast(b: Id)
    | Receive(s: Id)

  predicate Enabled(h: State, step: Step) {
    match step
    case Subscribe(s) => h.casts == map[] && s !in h.subs
    case Unsubscribe(s) => h.casts == map[] && s in h.subs
    case Close => h.casts == map[]
    case BeginCast(b, _) => b !in h.casts
    case OfferTo(b, s) => b in h.casts && s in h.casts[b].remaining && s in h.subs
    case EndCast(b) => b in h.casts && h.casts[b].remaining == {}
    case Receive(s) => s in h.subs && h.subs[s].channel.queue != []
  }

  /** Sending on a closed channel or closing one twice would bring the program down. */
  ghost predicate Panics(h: State, step: Step) {
    match step
    case Unsubscribe(s) => s in h.registered && (s in h.subs ==> !h.subs[s].channel.open)
    case Close => !h.closed && exists s :: s in h.registered && (s in h.subs ==> !h.subs[s].channel.open)
    case OfferTo(_, s) => s in h.subs && !h.subs[s].channel.open
    case _ => false
  }

  function Next(h: State, step: Step, buffer: nat): State
    requires Enabled(h, step)
  {
    match step
    case Subscribe(s) =>
      if h.closed then h.(subs := h.subs[s := NewSub(false)])
      else h.(subs := h.subs[s := NewSub(true)], registered := h.registered + {s})
    case Unsubscribe(s) =>
      if s !in h.registered then h
      else h.(subs := h.subs[s := CloseSub(h.subs[s])], registered := h.registered - {s})
    case Close =>
      if h.closed then h
      else State(map s | s in h.subs :: if s in h.registered then CloseSub(h.subs[s]) else h.subs[s], {}, true, h.casts)
    case BeginCast(b, frame) =>
      h.(subs := map s | s in h.subs ::
                         if s in h.registered then h.subs[s].(begun := h.subs[s].begun + [frame]) else h.subs[s],
         casts := h.casts[b := Cast(frame, h.registered)])
    case OfferTo(b, s) =>
      h.(subs := h.subs[s := OfferSub(h.subs[s], h.casts[b].frame, buffer)],
         casts := h.casts[b := Cast(h.casts[b].frame, h.casts[b].remaining - {s})])
    case EndCast(b) =>
      h.(casts := h.casts - {b})
    case Receive(s) =>
      h.(subs := h.subs[s := ReceiveSub(h.subs[s])])
  }

  /** The broadcasts of a frame that have still to reach a subscriber. */
  function Pending(casts: map<Id, Cast>, s: Id, frame: Frame): set<Id> {
    set b | b in casts && s in casts[b].remaining && casts[b].frame == frame
  }

  /** How often a frame occurs. */
  function Occurs(frames: seq<Frame>, frame: Frame): nat {
    if frames == [] then 0
    else Occurs(frames[..|frames| - 1], frame) + if frames[|frames| - 1] == frame then 1 else 0
  }

  /** Every frame has been offered as often as it has been broadcast, or is on its way. */
  ghost predicate Delivered(sub: Sub, casts: map<Id, Cast>, s: Id) {
    forall frame :: Occurs(sub.begun, frame) == Occurs(sub.offered, frame) + |Pending(casts, s, frame)|
  }

  ghost predicate MemberOk(h: State, s: Id, buffer: nat)
    requires s in h.subs
  {
    && SubOk(h.subs[s], buffer)
    && (h.subs[s].channel.open <==> s in h.registered)
    && Delivered(h.subs[s], h.casts, s)
  }

  ghost predicate HubOk(h: State, buffer: nat) {
    && h.registered <= h.subs.Keys
    && (h.closed ==> h.registered == {})
    && (forall b :: b in h.casts ==> h.casts[b].remaining <= h.registered)
    && (forall s :: s in h.subs ==> MemberOk(h, s, buffer))
  }

  /** A subscriber is registered exactly while its channel is open, so no step sends on a closed
      channel or closes one twice. */
  lemma NeverPanics(h: State, step: Step, buffer: nat)
    requires HubOk(h, buffer) && Enabled(h, step)
    ensures !Panics(h, step)
  {
    forall s | s in h.registered ensures s in h.subs && h.subs[s].channel.open {
      assert MemberOk(h, s, buffer);
    }
  }

  lemma OccursSnoc(frames: seq<Frame>, x: Frame, frame: Frame)
    ensures Occurs(frames + [x], frame) == Occurs(frames, frame) + if x == frame then 1 else 0
  {
    assert (frames + [x])[..|frames|] == frames;
  }

  lemma PendingAfterBegin(casts: map<Id, Cast>, b: Id, cast: Cast, s: Id, frame: Frame)
    requires b !in casts
    ensures |Pending(casts[b := cast], s, frame)|
            == |Pending(casts, s, frame)| + if s in cast.remaining && cast.frame == frame then 1 else 0
  {
    var before, after := Pending(casts, s, frame), Pending(casts[b := cast], s, frame);
    if s in cast.remaining && cast.frame == frame { assert after == before + {b}; } else { assert after == before; }
  }

  lemma PendingAfterOffer(casts: map<Id, Cast>, b: Id, u: Id, s: Id, frame: Frame)
    requires b in casts && u in casts[b].remaining
    ensures |Pending(casts[b := Cast(casts[b].frame, casts[b].remaining - {u})], s, frame)|
            == |Pending(casts, s, frame)| - if s == u && casts[b].frame == frame then 1 else 0
  {
    var casts' := casts[b := Cast(casts[b].frame, casts[b].remaining - {u})];
    var before, after := Pending(casts, s, frame), Pending(casts', s, frame);
    if s == u && casts[b].frame == frame { assert before == after + {b}; } else { assert after == before; }
  }

  lemma PendingAfterEnd(casts: map<Id, Cast>, b: Id, s: Id, frame: Frame)
    requires b in casts && casts[b].remaining == {}
    ensures Pending(casts - {b}, s, frame) == Pending(casts, s, frame)
  {
  }

  lemma BeginDelivers(sub: Sub, casts: map<Id, Cast>, b: Id, cast: Cast, s: Id)
    requires Delivered(sub, casts, s) && b !in casts
    ensures Delivered(if s in cast.remaining then sub.(begun := sub.begun + [cast.frame]) else sub, casts[b := cast], s)
  {
    var sub' := if s in cast.remaining then sub.(begun := sub.begun + [cast.frame]) else sub;
    forall frame
      ensures Occurs(sub'.begun, frame) == Occurs(sub'.offered, frame) + |Pending(casts[b := cast], s, frame)|
    {
      OccursSnoc(sub.begun, cast.frame, frame);
      PendingAfterBegin(casts, b, cast, s, frame);
    }
  }

  lemma OfferDelivers(sub: Sub, casts: map<Id, Cast>, b: Id, u: Id, s: Id, buffer: nat)
    requires Delivered(sub, casts, s) && b in casts && u in casts[b].remaining
    ensures Delivered(if s == u then OfferSub(sub, casts[b].frame, buffer) else sub,
                      casts[b := Cast(casts[b].frame, casts[b].remaining - {u})], s)
  {
    var sub' := if s == u then OfferSub(sub, casts[b].frame, buffer) else sub;
    var casts' := casts[b := Cast(casts[b].frame, casts[b].remaining - {u})];
    forall frame
      ensures Occurs(sub'.begun, frame) == Occurs(sub'.offered, frame) + |Pending(casts', s, frame)|
    {
      OccursSnoc(sub.offered, casts[b].frame, frame);
      PendingAfterOffer(casts, b, u, s, frame);
    }
  }

  lemma EndDelivers(sub: Sub, casts: map<Id, Cast>, b: Id, s: Id)
    requires Delivered(sub, casts, s) && b in casts && casts[b].remaining == {}
    ensures Delivered(sub, casts - {b}, s)
  {
    forall frame ensures Occurs(sub.begun, frame) == Occurs(sub.offered, frame) + |Pending(casts - {b}, s, frame)| {
      PendingAfterEnd(casts, b, s, frame);
    }
  }

  lemma CastStep(h: State, step: Step, buffer: nat, s: Id)
    requires HubOk(h, buffer) && Enabled(h, step) && (step.BeginCast? || step.OfferTo? || step.EndCast?) && s in h.subs
    ensures s in Next(h, step, buffer).subs && MemberOk(Next(h, step, buffer), s, buffer)
  {
    assert MemberOk(h, s, buffer);
    match step
    case BeginCast(b, frame) => BeginDelivers(h.subs[s], h.casts, b, Cast(frame, h.registered), s);
    case OfferTo(b, u) =>
      OfferDelivers(h.subs[s], h.casts, b, u, s, buffer);
      if u == s { OfferOk(h.subs[s], h.casts[b].frame, buffer); }
    case EndCast(b) => EndDelivers(h.subs[s], h.casts, b, s);
  }

  lemma OtherStep(h: State, step: Step, buffer: nat, s: Id)
    requires HubOk(h, buffer) && Enabled(h, step) && !(step.BeginCast? || step.OfferTo? || step.EndCast?)
    requires s in Next(h, step, buffer).subs
    ensures MemberOk(Next(h, step, buffer), s, buffer)
  {
    if s in h.subs {
      assert MemberOk(h, s, buffer);
      if step.Receive? && step.s == s { ReceiveOk(h.subs[s], buffer); }
    } else {
      forall frame ensures Pending(h.casts, s, frame) == {} { }
    }
  }

  lemma HubKept(h: State, step: Step, buffer: nat)
    requires HubOk(h, buffer) && Enabled(h, step)
    ensures HubOk(Next(h, step, buffer), buffer)
  {
    var h' := Next(h, step, buffer);
    forall s | s in h'.subs ensures MemberOk(h', s, buffer) {
      if step.BeginCast? || step.OfferTo? || step.EndCast? {
        CastStep(h, step, buffer, s);
      } else {
        OtherStep(h, step, buffer, s);
      }
    }
  }

  ghost predicate Run(steps: seq<Step>, buffer: nat)
    decreases |steps|, 0
  {
    steps == [] ||
    var n := |steps| - 1;
    Run(steps[..n], buffer) && Enabled(After(steps[..n], buffer), steps[n])
  }

  ghost function After(steps: seq<Step>, buffer: nat): State
    requires Run(steps, buffer)
    decreases |steps|, 1
  {
    if steps == [] then INITIAL
    else Next(After(steps[..|steps| - 1], buffer), steps[|steps| - 1], buffer)
  }

  lemma {:induction false} HubInEveryRun(steps: seq<Step>, buffer: nat)
    requires Run(steps, buffer)
    ensures HubOk(After(steps, buffer), buffer)
  {
    if steps != [] {
      HubInEveryRun(steps[..|steps| - 1], buffer);
      HubKept(After(steps[..|steps| - 1], buffer), steps[|steps| - 1], buffer);
    }
  }

  // ---------------------------------------------------------------- told from the steps alone

  function Closed(steps: seq<Step>): bool {
    steps != [] && (steps[|steps| - 1].Close? || Closed(steps[..|steps| - 1]))
  }

  /** Has a subscriber joined, and neither left nor been disconnected? */
  predicate Member(steps: seq<Step>, s: Id) {
    steps != [] &&
    var n := |steps| - 1;
    if steps[n] == Subscribe(s) then !Closed(steps[..n])
    else if steps[n] == Unsubscribe(s) || steps[n].Close? then false
    else Member(steps[..n], s)
  }

  /** The frames whose broadcast began during a subscriber's membership, in order. */
  function Broadcasts(steps: seq<Step>, s: Id): seq<Frame> {
    if steps == [] then []
    else
      var n := |steps| - 1;
      if steps[n].BeginCast? && Member(steps[..n], s) then Broadcasts(steps[..n], s) + [steps[n].frame]
      else Broadcasts(steps[..n], s)
  }

  lemma {:induction false} NobodyBefore(steps: seq<Step>, buffer: nat, s: Id)
    requires Run(steps, buffer) && s !in After(steps, buffer).subs
    ensures !Member(steps, s) && Broadcasts(steps, s) == []
  {
    if steps != [] { NobodyBefore(steps[..|steps| - 1], buffer, s); }
  }

  lemma {:induction false} ClosedFromSteps(steps: seq<Step>, buffer: nat)
    requires Run(steps, buffer)
    ensures After(steps, buffer).closed <==> Closed(steps)
  {
    if steps != [] { ClosedFromSteps(steps[..|steps| - 1], buffer); }
  }

  lemma StepHistory(h: State, step: Step, buffer: nat, s: Id)
    requires HubOk(h, buffer) && Enabled(h, step) && s in h.subs
    ensures var h' := Next(h, step, buffer);
            && s in h'.subs
            && (s in h'.registered <==> step != Unsubscribe(s) && !step.Close? && s in h.registered)
            && h'.subs[s].begun
               == if step.BeginCast? && s in h.registered then h.subs[s].begun + [step.frame] else h.subs[s].begun
  {
  }

  lemma {:induction false} HistoryFromSteps(steps: seq<Step>, buffer: nat, s: Id)
    requires Run(steps, buffer) && s in After(steps, buffer).subs
    ensures var h := After(steps, buffer);
            && (s in h.registered <==> Member(steps, s))
            && h.subs[s].begun == Broadcasts(steps, s)
  {
    var n := |steps| - 1;
    HubInEveryRun(steps[..n], buffer);
    ClosedFromSteps(steps[..n], buffer);
    if s in After(steps[..n], buffer).subs {
      HistoryFromSteps(steps[..n], buffer, s);
      StepHistory(After(steps[..n], buffer), steps[n], buffer, s);
    } else {
      NobodyBefore(steps[..n], buffer, s);
    }
  }

  /** How many frames wait for a subscriber: those offered while fewer than `buffer` waited, less those
      it has read. */
  function Waiting(steps: seq<Step>, buffer: nat, s: Id): int {
    if steps == [] then 0
    else
      var n, last := |steps| - 1, steps[|steps| - 1];
      var before := Waiting(steps[..n], buffer, s);
      if last.OfferTo? && last.s == s && before < buffer then before + 1
      else if last == Receive(s) then before - 1
      else before
  }

  /** How many frames were offered to a subscriber while `buffer` waited. */
  function OfferedWhileFull(steps: seq<Step>, buffer: nat, s: Id): nat {
    if steps == [] then 0
    else
      var n, last := |steps| - 1, steps[|steps| - 1];
      OfferedWhileFull(steps[..n], buffer, s)
      + if last.OfferTo? && last.s == s && Waiting(steps[..n], buffer, s) == buffer then 1 else 0
  }

  /** A frame is dropped only when the queue is full, and otherwise goes to its end. */
  lemma QueueStep(h: State, step: Step, buffer: nat, s: Id)
    requires HubOk(h, buffer) && Enabled(h, step) && s in h.subs
    ensures s in Next(h, step, buffer).subs
    ensures var c, c' := h.subs[s].channel, Next(h, step, buffer).subs[s].channel;
            if step.OfferTo? && step.s == s then
              if |c.queue| == buffer then c'.queue == c.queue && c'.dropped == c.dropped + 1
              else |c.queue| < buffer && c'.queue == c.queue + [h.casts[step.b].frame] && c'.dropped == c.dropped
            else c'.dropped == c.dropped && |c'.queue| == |c.queue| - if step == Receive(s) then 1 else 0
  {
    assert MemberOk(h, s, buffer);
  }

  lemma {:induction false} NothingBefore(steps: seq<Step>, buffer: nat, s: Id)
    requires Run(steps, buffer) && s !in After(steps, buffer).subs
    ensures Waiting(steps, buffer, s) == 0 && OfferedWhileFull(steps, buffer, s) == 0
  {
    if steps != [] { NothingBefore(steps[..|steps| - 1], buffer, s); }
  }

  /** In every run a subscriber has missed exactly the frames that were offered to it while its queue was
      full, and its queue is as long as the offers and reads before make it. */
  lemma {:induction false} DropsInEveryRun(steps: seq<Step>, buffer: nat, s: Id)
    requires Run(steps, buffer) && s in After(steps, buffer).subs
    ensures var c := After(steps, buffer).subs[s].channel;
            c.dropped == OfferedWhileFull(steps, buffer, s) && |c.queue| == Waiting(steps, buffer, s)
  {
    var n := |steps| - 1;
    var h := After(steps[..n], buffer);
    if s in h.subs {
      DropsInEveryRun(steps[..n], buffer, s);
      HubInEveryRun(steps[..n], buffer);
      QueueStep(h, steps[n], buffer, s);
    } else {
      NothingBefore(steps[..n], buffer, s);
    }
  }

  /** In every run, however broadcasts overlap and clients read: the frames broadcast during a
      subscriber's membership are those offered to it and those still on their way; what was offered
      was put into its queue or dropped, what was queued has been read or is waiting, never more than
      the buffer; the client has read an in-order subsequence of what was offered; and no step can
      panic. */
  lemma EveryFrameAccountedFor(steps: seq<Step>, buffer: nat, s: Id)
    requires Run(steps, buffer) && s in After(steps, buffer).subs
    ensures var h := After(steps, buffer);
            var sub := h.subs[s];
            && sub.begun == Broadcasts(steps, s) && Delivered(sub, h.casts, s)
            && |sub.offered| == |sub.enqueued| + sub.channel.dropped
            && sub.enqueued == sub.received + sub.channel.queue
            && |sub.channel.queue| <= buffer
            && Subsequence(sub.enqueued, sub.offered) && Subsequence(sub.received, sub.offered)
            && (sub.channel.open <==> Member(steps, s))
            && forall step :: Enabled(h, step) ==> !Panics(h, step)
  {
    var h := After(steps, buffer);
    HubInEveryRun(steps, buffer);
    HistoryFromSteps(steps, buffer, s);
    assert MemberOk(h, s, buffer);
    var sub := h.subs[s];
    SubsequencePrefix(sub.enqueued, |sub.received|, sub.offered);
    assert sub.enqueued[..|sub.received|] == sub.received;
    forall step | Enabled(h, step) ensures !Panics(h, step) {
      NeverPanics(h, step, buffer);
    }
  }

  // ---------------------------------------------------------------- one broadcaster

  /** No broadcast begins before the last one has ended, as when a single goroutine broadcasts. */
  ghost predicate OneAtATime(steps: seq<Step>, buffer: nat)
    requires Run(steps, buffer)
  {
    steps != [] ==>
      var n := |steps| - 1;
      && OneAtATime(steps[..n], buffer)
      && (steps[n].BeginCast? ==> After(steps[..n], buffer).casts == map[])
  }

  /** A subscriber has been offered every broadcast in order, but perhaps for the one under way. */
  ghost predicate CaughtUp(sub: Sub, casts: map<Id, Cast>, s: Id) {
    && (forall b :: b in casts && s in casts[b].remaining ==> sub.begun == sub.offered + [casts[b].frame])
    && ((forall b :: b in casts ==> s !in casts[b].remaining) ==> sub.begun == sub.offered)
  }

  ghost predicate Single(casts: map<Id, Cast>) {
    forall b, c :: b in casts && c in casts ==> b == c
  }

  ghost predicate Serial(h: State) {
    Single(h.casts) && forall s :: s in h.subs ==> CaughtUp(h.subs[s], h.casts, s)
  }

  lemma BeginCatchesUp(sub: Sub, b: Id, cast: Cast, s: Id)
    requires CaughtUp(sub, map[], s)
    ensures CaughtUp(if s in cast.remaining then sub.(begun := sub.begun + [cast.frame]) else sub, map[b := cast], s)
  {
    if s in cast.remaining { assert b in map[b := cast]; }
  }

  lemma OfferCatchesUp(sub: Sub, casts: map<Id, Cast>, b: Id, u: Id, s: Id, buffer: nat)
    requires CaughtUp(sub, casts, s) && Single(casts) && b in casts && u in casts[b].remaining
    ensures CaughtUp(if s == u then OfferSub(sub, casts[b].frame, buffer) else sub,
                     casts[b := Cast(casts[b].frame, casts[b].remaining - {u})], s)
  {
    var casts' := casts[b := Cast(casts[b].frame, casts[b].remaining - {u})];
    assert b in casts';
    assert casts'.Keys == casts.Keys;
  }

  lemma SerialMember(h: State, step: Step, buffer: nat, s: Id)
    requires Serial(h) && Enabled(h, step) && (step.BeginCast? ==> h.casts == map[])
    requires h.registered <= h.subs.Keys && s in h.subs
    ensures var h' := Next(h, step, buffer); s in h'.subs && CaughtUp(h'.subs[s], h'.casts, s)
  {
    match step
    case BeginCast(b, frame) => BeginCatchesUp(h.subs[s], b, Cast(frame, h.registered), s);
    case OfferTo(b, u) => OfferCatchesUp(h.subs[s], h.casts, b, u, s, buffer);
    case EndCast(b) => assert h.casts - {b} == map[];
    case _ =>
  }

  lemma SerialKept(h: State, step: Step, buffer: nat)
    requires HubOk(h, buffer) && Serial(h) && Enabled(h, step) && (step.BeginCast? ==> h.casts == map[])
    ensures Serial(Next(h, step, buffer))
  {
    var h' := Next(h, step, buffer);
    forall s | s in h'.subs ensures CaughtUp(h'.subs[s], h'.casts, s) {
      if s in h.subs { SerialMember(h, step, buffer, s); }
    }
  }

  lemma {:induction false} SerialInEveryRun(steps: seq<Step>, buffer: nat)
    requires Run(steps, buffer) && OneAtATime(steps, buffer)
    ensures Serial(After(steps, buffer))
  {
    if steps != [] {
      var n := |steps| - 1;
      SerialInEveryRun(steps[..n], buffer);
      HubInEveryRun(steps[..n], buffer);
      SerialKept(After(steps[..n], buffer), steps[n], buffer);
    }
  }

  /** With one broadcaster, what a client has read is an in-order subsequence of the frames broadcast
      during its membership; once the last broadcast has ended, each of them was queued or dropped. */
  lemma ReadsBroadcastsInOrder(steps: seq<Step>, buffer: nat, s: Id)
    requires Run(steps, buffer) && OneAtATime(steps, buffer) && s in After(steps, buffer).subs
    ensures var h := After(steps, buffer);
            && Subsequence(h.subs[s].received, Broadcasts(steps, s))
            && (h.casts == map[] ==> h.subs[s].offered == Broadcasts(steps, s))
  {
    var h := After(steps, buffer);
    EveryFrameAccountedFor(steps, buffer, s);
    SerialInEveryRun(steps, buffer);
    var sub := h.subs[s];
    if exists b :: b in h.casts && s in h.casts[b].remaining {
      var b :| b in h.casts && s in h.casts[b].remaining;
      SubsequenceSnoc(sub.received, sub.offered, h.casts[b].frame);
    }
  }
}

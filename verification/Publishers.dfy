/** The publisher (internal/pipeline/publisher.go): drop-oldest delivery to one
subscriber, with the consumer free to act between any two of Publish's selects.
Subscribers do not share state, so one subscription is the whole story. */
module Publishers {
  import opened MarketModel

  /** Which of its selects Publish is about to make, and with which event. */
  datatype Stage = Idle | Discarding(ev: Event) | Retrying(ev: Event)

  /** A subscription, with the history of what was published and consumed. */
  datatype Subscription = Subscription(cap: nat, queue: seq<Event>, dropped: nat, stage: Stage,
                                       published: seq<Event>, consumed: seq<Event>)

  function NewSubscription(cap: nat): Subscription {
    Subscription(cap, [], 0, Idle, [], [])
  }

  datatype Action = Send(ev: Event) | Go | Consume

  /** The first select: deliver if there is room. */
  function SendStep(s: Subscription, ev: Event): Subscription {
    var p := s.(published := s.published + [ev]);
    if |s.queue| < s.cap then p.(queue := s.queue + [ev]) else p.(stage := Discarding(ev))
  }

  /** The second select: make room by discarding the oldest, if any is left. */
  function DiscardStep(s: Subscription, ev: Event): Subscription {
    if s.queue == [] then s.(stage := Retrying(ev))
    else s.(stage := Retrying(ev), queue := s.queue[1..], dropped := s.dropped + 1)
  }

  /** The third select: deliver, or give up on the event itself. */
  function RetryStep(s: Subscription, ev: Event): Subscription {
    if |s.queue| < s.cap then s.(stage := Idle, queue := s.queue + [ev])
    else s.(stage := Idle, dropped := s.dropped + 1)
  }

  /** The delivery goroutine takes one event. */
  function ConsumeStep(s: Subscription): Subscription {
    if s.queue == [] then s else s.(queue := s.queue[1..], consumed := s.consumed + [s.queue[0]])
  }

  /** One atomic step; an action the stage does not allow changes nothing. */
  function Next(s: Subscription, a: Action): Subscription {
    match a
    case Send(ev) => if s.stage.Idle? then SendStep(s, ev) else s
    case Go =>
      (match s.stage
       case Idle => s
       case Discarding(ev) => DiscardStep(s, ev)
       case Retrying(ev) => RetryStep(s, ev))
    case Consume => ConsumeStep(s)
  }

  function Exec(s: Subscription, actions: seq<Action>): Subscription {
    if actions == [] then s else Next(Exec(s, actions[..|actions| - 1]), actions[|actions| - 1])
  }

  // ---------- Subsequences ----------

  /** `a` is `b` with some events left out, the order kept. */
  ghost predicate Subsequence(a: seq<Event>, b: seq<Event>)
    decreases |b|
  {
    || a == []
    || (b != [] && ((a[|a| - 1] == b[|b| - 1] && Subsequence(a[..|a| - 1], b[..|b| - 1])) || Subsequence(a, b[..|b| - 1])))
  }

  lemma {:induction false} SubsequenceSnoc(a: seq<Event>, b: seq<Event>, x: Event)
    requires Subsequence(a, b)
    ensures Subsequence(a, b + [x]) && Subsequence(a + [x], b + [x])
  {
    assert (b + [x])[..|b|] == b && (a + [x])[..|a|] == a;
  }

  lemma {:induction false} SubsequenceWithout(a: seq<Event>, b: seq<Event>, k: nat)
    requires Subsequence(a, b) && k < |a|
    ensures Subsequence(a[..k] + a[k + 1..], b)
    decreases |b|
  {
    var c, n, m := a[..k] + a[k + 1..], |a| - 1, |b| - 1;
    if a[n] == b[m] && Subsequence(a[..n], b[..m]) {
      if k < n {
        SubsequenceWithout(a[..n], b[..m], k);
        assert c[..|c| - 1] == a[..n][..k] + a[..n][k + 1..];
      } else {
        assert c == a[..n];
        SubsequenceSnoc(c, b[..m], b[m]);
        assert b == b[..m] + [b[m]];
      }
    } else {
      SubsequenceWithout(a, b[..m], k);
      SubsequenceSnoc(c, b[..m], b[m]);
      assert b == b[..m] + [b[m]];
    }
  }

  /** What `all` ends with: the queue only ever loses its oldest events. */
  ghost predicate IsTail(q: seq<Event>, all: seq<Event>) {
    |q| <= |all| && q == all[|all| - |q|..]
  }

  lemma {:induction false} TailMoves(q: seq<Event>, all: seq<Event>, x: Event)
    requires IsTail(q, all)
    ensures IsTail(q + [x], all + [x])
    ensures q != [] ==> IsTail(q[1..], all)
  {
    assert (all + [x])[|all| - |q|..] == all[|all| - |q|..] + [x];
  }

  // ---------- The invariant ----------

  /** The events published and no longer in Publish's hands. */
  function Settled(s: Subscription): seq<Event> {
    if s.stage.Idle? || s.published == [] then s.published else s.published[..|s.published| - 1]
  }

  ghost predicate Sound(s: Subscription) {
    && 0 < s.cap && |s.queue| <= s.cap
    // The event in hand is the one published last.
    && (!s.stage.Idle? ==> s.published != [] && s.published[|s.published| - 1] == s.stage.ev)
    // With one sender, the discard has always left room for the retry.
    && (s.stage.Retrying? ==> |s.queue| < s.cap)
    && |Settled(s)| == |s.consumed| + |s.queue| + s.dropped
    && Subsequence(s.consumed + s.queue, Settled(s))
    && IsTail(s.queue, Settled(s))
    && (s.stage.Idle? && s.published != [] ==>
        s.consumed + s.queue != [] && (s.consumed + s.queue)[|s.consumed + s.queue| - 1] == s.published[|s.published| - 1])
  }

  lemma {:induction false} SendSound(s: Subscription, ev: Event)
    requires Sound(s) && s.stage.Idle?
    ensures Sound(SendStep(s, ev))
  {
    hide Subsequence, IsTail;
    var s', all := SendStep(s, ev), s.consumed + s.queue;
    if |s.queue| < s.cap {
      var all' := s'.consumed + s'.queue;
      assert all' == all + [ev] && all'[|all'| - 1] == ev;
      SubsequenceSnoc(all, s.published, ev);
      TailMoves(s.queue, s.published, ev);
    } else {
      assert Settled(s') == s.published;
    }
  }

  lemma {:induction false} DiscardSound(s: Subscription)
    requires Sound(s) && s.stage.Discarding?
    ensures Sound(DiscardStep(s, s.stage.ev))
  {
    hide Subsequence, IsTail;
    if s.queue != [] {
      var a, k := s.consumed + s.queue, |s.consumed|;
      SubsequenceWithout(a, Settled(s), k);
      assert a[..k] + a[k + 1..] == s.consumed + s.queue[1..];
      TailMoves(s.queue, Settled(s), s.stage.ev);
    }
  }

  lemma {:induction false} RetrySound(s: Subscription)
    requires Sound(s) && s.stage.Retrying?
    ensures Sound(RetryStep(s, s.stage.ev))
    ensures RetryStep(s, s.stage.ev).dropped == s.dropped
  {
    hide Subsequence, IsTail;
    var ev, done := s.stage.ev, Settled(s);
    assert s.published == done + [ev];
    assert s.consumed + (s.queue + [ev]) == s.consumed + s.queue + [ev];
    SubsequenceSnoc(s.consumed + s.queue, done, ev);
    TailMoves(s.queue, done, ev);
  }

  lemma {:induction false} ConsumeSound(s: Subscription)
    requires Sound(s)
    ensures Sound(ConsumeStep(s))
  {
    hide Subsequence, IsTail;
    if s.queue != [] {
      assert s.consumed + [s.queue[0]] + s.queue[1..] == s.consumed + s.queue;
      TailMoves(s.queue, Settled(s), s.queue[0]);
    }
  }

  lemma {:induction false} StepSound(s: Subscription, a: Action)
    requires Sound(s)
    ensures Sound(Next(s, a))
  {
    match a
    case Send(ev) => if s.stage.Idle? { SendSound(s, ev); }
    case Go => if s.stage.Discarding? { DiscardSound(s); } else if s.stage.Retrying? { RetrySound(s); }
    case Consume => ConsumeSound(s);
  }

  /** Under every interleaving with the consumer: events published are consumed,
  queued or counted as dropped; what was consumed followed by what is queued is
  what was published, in order, with only dropped events missing; the queue holds
  the newest events published, with none of them missing; the newest event is never the one missing; and the fallback that would drop it is never
  taken. */
  lemma {:induction false} DropOldestKeepsNewest(cap: nat, actions: seq<Action>)
    requires 0 < cap
    ensures var s := Exec(NewSubscription(cap), actions);
      && Sound(s)
      && (s.stage.Idle? ==>
          && |s.published| == |s.consumed| + |s.queue| + s.dropped
          && Subsequence(s.consumed + s.queue, s.published)
          && IsTail(s.queue, s.published)
          && (s.published != [] ==> s.published[|s.published| - 1] in s.consumed + s.queue))
      && (s.stage.Retrying? ==> Next(s, Go).dropped == s.dropped && s.stage.ev in Next(s, Go).queue)
  {
    RunSound(cap, actions);
    hide Exec, Subsequence, IsTail;
  }

  lemma {:induction false} RunSound(cap: nat, actions: seq<Action>)
    requires 0 < cap
    ensures Sound(Exec(NewSubscription(cap), actions))
  {
    if actions != [] {
      hide Sound, Next;
      var n := |actions| - 1;
      RunSound(cap, actions[..n]);
      StepSound(Exec(NewSubscription(cap), actions[..n]), actions[n]);
    }
  }

  /** Between `before` and `after`, the event at `k` was lost and `ev` came last. */
  ghost predicate LostAt(before: seq<Event>, after: seq<Event>, ev: Event, k: nat) {
    k < |before| && after == before[..k] + before[k + 1..] + [ev]
  }

  /** The subscription object: its channel and counter, and the history. */
  class Delivery {
    const cap: nat
    var queue: seq<Event>
    var dropped: nat
    ghost var published: seq<Event>
    ghost var consumed: seq<Event>

    ghost function At(stage: Stage): Subscription
      reads this
    {
      Subscription(cap, queue, dropped, stage, published, consumed)
    }

    constructor (cap: nat)
      requires 0 < cap
      ensures Sound(At(Idle)) && At(Idle) == NewSubscription(cap)
    {
      this.cap := cap;
      queue, dropped, published, consumed := [], 0, [], [];
    }

    /** The delivery loop of Start, for the events it gets to. */
    method Deliver(n: nat, ghost stage: Stage)
      requires Sound(At(stage))
      modifies this
      ensures Sound(At(stage)) && published == old(published) && dropped == old(dropped)
      ensures consumed + queue == old(consumed + queue) && old(consumed) <= consumed
    {
      hide Sound;
      var i := 0;
      while i < n && queue != []
        invariant Sound(At(stage)) && published == old(published) && dropped == old(dropped)
        invariant consumed + queue == old(consumed + queue) && old(consumed) <= consumed
      {
        ConsumeSound(At(stage));
        assert consumed + [queue[0]] + queue[1..] == consumed + queue;
        consumed := consumed + [queue[0]];
        queue := queue[1..];
        i := i + 1;
      }
    }

    /** The second select of Publish. */
    method Discard(ghost ev: Event)
      requires Sound(At(Discarding(ev)))
      modifies this`queue, this`dropped
      ensures Sound(At(Retrying(ev))) && |queue| < cap
      ensures dropped == old(dropped) + if old(queue) == [] then 0 else 1
      ensures queue == if old(queue) == [] then [] else old(queue)[1..]
    {
      hide Sound;
      DiscardSound(At(Discarding(ev)));
      if queue != [] {
        queue := queue[1..];
        dropped := dropped + 1;
      }
      Room(At(Retrying(ev)));
    }

    /** Publish, with the consumer getting up to `a` and `b` events between its
    selects: it never blocks, and loses at most one event, only when the queue was
    full, and then the one at its front at that moment. */
    method Publish(ev: Event, a: nat, b: nat)
      requires Sound(At(Idle))
      modifies this
      ensures Sound(At(Idle)) && published == old(published) + [ev]
      ensures old(consumed) <= consumed && queue != [] && queue[|queue| - 1] == ev
      ensures dropped == old(dropped) || (dropped == old(dropped) + 1 && |old(queue)| == cap)
      ensures dropped == old(dropped) ==> consumed + queue == old(consumed + queue) + [ev]
      ensures dropped > old(dropped) ==> exists k: nat ::
        LostAt(old(consumed + queue), consumed + queue, ev, k) && |old(consumed)| <= k <= |consumed|
    {
      hide Sound;
      Room(At(Idle));
      SendSound(At(Idle), ev);
      published := published + [ev];
      if |queue| < cap {
        assert consumed + (queue + [ev]) == consumed + queue + [ev];
        queue := queue + [ev];
      } else {
        SendToFull(ev, a, b);
      }
    }

    /** The rest of Publish, when its first select finds the channel full. */
    method SendToFull(ev: Event, a: nat, b: nat)
      requires Sound(At(Discarding(ev)))
      modifies this
      ensures Sound(At(Idle)) && published == old(published)
      ensures old(consumed) <= consumed && queue != [] && queue[|queue| - 1] == ev
      ensures dropped == old(dropped) || dropped == old(dropped) + 1
      ensures dropped == old(dropped) ==> consumed + queue == old(consumed + queue) + [ev]
      ensures dropped > old(dropped) ==> exists k: nat ::
        LostAt(old(consumed + queue), consumed + queue, ev, k) && |old(consumed)| <= k <= |consumed|
    {
      hide Sound;
      ghost var all := consumed + queue;
      Deliver(a, Discarding(ev));
      ghost var q, k := queue, |consumed|;
      assert consumed + q == all;
      Discard(ev);
      ghost var left := consumed + queue;
      assert left == if q == [] then all else all[..k] + all[k + 1..];
      Deliver(b, Retrying(ev));
      RetrySound(At(Retrying(ev)));
      Room(At(Retrying(ev)));
      if |queue| < cap {
        assert consumed + (queue + [ev]) == left + [ev];
        queue := queue + [ev];
        assert q != [] ==> LostAt(all, consumed + queue, ev, k);
      } else {
        // The fallback drop of the newest event: never reached.
        assert false;
      }
    }
  }

  lemma {:induction false} Room(s: Subscription)
    requires Sound(s)
    ensures |s.queue| <= s.cap && (s.stage.Retrying? ==> |s.queue| < s.cap)
  {
  }
}

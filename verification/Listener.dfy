/** The control listener: one slot through which a listener thread hands a request to the portal's main loop
    and waits, for a while, for its reply. Each step below is one critical section of the mutex; a run is any
    interleaving of them. */
module CtlListener {
  import opened Wrappers

  datatype Request = GetGeometry | Detach | DebugOn | DebugOff | GetCursorPos | Ping

  datatype Response = Okay | Failure(text: string) | Geometry(json: string) | CursorPos(x: int, y: int)

  const TIMED_OUT := Failure("timed out waiting for response")

  /** The shared fields, and whether the listener thread is inside its wait. */
  datatype State = State(waiting: bool, hasPending: bool, delivered: bool, hasReply: bool,
                         request: Request, reply: Response)

  /** Post: the listener fills the slot and starts to wait. Wake: it leaves pthread_cond_timedwait, with an
      error if `expired`. Poll and Reply: the portal's calls. */
  datatype Event = Post(request: Request) | Wake(expired: bool) | Poll | Reply(response: Response)

  const START := State(false, false, false, false, Ping, Okay)

  predicate Enabled(s: State, e: Event) {
    match e
    case Post(_) => !s.waiting
    case Wake(_) => s.waiting
    case Poll => true
    case Reply(_) => true
  }

  function Step(s: State, e: Event): (s': State) {
    match e
    case Post(request) => s.(waiting := true, hasPending := true, delivered := false, hasReply := false, request := request)
    case Wake(expired) =>
      if s.hasReply || expired then s.(waiting := false, hasPending := false, hasReply := false) else s
    case Poll => if s.hasPending && !s.delivered then s.(delivered := true) else s
    case Reply(response) => s.(reply := response, hasReply := true)
  }

  /** The state after the first n steps. */
  function StateAt(run: seq<Event>, n: nat): (s: State)
    requires n <= |run|
  {
    if n == 0 then START else Step(StateAt(run, n - 1), run[n - 1])
  }

  predicate Allowed(run: seq<Event>, n: nat)
    requires n < |run|
  {
    Enabled(StateAt(run, n), run[n])
  }

  predicate Legal(run: seq<Event>) {
    forall n :: 0 <= n < |run| ==> Allowed(run, n)
  }

  // What a run did, told from its events alone

  /** Step n takes a request out of the slot. */
  predicate Hits(run: seq<Event>, n: nat)
    requires n < |run|
  {
    run[n].Poll? && StateAt(run, n).hasPending && !StateAt(run, n).delivered
  }

  /** Step n answers the current request with a reply. */
  predicate Answers(run: seq<Event>, n: nat)
    requires n < |run|
  {
    run[n].Wake? && StateAt(run, n).hasReply
  }

  /** Step n gives up on the current request. */
  predicate Expires(run: seq<Event>, n: nat)
    requires n < |run|
  {
    run[n].Wake? && !StateAt(run, n).hasReply && run[n].expired
  }

  /** The last request posted before step n, named by its step; -1 if none. */
  function LastPost(run: seq<Event>, n: nat): (i: int)
    requires n <= |run|
    ensures -1 <= i < n && (i >= 0 ==> run[i].Post?)
    ensures forall k :: i < k < n ==> !run[k].Post?
  {
    if n == 0 then -1 else if run[n - 1].Post? then n - 1 else LastPost(run, n - 1)
  }

  function LastReply(run: seq<Event>, n: nat): (i: int)
    requires n <= |run|
    ensures -1 <= i < n && (i >= 0 ==> run[i].Reply?)
    ensures forall k :: i < k < n ==> !run[k].Reply?
  {
    if n == 0 then -1 else if run[n - 1].Reply? then n - 1 else LastReply(run, n - 1)
  }

  function LastHit(run: seq<Event>, n: nat): (i: int)
    requires n <= |run|
    ensures -1 <= i < n && (i >= 0 ==> Hits(run, i))
    ensures forall k :: i < k < n ==> !Hits(run, k)
  {
    if n == 0 then -1 else if Hits(run, n - 1) then n - 1 else LastHit(run, n - 1)
  }

  function RequestAt(run: seq<Event>, i: int): (r: Request) {
    if 0 <= i < |run| && run[i].Post? then run[i].request else Ping
  }

  function ResponseAt(run: seq<Event>, i: int): (r: Response) {
    if 0 <= i < |run| && run[i].Reply? then run[i].response else Okay
  }

  /** The state s, given the steps of the last post, reply and successful poll, and what the first two carried. */
  ghost predicate Fits(s: State, post: int, reply: int, hit: int, request: Request, response: Response) {
    && s.hasPending == s.waiting
    && (s.waiting ==> post >= 0 && s.request == request)
    && (s.waiting ==> (s.hasReply <==> reply > post))
    && (s.waiting ==> (s.delivered <==> hit > post))
    && (s.hasReply ==> reply >= 0 && s.reply == response)
  }

  /** The state, in terms of the events so far. */
  ghost predicate Explained(run: seq<Event>, n: nat)
    requires n <= |run|
  {
    Fits(StateAt(run, n), LastPost(run, n), LastReply(run, n), LastHit(run, n),
         RequestAt(run, LastPost(run, n)), ResponseAt(run, LastReply(run, n)))
  }

  /** One step, number n, taken in a state that fits. */
  lemma FitsNext(s: State, post: int, reply: int, hit: int, request: Request, response: Response, e: Event, n: int)
    requires Fits(s, post, reply, hit, request, response) && Enabled(s, e) && post < n && reply < n && hit < n && n >= 0
    ensures Fits(Step(s, e), if e.Post? then n else post, if e.Reply? then n else reply,
                 if e.Poll? && s.hasPending && !s.delivered then n else hit,
                 if e.Post? then e.request else request, if e.Reply? then e.response else response)
  {
  }

  lemma {:induction false} StateExplained(run: seq<Event>, n: nat)
    requires Legal(run) && n <= |run|
    ensures Explained(run, n)
  {
    hide Fits, Step;
    if n > 0 {
      StateExplained(run, n - 1);
      var s, e := StateAt(run, n - 1), run[n - 1];
      assert Allowed(run, n - 1);
      FitsNext(s, LastPost(run, n - 1), LastReply(run, n - 1), LastHit(run, n - 1),
               RequestAt(run, LastPost(run, n - 1)), ResponseAt(run, LastReply(run, n - 1)), e, n - 1);
    } else {
      FitsAtStart();
    }
  }

  lemma FitsAtStart()
    ensures Fits(START, -1, -1, -1, Ping, Okay)
  {
  }

  lemma StillWaiting(s: State, e: Event)
    requires Step(s, e).waiting && !e.Post?
    ensures s.waiting
  {
  }

  /** A request stays the current one until it is retired. */
  lemma {:induction false} WaitingSince(run: seq<Event>, n: nat, k: nat)
    requires Legal(run) && n <= |run| && StateAt(run, n).waiting && LastPost(run, n) < k <= n
    ensures StateAt(run, k).waiting && LastPost(run, k) == LastPost(run, n)
    decreases n
  {
    hide Step;
    if k < n {
      assert LastPost(run, n - 1) == LastPost(run, n);
      StillWaiting(StateAt(run, n - 1), run[n - 1]);
      WaitingSince(run, n - 1, k);
    }
  }

  /** Every successful poll hands out the request being waited for, and no request is handed out twice. */
  lemma PolledOnce(run: seq<Event>, m: nat, n: nat)
    requires Legal(run) && m <= n < |run| && Hits(run, m) && Hits(run, n)
    ensures StateAt(run, n).waiting && LastPost(run, n) >= 0 && StateAt(run, n).request == run[LastPost(run, n)].request
    ensures LastPost(run, m) == LastPost(run, n) ==> m == n
  {
    StateExplained(run, n);
    StateExplained(run, m);
  }

  /** A request that is waited for and has not been handed out is handed out by the next poll. */
  lemma PollFinds(run: seq<Event>, n: nat)
    requires Legal(run) && n < |run| && run[n].Poll?
    ensures Hits(run, n) <==> StateAt(run, n).waiting && LastHit(run, n) <= LastPost(run, n)
  {
    StateExplained(run, n);
  }

  /** An answer is the last reply, which was made after the request was posted and before it was retired; so a
      reply made while the slot is idle is never an answer. */
  lemma AnswerIsLastReply(run: seq<Event>, n: nat)
    requires Legal(run) && n < |run| && Answers(run, n)
    ensures var r := LastReply(run, n);
            && LastPost(run, n) < r < n && run[r].Reply? && StateAt(run, n).reply == run[r].response
            && StateAt(run, r).waiting && LastPost(run, r) == LastPost(run, n)
  {
    assert Allowed(run, n);
    StateExplained(run, n);
    WaitingSince(run, n, LastReply(run, n));
  }

  // A portal that replies once to every request it takes

  /** The portal has taken a request and not replied since. */
  predicate Owes(run: seq<Event>, n: nat)
    requires n <= |run|
  {
    n > 0 && (Hits(run, n - 1) || (!run[n - 1].Reply? && Owes(run, n - 1)))
  }

  /** It replies only when it owes a reply, and does not poll again before. */
  predicate Disciplined(run: seq<Event>) {
    forall n :: 0 <= n < |run| ==> Minds(run, n)
  }

  predicate Minds(run: seq<Event>, n: nat)
    requires n < |run|
  {
    (run[n].Reply? ==> Owes(run, n)) && (run[n].Poll? ==> !Owes(run, n))
  }

  /** The request that reply r is for: the one taken last. */
  function RepliesTo(run: seq<Event>, r: nat): (i: int)
    requires r <= |run|
  {
    if LastHit(run, r) < 0 then -1 else LastPost(run, LastHit(run, r))
  }

  lemma {:induction false} OwesSince(run: seq<Event>, n: nat)
    requires n <= |run|
    ensures Owes(run, n) <==> LastHit(run, n) > LastReply(run, n)
  {
    if n > 0 {
      OwesSince(run, n - 1);
    }
  }

  /** An answer is for its own request exactly when its reply was made after that request had been taken. */
  lemma AnswerIsForItsRequest(run: seq<Event>, n: nat)
    requires Legal(run) && n < |run| && Answers(run, n)
    ensures var r := LastReply(run, n);
            0 <= r < n && (RepliesTo(run, r) == LastPost(run, n) <==> StateAt(run, r).delivered)
  {
    var r := LastReply(run, n);
    AnswerIsLastReply(run, n);
    StateExplained(run, r);
    var h := LastHit(run, r);
    if h > LastPost(run, r) {
      WaitingSince(run, r, h);
    }
  }

  /** With no wait given up, the portal owes a reply only while its request is waited for, and a reply is in
      the slot only after its request was taken. */
  ghost predicate InStep(s: State, owes: bool) {
    && (owes ==> s.waiting && s.delivered)
    && (s.waiting && s.delivered ==> owes == !s.hasReply)
    && (s.waiting && s.hasReply ==> s.delivered)
  }

  lemma InStepAtStart()
    ensures InStep(START, false)
  {
  }

  lemma InStepNext(s: State, owes: bool, e: Event)
    requires InStep(s, owes) && Enabled(s, e) && s.hasPending == s.waiting
    requires (e.Reply? ==> owes) && (e.Poll? ==> !owes) && (e.Wake? && e.expired ==> s.hasReply)
    ensures InStep(Step(s, e), (e.Poll? && s.hasPending && !s.delivered) || (!e.Reply? && owes))
  {
  }

  lemma {:induction false} StaysInStep(run: seq<Event>, n: nat)
    requires Legal(run) && Disciplined(run) && n <= |run|
    requires forall k :: 0 <= k < n ==> !Expires(run, k)
    ensures InStep(StateAt(run, n), Owes(run, n))
  {
    hide InStep, Step, LastPost, LastReply, LastHit;
    if n > 0 {
      StaysInStep(run, n - 1);
      StateExplained(run, n - 1);
      assert Allowed(run, n - 1);
      assert Minds(run, n - 1);
      assert !Expires(run, n - 1);
      InStepNext(StateAt(run, n - 1), Owes(run, n - 1), run[n - 1]);
    } else {
      InStepAtStart();
    }
  }

  /** If no wait is given up and the portal replies once to every request it takes, each answer is the reply
      to that same request. */
  lemma EveryAnswerIsRight(run: seq<Event>, n: nat)
    requires Legal(run) && Disciplined(run) && n < |run| && Answers(run, n)
    requires forall k :: 0 <= k < n ==> !Expires(run, k)
    ensures var r := LastReply(run, n);
            && LastPost(run, n) < r < n && StateAt(run, n).reply == run[r].response
            && RepliesTo(run, r) == LastPost(run, n)
  {
    var r := LastReply(run, n);
    AnswerIsLastReply(run, n);
    AnswerIsForItsRequest(run, n);
    StaysInStep(run, r);
    assert Minds(run, r);
  }

  /** One wait given up is enough to go wrong: the late reply answers the next request, which nobody took. */
  lemma LateReplyAnswersTheNextRequest(late: Response)
    ensures var run := [Post(Ping), Poll, Wake(true), Post(Detach), Reply(late), Wake(false)];
            && Legal(run) && Disciplined(run) && Answers(run, 5)
            && RepliesTo(run, 4) == 0 && LastPost(run, 5) == 3 && LastHit(run, 5) == 1
  {
    var run := [Post(Ping), Poll, Wake(true), Post(Detach), Reply(late), Wake(false)];
    var s1 := StateAt(run, 1);
    var s2 := StateAt(run, 2);
    var s3 := StateAt(run, 3);
    var s4 := StateAt(run, 4);
    var s5 := StateAt(run, 5);
    assert StateAt(run, 0) == START;
    assert s1 == Step(START, run[0]) && s2 == Step(s1, run[1]) && s3 == Step(s2, run[2]);
    assert s4 == Step(s3, run[3]) && s5 == Step(s4, run[4]);
    assert Hits(run, 1) && !Hits(run, 0) && !Hits(run, 2) && !Hits(run, 3) && !Hits(run, 4);
    assert LastHit(run, 2) == 1 && LastHit(run, 3) == 1 && LastHit(run, 4) == 1;
    assert LastPost(run, 1) == 0 && LastPost(run, 4) == 3;
    assert Owes(run, 2) && Owes(run, 3) && Owes(run, 4) && !Owes(run, 1);
  }

  /** The listener's shared fields. Each method is what one thread does while it holds the mutex. */
  class Listener {
    var waiting: bool
    var hasPending: bool
    var delivered: bool
    var hasReply: bool
    var pendingRequest: Request
    var pendingReply: Response
    ghost var run: seq<Event>

    ghost predicate Valid()
      reads this
    {
      Legal(run) && StateAt(run, |run|) == State(waiting, hasPending, delivered, hasReply, pendingRequest, pendingReply)
    }

    constructor ()
      ensures Valid() && run == []
      ensures !waiting && !hasPending && !delivered && !hasReply
    {
      waiting, hasPending, delivered, hasReply := false, false, false, false;
      pendingRequest, pendingReply := Ping, Okay;
      run := [];
    }

    /** The listener thread has read a request: fills the slot and goes to wait. */
    method PostRequest(request: Request)
      requires Valid() && !waiting
      modifies this
      ensures Valid() && run == old(run) + [Post(request)]
      ensures waiting && hasPending && !delivered && !hasReply
      ensures pendingRequest == request && pendingReply == old(pendingReply)
    {
      hide Legal, StateAt, LastPost, LastReply, LastHit;
      RunExtends(run, Post(request));
      pendingRequest := request;
      hasPending := true;
      delivered := false;
      hasReply := false;
      waiting := true;
      run := run + [Post(request)];
    }

    /** The wait returns, with an error if `expired`: takes the reply, gives up, or waits on. */
    method WakeUp(expired: bool) returns (retired: bool, response: Response)
      requires Valid() && waiting
      modifies this
      ensures Valid() && run == old(run) + [Wake(expired)]
      ensures retired <==> Answers(run, |old(run)|) || Expires(run, |old(run)|)
      ensures Answers(run, |old(run)|) ==>
                LastReply(run, |old(run)|) >= 0 && response == run[LastReply(run, |old(run)|)].response
      ensures Expires(run, |old(run)|) ==> response == TIMED_OUT
      ensures retired <==> old(hasReply) || expired
      ensures retired ==> response == if old(hasReply) then old(pendingReply) else Failure("timed out waiting for response")
      ensures waiting == !retired && hasPending == (old(hasPending) && !retired) && hasReply == (old(hasReply) && !retired)
      ensures delivered == old(delivered) && pendingRequest == old(pendingRequest) && pendingReply == old(pendingReply)
    {
      hide Legal, StateAt, LastPost, LastReply, LastHit;
      ghost var n := |run|;
      StateExplained(run, n);
      RunExtends(run, Wake(expired));
      PrefixSame(run, run + [Wake(expired)], n);
      retired, response := false, TIMED_OUT;
      if hasReply || expired {
        if hasReply {
          response := pendingReply;
        }
        hasPending := false;
        hasReply := false;
        waiting := false;
        retired := true;
      }
      run := run + [Wake(expired)];
    }

    /** wp_ctl_listener_poll. */
    method PollRequest() returns (found: Option<Request>)
      requires Valid()
      modifies this
      ensures Valid() && run == old(run) + [Poll]
      ensures found.Some? <==> Hits(run, |old(run)|)
      ensures found.Some? ==>
                LastPost(run, |old(run)|) >= 0 && found.value == run[LastPost(run, |old(run)|)].request
      ensures found == if old(hasPending && !delivered) then Some(pendingRequest) else None
      ensures delivered == (old(delivered) || found.Some?) && waiting == old(waiting) && hasPending == old(hasPending)
      ensures hasReply == old(hasReply) && pendingRequest == old(pendingRequest) && pendingReply == old(pendingReply)
    {
      hide Legal, StateAt, LastPost, LastReply, LastHit;
      ghost var n := |run|;
      StateExplained(run, n);
      RunExtends(run, Poll);
      PrefixSame(run, run + [Poll], n);
      found := None;
      if hasPending && !delivered {
        found := Some(pendingRequest);
        delivered := true;
      }
      run := run + [Poll];
    }

    /** wp_ctl_listener_reply. */
    method PutReply(response: Response)
      requires Valid()
      modifies this
      ensures Valid() && run == old(run) + [Reply(response)]
      ensures hasReply && pendingReply == response
      ensures waiting == old(waiting) && hasPending == old(hasPending) && delivered == old(delivered)
      ensures pendingRequest == old(pendingRequest)
    {
      hide Legal, StateAt, LastPost, LastReply, LastHit;
      RunExtends(run, Reply(response));
      pendingReply := response;
      hasReply := true;
      run := run + [Reply(response)];
    }
  }

  lemma {:induction false} PrefixSame(a: seq<Event>, b: seq<Event>, n: nat)
    requires n <= |a| && a <= b
    ensures StateAt(a, n) == StateAt(b, n) && LastPost(a, n) == LastPost(b, n) && LastReply(a, n) == LastReply(b, n)
  {
    if n > 0 {
      PrefixSame(a, b, n - 1);
      assert a[n - 1] == b[n - 1];
    }
  }

  lemma RunExtends(run: seq<Event>, e: Event)
    requires Legal(run) && Enabled(StateAt(run, |run|), e)
    ensures Legal(run + [e]) && StateAt(run + [e], |run| + 1) == Step(StateAt(run, |run|), e)
  {
    var longer := run + [e];
    forall n | 0 <= n < |longer|
      ensures Allowed(longer, n)
    {
      PrefixSame(run, longer, n);
      assert n < |run| ==> longer[n] == run[n] && Allowed(run, n);
    }
    PrefixSame(run, longer, |run|);
  }
}

/**
 The request-lifecycle protocol of TracingHandlerInterceptor as state transitions on one thread:
 preHandle begins a span and stores its scope in the request, afterCompletion closes that scope and
 hands the span to the server handler, passing the route template through a thread-local slot.
 The classes in module WebMvc are proved to make exactly these transitions.
 */
module Lifecycle {
  import opened Values

  /**
   Everything the two hooks read or change: the request's attributes, the tracer's current span,
   the template thread-local on this thread, the next id the server handler gives a span, and the
   calls made into the server handler so far.
   */
  datatype World = World(
    attributes: map<string, Obj>,
    current: Option<Span>,
    slot: Option<Obj>,
    nextSpan: nat,
    log: seq<Event>)

  /** The adapter's template(response) override: the slot's value as a string, or null. */
  function AdapterTemplate(slot: Option<Obj>): (template: Option<string>)
    ensures template == None <==> slot == None
    ensures slot != None ==> template == Some(ToString(slot.value))
  {
    match slot
    case None => None
    case Some(o) => Some(ToString(o))
  }

  /** Every span the handler has produced has an id below the next one it will give. */
  predicate Issued(w: World) {
    forall i :: 0 <= i < |w.log| && w.log[i].Received? ==> w.log[i].span.id < w.nextSpan
  }

  /** HttpServerHandler.handleReceive: a span with a new id, recorded in the log. */
  function HandleReceive(w: World): (r: (Span, World))
    ensures r.1 == w.(nextSpan := r.1.nextSpan, log := w.log + [Received(r.0)])
    ensures Issued(w) ==>
      && Issued(r.1)
      && forall i :: 0 <= i < |w.log| && w.log[i].Received? ==> w.log[i].span != r.0
  {
    var span := Span(w.nextSpan);
    (span, w.(nextSpan := w.nextSpan + 1, log := w.log + [Received(span)]))
  }

  /**
   HttpServerHandler.handleSend: records the call together with what the adapter reports as the
   template at that moment, and throws `fault` when there is one.
   */
  function HandleSend(w: World, response: Response, error: Option<Exception>, span: Span,
                      fault: Option<Exception>): (r: (Option<Exception>, World))
    ensures r.0 == fault
    ensures r.1 == w.(log := w.log + [Sent(response, error, span, AdapterTemplate(w.slot), w.current)])
  {
    (fault, w.(log := w.log + [Sent(response, error, span, AdapterTemplate(w.slot), w.current)]))
  }

  function OutcomeOf(thrown: Option<Exception>): (outcome: Outcome) {
    match thrown
    case None => Completed
    case Some(e) => Threw(Raised(e))
  }

  /**
   preHandle: always answers true. A request that already carries a scope token is left alone;
   otherwise exactly one new span is received, made current, and its scope stored in the request.
   */
  function PreHandle(w: World): (r: (bool, World))
    ensures r.0
    ensures SpanInScopeKey in w.attributes ==> r.1 == w
    ensures SpanInScopeKey !in w.attributes ==>
      && |r.1.log| == |w.log| + 1
      && r.1.log[..|w.log|] == w.log
      && r.1.log[|w.log|].Received?
      && var span := r.1.log[|w.log|].span;
      && r.1.current == Some(span)
      && r.1.attributes == w.attributes[SpanInScopeKey := Scoped(Scope(span, w.current))]
      && r.1.slot == w.slot
      && (Issued(w) ==>
            && Issued(r.1)
            && forall i :: 0 <= i < |w.log| && w.log[i].Received? ==> w.log[i].span != span)
  {
    if SpanInScopeKey in w.attributes then
      (true, w)
    else
      var (span, received) := HandleReceive(w);
      var scope := Scope(span, received.current);
      (true, received.(current := Some(span),
                       attributes := received.attributes[SpanInScopeKey := Scoped(scope)]))
  }

  /**
   afterCompletion. With no current span nothing happens. Otherwise the stored scope token is
   cast and closed (a missing one is a NullPointerException, another object a ClassCastException,
   and then nothing has changed), and the span that was current on entry is sent together with
   the caller's exception. With no template attribute the slot is not touched; with one, the slot
   holds it during the send and is emptied afterwards, whether or not the send throws.
   */
  function AfterCompletion(w: World, response: Response, ex: Option<Exception>,
                           fault: Option<Exception>): (r: (Outcome, World))
    ensures w.current == None ==> r == (Completed, w)
    ensures w.current != None && SpanInScopeKey !in w.attributes ==> r == (Threw(NullPointer), w)
    ensures (w.current != None && SpanInScopeKey in w.attributes
             && w.attributes[SpanInScopeKey].Plain?) ==> r == (Threw(ClassCast), w)
    ensures (w.current != None && SpanInScopeKey in w.attributes
             && w.attributes[SpanInScopeKey].Scoped?) ==>
      var scope := w.attributes[SpanInScopeKey].scope;
      var template := if BestMatchingPatternKey in w.attributes
                      then Some(ToString(w.attributes[BestMatchingPatternKey]))
                      else AdapterTemplate(w.slot);
      && r.1.log == w.log + [Sent(response, ex, w.current.value, template, scope.previous)]
      && r.1.current == scope.previous
      && r.1.slot == (if BestMatchingPatternKey in w.attributes then None else w.slot)
      && r.1.attributes == w.attributes
      && r.1.nextSpan == w.nextSpan
      && r.0 == (if fault == None then Completed else Threw(Raised(fault.value)))
  {
    match w.current
    case None => (Completed, w)
    case Some(span) =>
      if SpanInScopeKey !in w.attributes then
        (Threw(NullPointer), w)
      else
        match w.attributes[SpanInScopeKey]
        case Plain(_) => (Threw(ClassCast), w)
        case Scoped(scope) =>
          var closed := w.(current := scope.previous);
          if BestMatchingPatternKey !in w.attributes then
            var (thrown, sent) := HandleSend(closed, response, ex, span, fault);
            (OutcomeOf(thrown), sent)
          else
            var holding := closed.(slot := Some(w.attributes[BestMatchingPatternKey]));
            var (thrown, sent) := HandleSend(holding, response, ex, span, fault);
            (OutcomeOf(thrown), sent.(slot := None))
  }

  /**
   What happens on the request's thread: a hook invocation, or the framework writing a request
   attribute between hooks (as Spring does with the matched route template).
   */
  datatype Hook =
    | PreHandleCall
    | AfterCompletionCall(response: Response, ex: Option<Exception>, fault: Option<Exception>)
    | SetAttribute(name: string, value: Obj)

  function Step(w: World, h: Hook): (next: World) {
    match h
    case PreHandleCall => PreHandle(w).1
    case AfterCompletionCall(response, ex, fault) => AfterCompletion(w, response, ex, fault).1
    case SetAttribute(name, value) => w.(attributes := w.attributes[name := value])
  }

  function Run(w: World, hooks: seq<Hook>): (last: World)
    decreases |hooks|
  {
    if hooks == [] then w else Run(Step(w, hooks[0]), hooks[1..])
  }

  /** Nothing but the interceptor writes the scope-token attribute. */
  predicate LeavesScopeKey(hooks: seq<Hook>) {
    forall i :: 0 <= i < |hooks| && hooks[i].SetAttribute? ==> hooks[i].name != SpanInScopeKey
  }

  /** The spans handed to handleReceive, in order. */
  function ReceivedSpans(log: seq<Event>): (spans: seq<Span>) {
    if log == [] then []
    else ReceivedSpans(log[..|log| - 1])
         + (if log[|log| - 1].Received? then [log[|log| - 1].span] else [])
  }

  /** The spans handed to handleSend, in order. */
  function SentSpans(log: seq<Event>): (spans: seq<Span>) {
    if log == [] then []
    else SentSpans(log[..|log| - 1])
         + (if log[|log| - 1].Sent? then [log[|log| - 1].span] else [])
  }

  /**
   Each step appends at most one call to the log, never drops an attribute, and calls
   handleReceive only while the scope attribute is absent.
   */
  lemma StepAppends(w: World, h: Hook)
    ensures var next := Step(w, h);
      && ReceivedSpans(w.log) <= ReceivedSpans(next.log)
      && SentSpans(w.log) <= SentSpans(next.log)
      && |ReceivedSpans(next.log)|
         <= |ReceivedSpans(w.log)| + (if SpanInScopeKey in w.attributes then 0 else 1)
      && (SpanInScopeKey !in next.attributes ==> ReceivedSpans(next.log) == ReceivedSpans(w.log))
      && w.attributes.Keys <= next.attributes.Keys
  {
  }

  /**
   One request from start to finish on a clean thread: the span handleReceive created is the one
   sent, the template the handler sees is the request's template attribute (or null without one),
   and afterwards the tracer's current span is again the one before preHandle and the slot is
   empty, also when the send throws.
   */
  lemma RequestLifecycle(w: World, response: Response, ex: Option<Exception>,
                         fault: Option<Exception>)
    requires SpanInScopeKey !in w.attributes && w.slot == None
    ensures var r := AfterCompletion(PreHandle(w).1, response, ex, fault);
      var template := if BestMatchingPatternKey in w.attributes
                      then Some(ToString(w.attributes[BestMatchingPatternKey])) else None;
      && |r.1.log| == |w.log| + 2
      && r.1.log[..|w.log|] == w.log
      && r.1.log[|w.log|].Received?
      && r.1.log[|w.log| + 1] == Sent(response, ex, r.1.log[|w.log|].span, template, w.current)
      && r.1.current == w.current
      && r.1.slot == None
      && r.0 == (if fault == None then Completed else Threw(Raised(fault.value)))
  {
  }

  /**
   With an empty slot on entry, the adapter reports the template attribute's toString() during
   the send when the attribute is there, and null when it is not.
   */
  lemma TemplateSeenBySend(w: World, response: Response, ex: Option<Exception>,
                           fault: Option<Exception>)
    requires w.slot == None && w.current != None
    requires SpanInScopeKey in w.attributes && w.attributes[SpanInScopeKey].Scoped?
    ensures var r := AfterCompletion(w, response, ex, fault);
      && |r.1.log| == |w.log| + 1
      && r.1.log[|w.log|].Sent?
      && (if BestMatchingPatternKey in w.attributes
          then r.1.log[|w.log|].template == Some(ToString(w.attributes[BestMatchingPatternKey]))
          else r.1.log[|w.log|].template == None)
      && r.1.slot == None
  {
  }

  /**
   Completion is absorbed only on a thread that had no current span before preHandle: when an
   outer span was current, a repeated afterCompletion closes the stored scope again and sends
   that outer span.
   */
  lemma RepeatedCompletionSendsOuterSpan(w: World, outer: Span, response: Response)
    requires SpanInScopeKey !in w.attributes && w.current == Some(outer)
    ensures var once := AfterCompletion(PreHandle(w).1, response, None, None).1;
      var twice := AfterCompletion(once, response, None, None).1;
      && |twice.log| == |once.log| + 1
      && twice.log[|once.log|].Sent?
      && twice.log[|once.log|].span == outer
      && twice.current == Some(outer)
  {
  }

  /** An empty template slot stays empty across any sequence of hooks and attribute writes. */
  lemma {:induction false} SlotEmptyBetweenHooks(w: World, hooks: seq<Hook>)
    requires w.slot == None
    ensures Run(w, hooks).slot == None
    decreases |hooks|
  {
    if hooks != [] {
      SlotEmptyBetweenHooks(Step(w, hooks[0]), hooks[1..]);
    }
  }

  /**
   Exactly-once span creation: however often the hooks run for one request, and whatever the
   framework writes between them, handleReceive is called at most once, and not at all when the
   request already carries a scope token.
   */
  lemma {:induction false} ReceivesAtMostOnce(w: World, hooks: seq<Hook>)
    ensures ReceivedSpans(w.log) <= ReceivedSpans(Run(w, hooks).log)
    ensures |ReceivedSpans(Run(w, hooks).log)|
            <= |ReceivedSpans(w.log)| + (if SpanInScopeKey in w.attributes then 0 else 1)
    decreases |hooks|
  {
    if hooks != [] {
      var next := Step(w, hooks[0]);
      StepAppends(w, hooks[0]);
      ReceivesAtMostOnce(next, hooks[1..]);
    }
  }

  /**
   A finished request absorbs every later hook: once the scope token is stored and no span is
   current, no span is received or sent, nothing becomes current and the slot is left as it is.
   */
  lemma {:induction false} FinishedAbsorbsHooks(w: World, hooks: seq<Hook>)
    requires SpanInScopeKey in w.attributes && w.current == None
    ensures Run(w, hooks).log == w.log
    ensures Run(w, hooks).current == None
    ensures Run(w, hooks).slot == w.slot
    ensures Run(w, hooks).nextSpan == w.nextSpan
    decreases |hooks|
  {
    if hooks != [] {
      FinishedAbsorbsHooks(Step(w, hooks[0]), hooks[1..]);
    }
  }

  /**
   Where one request stands, given the spans received (r0) and sent (s0) before it: not begun
   (no scope attribute, no current span); active (the token's span is current, it was received
   by this request and the token restores an empty scope); or finished (no current span, and the
   one span this request received is the one it sent).
   */
  ghost predicate Paired(w: World, r0: seq<Span>, s0: seq<Span>) {
    var rs := ReceivedSpans(w.log);
    var ss := SentSpans(w.log);
    && r0 <= rs && s0 <= ss
    && ( (SpanInScopeKey !in w.attributes && w.current == None && rs == r0 && ss == s0)
      || (&& SpanInScopeKey in w.attributes
          && w.attributes[SpanInScopeKey].Scoped?
          && w.attributes[SpanInScopeKey].scope.previous == None
          && w.current == Some(w.attributes[SpanInScopeKey].scope.span)
          && rs == r0 + [w.attributes[SpanInScopeKey].scope.span] && ss == s0)
      || (SpanInScopeKey in w.attributes && w.current == None
          && |rs| == |r0| + 1 && ss == s0 + rs[|r0|..]))
  }

  lemma PairedStep(w: World, h: Hook, r0: seq<Span>, s0: seq<Span>)
    requires Paired(w, r0, s0)
    requires h.SetAttribute? ==> h.name != SpanInScopeKey
    ensures Paired(Step(w, h), r0, s0)
  {
  }

  lemma {:induction false} PairedRun(w: World, hooks: seq<Hook>, r0: seq<Span>, s0: seq<Span>)
    requires Paired(w, r0, s0)
    requires LeavesScopeKey(hooks)
    ensures Paired(Run(w, hooks), r0, s0)
    decreases |hooks|
  {
    if hooks != [] {
      PairedStep(w, hooks[0], r0, s0);
      assert LeavesScopeKey(hooks[1..]) by {
        forall i | 0 <= i < |hooks[1..]| && hooks[1..][i].SetAttribute?
          ensures hooks[1..][i].name != SpanInScopeKey
        {
          assert hooks[1..][i] == hooks[i + 1];
        }
      }
      PairedRun(Step(w, hooks[0]), hooks[1..], r0, s0);
    }
  }

  /**
   Exactly-once completion on a clean thread: over any sequence of hooks and attribute writes
   that leave the scope key to the interceptor, starting with no scope attribute and no current
   span, handleSend is called at most once, and the span it finishes is the span handleReceive
   created for this request.
   */
  lemma OneSendPerReceive(w: World, hooks: seq<Hook>)
    requires SpanInScopeKey !in w.attributes && w.current == None
    requires LeavesScopeKey(hooks)
    ensures var last := Run(w, hooks);
      && ReceivedSpans(w.log) <= ReceivedSpans(last.log)
      && SentSpans(w.log) <= SentSpans(last.log)
      && |SentSpans(last.log)| <= |SentSpans(w.log)| + 1
      && SentSpans(last.log)[|SentSpans(w.log)|..]
         <= ReceivedSpans(last.log)[|ReceivedSpans(w.log)|..]
  {
    PairedRun(w, hooks, ReceivedSpans(w.log), SentSpans(w.log));
  }
}

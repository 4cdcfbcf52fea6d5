/**
 The Spring Web MVC tracing interceptor and the objects it works on, on one thread: the servlet
 request's attribute map, the tracer's current span, the template thread-local, the adapter that
 reads it and the HTTP server handler. Every method of the interceptor is proved to make the
 transition that module Lifecycle defines.
 */
module WebMvc {
  import opened Values
  import Lifecycle

  /** The servlet request, reduced to its attribute map. */
  class Request {
    var attributes: map<string, Obj>

    constructor (attributes: map<string, Obj>)
      ensures this.attributes == attributes
    {
      this.attributes := attributes;
    }

    /** getAttribute: the value stored under `name`, or null. */
    method GetAttribute(name: string) returns (value: Option<Obj>)
      ensures name in attributes ==> value == Some(attributes[name])
      ensures name !in attributes ==> value == None
    {
      value := if name in attributes then Some(attributes[name]) else None;
    }

    method SetAttribute(name: string, value: Obj)
      modifies this
      ensures attributes == old(attributes)[name := value]
    {
      attributes := attributes[name := value];
    }
  }

  /** The tracer's ambient current span on this thread. */
  class Tracer {
    var current: Option<Span>

    constructor (current: Option<Span>)
      ensures this.current == current
    {
      this.current := current;
    }

    method CurrentSpan() returns (span: Option<Span>)
      ensures span == current
    {
      span := current;
    }

    /** withSpanInScope: makes `span` current and returns the token that undoes this. */
    method WithSpanInScope(span: Span) returns (scope: Scope)
      modifies this
      ensures scope == Scope(span, old(current)) && current == Some(span)
    {
      scope := Scope(span, current);
      current := Some(span);
    }

    /** SpanInScope.close: makes current again what was current when the scope was opened. */
    method Close(scope: Scope)
      modifies this
      ensures current == scope.previous
    {
      current := scope.previous;
    }
  }

  /** The currentTemplate thread-local, as seen from the one thread modelled. */
  class TemplateSlot {
    var value: Option<Obj>

    constructor ()
      ensures value == None
    {
      value := None;
    }

    method Set(template: Obj)
      modifies this
      ensures value == Some(template)
    {
      value := Some(template);
    }

    method Remove()
      modifies this
      ensures value == None
    {
      value := None;
    }
  }

  /** The interceptor's servlet adapter, whose template override reads the thread-local. */
  class WebMvcAdapter {
    const currentTemplate: TemplateSlot

    constructor (currentTemplate: TemplateSlot)
      ensures this.currentTemplate == currentTemplate
    {
      this.currentTemplate := currentTemplate;
    }

    function Template(response: Response): (template: Option<string>)
      reads currentTemplate
    {
      Lifecycle.AdapterTemplate(currentTemplate.value)
    }
  }

  /**
   The HTTP server handler, an outside collaborator: handleReceive produces a span it has not
   produced before, handleSend reads the template through the adapter and throws `fault` when
   there is one. The ghost log records every call.
   */
  class HttpServerHandler {
    const tracer: Tracer
    const adapter: WebMvcAdapter
    var nextSpan: nat
    ghost var log: seq<Event>

    /** Every span received so far has an id below the next one to be given. */
    ghost predicate Valid()
      reads this
    {
      forall i :: 0 <= i < |log| && log[i].Received? ==> log[i].span.id < nextSpan
    }

    constructor (tracer: Tracer, adapter: WebMvcAdapter)
      ensures Valid()
      ensures this.tracer == tracer && this.adapter == adapter
      ensures nextSpan == 0 && log == []
    {
      this.tracer := tracer;
      this.adapter := adapter;
      nextSpan := 0;
      log := [];
    }

    method HandleReceive(request: Request) returns (span: Span)
      requires Valid()
      modifies this
      ensures Valid()
      ensures forall i :: 0 <= i < |old(log)| && old(log)[i].Received? ==> old(log)[i].span != span
      ensures span == Span(old(nextSpan)) && nextSpan == old(nextSpan) + 1
      ensures log == old(log) + [Received(span)]
    {
      span := Span(nextSpan);
      nextSpan := nextSpan + 1;
      log := log + [Received(span)];
    }

    method HandleSend(response: Response, error: Option<Exception>, span: Span,
                      fault: Option<Exception>) returns (thrown: Option<Exception>)
      requires Valid()
      modifies this
      ensures Valid()
      ensures thrown == fault && nextSpan == old(nextSpan)
      ensures log == old(log) + [Sent(response, error, span, adapter.Template(response),
                                      tracer.current)]
    {
      log := log + [Sent(response, error, span, adapter.Template(response), tracer.current)];
      thrown := fault;
    }
  }

  class TracingHandlerInterceptor {
    const tracer: Tracer
    const currentTemplate: TemplateSlot
    const handler: HttpServerHandler

    /** The handler sends through this tracer and an adapter over this interceptor's slot. */
    ghost predicate Valid()
      reads handler
    {
      handler.tracer == tracer && handler.adapter.currentTemplate == currentTemplate
      && handler.Valid()
    }

    /** The state the hooks work on, for one request. */
    ghost function Observe(request: Request): Lifecycle.World
      reads request, tracer, currentTemplate, handler
    {
      Lifecycle.World(request.attributes, tracer.current, currentTemplate.value,
                      handler.nextSpan, handler.log)
    }

    constructor (tracer: Tracer)
      ensures Valid() && this.tracer == tracer
      ensures fresh(currentTemplate) && fresh(handler)
      ensures currentTemplate.value == None && handler.log == []
    {
      this.tracer := tracer;
      var slot := new TemplateSlot();
      var adapter := new WebMvcAdapter(slot);
      currentTemplate := slot;
      handler := new HttpServerHandler(tracer, adapter);
    }

    method PreHandle(request: Request) returns (handled: bool)
      requires Valid()
      modifies request, tracer, handler
      ensures Valid()
      ensures (handled, Observe(request)) == Lifecycle.PreHandle(old(Observe(request)))
    {
      var stored := request.GetAttribute(SpanInScopeKey);
      if stored != None {
        return true; // already handled, possibly by an asynchronous re-dispatch
      }
      var span := handler.HandleReceive(request);
      var scope := tracer.WithSpanInScope(span);
      request.SetAttribute(SpanInScopeKey, Scoped(scope));
      return true;
    }

    /**
     `fault` is what handleSend throws, if anything; the returned outcome says whether the hook
     returned or which exception escaped it.
     */
    method AfterCompletion(request: Request, response: Response, ex: Option<Exception>,
                           fault: Option<Exception>) returns (outcome: Outcome)
      requires Valid()
      modifies tracer, currentTemplate, handler
      ensures Valid()
      ensures (outcome, Observe(request))
              == Lifecycle.AfterCompletion(old(Observe(request)), response, ex, fault)
    {
      var span := tracer.CurrentSpan();
      if span == None {
        return Completed;
      }
      var stored := request.GetAttribute(SpanInScopeKey);
      if stored == None {
        return Threw(NullPointer);
      }
      if !stored.value.Scoped? {
        return Threw(ClassCast);
      }
      tracer.Close(stored.value.scope);
      var template := request.GetAttribute(BestMatchingPatternKey);
      if template == None {
        // no thread-local work without a template attribute
        var thrown := handler.HandleSend(response, ex, span.value, fault);
        return Lifecycle.OutcomeOf(thrown);
      }
      currentTemplate.Set(template.value);
      var thrown := handler.HandleSend(response, ex, span.value, fault);
      currentTemplate.Remove(); // runs whether or not the send threw
      outcome := Lifecycle.OutcomeOf(thrown);
    }
  }
}

/**
 Values exchanged between the Spring Web MVC tracing interceptor, the servlet request, the
 tracer and the HTTP server handler: spans, scope tokens, request-attribute objects, exceptions
 and the calls the handler records.
 */
module Values {

  datatype Option<+T> = None | Some(value: T)

  /** A span handle. Spans are identified by the id the server handler gives them. */
  datatype Span = Span(id: nat)

  /**
   The token returned by Tracer.withSpanInScope: the span it made current, and the span that was
   current before, which closing the token makes current again.
   */
  datatype Scope = Scope(span: Span, previous: Option<Span>)

  /**
   A non-null Java object held in a request attribute or in the template thread-local: either a
   scope token or any other object, represented by what its toString() returns.
   */
  datatype Obj = Scoped(scope: Scope) | Plain(text: string)

  /** Stand-in for the toString() of a scope token, whose text the tracer does not document. */
  const ScopeText: string := "SpanInScope"

  function ToString(o: Obj): (str: string) {
    match o
    case Scoped(_) => ScopeText
    case Plain(text) => text
  }

  /** An exception passed to or thrown from the hooks, identified by its class name. */
  datatype Exception = Exception(name: string)

  /** An opaque servlet response. */
  datatype Response = Response(handle: nat)

  /**
   A call into the HTTP server handler. A send records the response, the caller's exception, the
   span to finish, the template the handler read through the adapter during the call, and the
   span the tracer held as current when the call was made.
   */
  datatype Event =
    | Received(span: Span)
    | Sent(response: Response, error: Option<Exception>, span: Span, template: Option<string>,
           currentAtCall: Option<Span>)

  /** What may escape afterCompletion. */
  datatype Failure = NullPointer | ClassCast | Raised(exception: Exception)

  datatype Outcome = Completed | Threw(failure: Failure)

  /** The request attribute under which preHandle stores the scope token: SpanInScope's class name. */
  const SpanInScopeKey: string := "brave.Tracer$SpanInScope"

  /** The request attribute under which Spring stores the matched route template. */
  const BestMatchingPatternKey: string :=
    "org.springframework.web.servlet.HandlerMapping.bestMatchingPattern"
}

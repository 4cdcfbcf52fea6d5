# Spring Web MVC tracing interceptor: request lifecycle

This project models Brave's `TracingHandlerInterceptor`. It is the Spring Web MVC hook pair
around one server request:

- `preHandle` begins a server span through the HTTP server handler. It makes the span current in
  the tracer and stores the returned scope token (`SpanInScope`) as a request attribute. A request
  that already carries that attribute is left alone, for example on an asynchronous re-dispatch.
- `afterCompletion` takes the tracer's current span, closes the stored scope and hands the span,
  the response and the caller's exception to the handler's `handleSend`. When Spring has stored the
  matched route template in the best-matching-pattern attribute, the template is put in a
  thread-local for the duration of `handleSend`. The interceptor's adapter override of
  `template(response)` reads it from there. The thread-local is removed in a `finally`.

The model has three layers:

- `values.dfy` (module `Values`): spans, scope tokens, attribute objects, exceptions, the calls
  made into the server handler, and the two attribute keys.
- `lifecycle.dfy` (module `Lifecycle`): both hooks as pure transitions of a `World`. A `World`
  holds the request attributes, the tracer's current span, the template slot, the handler's span
  supply and its call log. Lemmas relate whole sequences of hooks (`Run`), including the framework
  writing attributes between hooks.
- `webmvc.dfy` (module `WebMvc`): the same protocol with classes whose fields change in place.
  These are the request's attribute map, the tracer, the thread-local slot, the adapter, the server
  handler with a ghost call log, and the interceptor. Each interceptor method is proved to make
  exactly the `Lifecycle` transition on the observed state.

The HTTP server handler, the tracer and the propagation extractor are outside collaborators. They
are modelled by their documented contracts:

- `handleReceive` returns a span with an id it has not given to any span it received before.
- `handleSend` records the template it reads through the adapter and throws when the caller-supplied
  `fault` parameter says so.
- `withSpanInScope` makes a span current. Closing its token restores the span that was current
  before.

The line-84 cast has two failure outcomes:

- A current span with no stored token gives `Threw(NullPointer)`.
- A stored attribute that is not a token gives `Threw(ClassCast)`.

In both cases nothing has changed.

Three behaviours of the code are worth stating outright:

- A repeated `preHandle` does not return the existing span. It returns true and does nothing.
- The template slot is left alone when there is no template attribute
  (`TracingHandlerInterceptor.java:85-89`). The slot is empty after every hook only given that it
  was empty before (`SlotEmptyBetweenHooks`).
- A repeated `afterCompletion` is a no-op when no span was current before `preHandle`
  (`FinishedAbsorbsHooks`, `OneSendPerReceive`). Otherwise it sends the outer span
  (`RepeatedCompletionSendsOuterSpan`).

## Model

| member | source | states |
|---|---|---|
| Lifecycle.PreHandle | instrumentation/spring-webmvc/src/main/java/brave/spring/webmvc/TracingHandlerInterceptor.java:64-72 | always answers true; with the scope attribute already set the state is unchanged (no receive, same attributes, same current span); otherwise exactly one receive is logged, its span becomes current, the attribute holds a scope for that span remembering the previous current span, the slot is untouched, and, when every earlier received id is below the next id, the span was never received before |
| Lifecycle.AfterCompletion | instrumentation/spring-webmvc/src/main/java/brave/spring/webmvc/TracingHandlerInterceptor.java:80-96 | no current span: nothing changes; current span with no stored token: NullPointerException and nothing changes; token of another class: ClassCastException and nothing changes; otherwise exactly one send of the span current on entry with the caller's exception, made after the scope was closed (current at the call is the scope's previous span), seeing the template attribute's toString() or, without one, the untouched slot; afterwards the current span is the scope's previous one, the slot is empty if a template was present, and the outcome is the handler's exception if it threw |
| Lifecycle.RequestLifecycle | instrumentation/spring-webmvc/src/main/java/brave/spring/webmvc/TracingHandlerInterceptor.java:64-96 | one request on a clean thread: the log gains exactly a receive and a send of that same span, the send sees the template attribute's toString() or null, and afterwards the tracer's current span is what it was before preHandle and the slot is empty, whether or not the send threw |
| Lifecycle.TemplateSeenBySend | instrumentation/spring-webmvc/src/main/java/brave/spring/webmvc/TracingHandlerInterceptor.java:85-95 | with an empty slot on entry, the adapter reports the template attribute's toString() during handleSend when the attribute is present and null when it is absent, and the slot is empty afterwards |
| Lifecycle.SlotEmptyBetweenHooks | instrumentation/spring-webmvc/src/main/java/brave/spring/webmvc/TracingHandlerInterceptor.java:90-95 | an empty template slot stays empty across any sequence of hook calls (including sends that throw) and attribute writes |
| Lifecycle.ReceivesAtMostOnce | instrumentation/spring-webmvc/src/main/java/brave/spring/webmvc/TracingHandlerInterceptor.java:65-70 | over any sequence of hooks and attribute writes, including writes to the scope key, the received spans only grow, handleReceive is called at most once, and never when the scope attribute was already set |
| Lifecycle.OneSendPerReceive | instrumentation/spring-webmvc/src/main/java/brave/spring/webmvc/TracingHandlerInterceptor.java:64-96 | on a thread with no current span and a request without the scope attribute, over any sequence of hooks and attribute writes that leave the scope key to the interceptor, handleSend is called at most once, and the span it sends is the span handleReceive created for this request |
| Lifecycle.FinishedAbsorbsHooks | instrumentation/spring-webmvc/src/main/java/brave/spring/webmvc/TracingHandlerInterceptor.java:64-83 | once the scope attribute is set and no span is current, any further hooks and attribute writes (including writes to the scope key) receive no span, send nothing, make nothing current and leave the slot alone |
| Lifecycle.AdapterTemplate | instrumentation/spring-webmvc/src/main/java/brave/spring/webmvc/TracingHandlerInterceptor.java:51-53 | the adapter's template is null exactly when the thread-local is empty, and otherwise the stored object's toString() |
| Lifecycle.HandleReceive | instrumentation/spring-webmvc/src/main/java/brave/spring/webmvc/TracingHandlerInterceptor.java:69 | the handler logs one receive and changes nothing but its log and id supply; when every earlier received id is below the next id, the new span differs from every span received before and that stays so |
| Lifecycle.HandleSend | instrumentation/spring-webmvc/src/main/java/brave/spring/webmvc/TracingHandlerInterceptor.java:92 | the handler logs one send carrying the template the adapter reports from the slot at that moment and the span current at the call, changes nothing else, and throws exactly the given fault |
| Lifecycle.RepeatedCompletionSendsOuterSpan | instrumentation/spring-webmvc/src/main/java/brave/spring/webmvc/TracingHandlerInterceptor.java:82-87 | when a span was current before preHandle, a second afterCompletion is not absorbed: it sends that outer span and leaves it current |
| WebMvc.TracingHandlerInterceptor.PreHandle | instrumentation/spring-webmvc/src/main/java/brave/spring/webmvc/TracingHandlerInterceptor.java:63-72 | the method changes the request attributes, tracer and handler exactly as Lifecycle.PreHandle and returns its answer |
| WebMvc.TracingHandlerInterceptor.AfterCompletion | instrumentation/spring-webmvc/src/main/java/brave/spring/webmvc/TracingHandlerInterceptor.java:79-96 | the method changes the tracer, slot and handler exactly as Lifecycle.AfterCompletion and returns its outcome; the slot is removed after the send on both the normal and the throwing path |
| WebMvc.TracingHandlerInterceptor.constructor | instrumentation/spring-webmvc/src/main/java/brave/spring/webmvc/TracingHandlerInterceptor.java:47-61 | a fresh empty thread-local and a fresh handler whose adapter reads that thread-local and which sends through the interceptor's tracer |
| WebMvc.HttpServerHandler.HandleSend | instrumentation/spring-webmvc/src/main/java/brave/spring/webmvc/TracingHandlerInterceptor.java:87-92 | the send logs the template the adapter override reports at the time of the call (the thread-local's value as a string, or null) and throws exactly the given fault |
| WebMvc.HttpServerHandler.HandleReceive | instrumentation/spring-webmvc/src/main/java/brave/spring/webmvc/TracingHandlerInterceptor.java:69 | under the handler invariant (every received id is below the next id), the new span differs from every span received before, is logged as a receive, and the invariant is kept |
| WebMvc.Tracer.WithSpanInScope | instrumentation/spring-webmvc/src/main/java/brave/spring/webmvc/TracingHandlerInterceptor.java:70 | the span becomes current and the token remembers the previous current span |
| WebMvc.Tracer.Close | instrumentation/spring-webmvc/src/main/java/brave/spring/webmvc/TracingHandlerInterceptor.java:84 | closing a token makes its previous span current again |
| WebMvc.Tracer.CurrentSpan | instrumentation/spring-webmvc/src/main/java/brave/spring/webmvc/TracingHandlerInterceptor.java:82 | returns the current span, or null |
| WebMvc.Request.GetAttribute | instrumentation/spring-webmvc/src/main/java/brave/spring/webmvc/TracingHandlerInterceptor.java:65 | the stored value, or null when the name is absent |
| WebMvc.Request.SetAttribute | instrumentation/spring-webmvc/src/main/java/brave/spring/webmvc/TracingHandlerInterceptor.java:70 | only the named attribute changes |
| WebMvc.TemplateSlot.Set | instrumentation/spring-webmvc/src/main/java/brave/spring/webmvc/TracingHandlerInterceptor.java:91 | the slot holds the template |
| WebMvc.TemplateSlot.Remove | instrumentation/spring-webmvc/src/main/java/brave/spring/webmvc/TracingHandlerInterceptor.java:94 | the slot is empty |

## Left out

- Internals of the HTTP server handler, the tracer, the scope token and the propagation extractor
  are left out. This includes header formats, trace-context parsing, sampling, tag names and
  reporting. Only their contracts as used by the interceptor are modelled.
- Span ids come from a counter in the handler, standing in for the tracer's id generation. The
  model therefore promises freshness only among the spans this handler produced.
- `handleReceive` never throws in the model. `handleSend` throws only when the `fault` parameter
  says so.
- The text of a scope token's `toString()` is undocumented, so the model uses a fixed placeholder.
  It matters only if the template attribute held a scope token.
- `ThreadLocal` per-thread isolation and re-dispatch to another thread are left out. The model is
  one thread with one slot and one current span.
- Other pieces of wiring are left out because they hold no logic of the hook pair:
  - the `create` factories;
  - the `postHandle` hook, which is empty;
  - the `GETTER` delegation to `getHeader`;
  - the `toString` overrides;
  - `HttpAdapter`'s default `path()`, which is a call into `java.net.URI`.
- Application code between the hooks is assumed to close every scope it opens. Hook sequences
  only contain the interceptor's two hooks and request-attribute writes, so nothing else changes
  the tracer's current span between hooks. `FinishedAbsorbsHooks` and `OneSendPerReceive` rely on
  this.
- The servlet rule that `setAttribute` with a null value removes the attribute is left out. The
  interceptor never stores null.

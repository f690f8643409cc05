/** The page's search state machine (App.tsx): one query, one category, the status of
    the single search the page holds, its result and its error message. The search
    call itself is a request the page hands out; its completion comes back later as
    an event carrying the model's response or a failure. */
module App {
  import opened Text
  import opened Types
  import GeminiService

  /** The page's state (`useState` hooks of App.tsx; the mobile-menu flag is left out). */
  datatype AppState = AppState(
    query: string,
    category: SearchCategory,
    status: SearchStatus,
    result: Option<SearchResult>,
    errorMsg: Option<string>)

  /** The state on first render. */
  const Initial: AppState := AppState("", General, Idle, None, None)

  /** The message shown when a search fails. */
  const FailureMessage: string :=
    "Failed to retrieve search results. Please verify your API key and network connection."

  /** A search handed to the service: the query and the category it runs under. */
  datatype Request = Request(query: string, category: SearchCategory)

  /** The state after a handler, and the search it started, if any. */
  datatype Step = Step(state: AppState, request: Option<Request>)

  /** What the user and the service can do to the page. */
  datatype Event =
    | EditQuery(text: string)
    | Submit
    | SelectCategory(category: SearchCategory)
    | Chip(name: string)
    | Succeeded(response: GeminiService.ModelResponse)
    | Failed

  /** `performSearch`: a blank query changes nothing; any other query starts a search,
      which clears the previous result and error and shows the loading state. The
      category, query and nothing else are kept. */
  function PerformSearch(s: AppState, query: string, category: SearchCategory): (r: Step)
    ensures AllSpace(query) ==> r == Step(s, None)
    ensures !AllSpace(query) ==> r.request == Some(Request(query, category))
    ensures !AllSpace(query) ==> r.state.status == Loading && r.state.result.None? && r.state.errorMsg.None?
    ensures r.state.query == s.query && r.state.category == s.category
  {
    if Trim(query) == [] then Step(s, None)
    else Step(s.(status := Loading, errorMsg := None, result := None), Some(Request(query, category)))
  }

  /** The suggestion chips offered under each category, in display order. */
  function ChipLabels(c: SearchCategory): seq<string>
  {
    match c
    case General => ["Gemini vs GPT-4", "DeepSeek Architecture"]
    case Health => ["Med-PaLM 2 Papers", "AI in Radiology"]
    case Emotion => ["Sentiment Analysis Trends", "Empathetic Chatbots"]
    case Business => ["Enterprise LLM Adoption"]
    case Education => []
    case Creative => []
  }

  /** Every chip label has a non-blank first character, so a chip always searches. */
  lemma ChipLabelsNotBlank(c: SearchCategory, name: string)
    requires name in ChipLabels(c)
    ensures !AllSpace(name)
  {
    assert name[0] in "GDMASE";
    assert !IsSpace(name[0]);
  }

  /** The handlers: typing, submitting the form, picking a category, clicking a chip,
      and the completion of a search. */
  function Apply(s: AppState, e: Event): (r: Step)
    ensures e.EditQuery? ==> r == Step(s.(query := e.text), None)
    ensures e.SelectCategory? ==> r.state.category == e.category
    ensures e.Succeeded? ==> (r.request.None? && r.state.status == Success
      && r.state.result == Some(GeminiService.ExtractResult(e.response)) && r.state.errorMsg == s.errorMsg)
    ensures e.Failed? ==> (r.request.None? && r.state.status == Error
      && r.state.errorMsg == Some(FailureMessage) && r.state.result == s.result)
    ensures r.request.Some? ==> !AllSpace(r.request.value.query) && r.state.status == Loading
    ensures e.Succeeded? || e.Failed? ==> r.state.query == s.query && r.state.category == s.category
    ensures e.SelectCategory? ==> r.state.query == s.query
    ensures e.Submit? && AllSpace(s.query) ==> r == Step(s, None)
    ensures e.Submit? && !AllSpace(s.query) ==>
      r == Step(s.(status := Loading, errorMsg := None, result := None), Some(Request(s.query, s.category)))
  {
    match e
    case EditQuery(text) => Step(s.(query := text), None)
    case Submit => PerformSearch(s, s.query, s.category)
    case SelectCategory(c) =>
      var s' := s.(category := c);
      if Trim(s.query) != [] && s.status == Success then PerformSearch(s', s.query, c) else Step(s', None)
    case Chip(name) => PerformSearch(s.(query := name), name, s.category)
    case Succeeded(response) =>
      Step(s.(result := Some(GeminiService.ExtractResult(response)), status := Success), None)
    case Failed => Step(s.(status := Error, errorMsg := Some(FailureMessage)), None)
  }

  /** Submitting a blank query changes nothing. */
  lemma BlankSubmitIgnored(s: AppState)
    requires AllSpace(s.query)
    ensures Apply(s, Submit) == Step(s, None)
  {
  }

  /** A category change always takes effect; it searches again, under the new category,
      exactly when the query is not blank and the last search succeeded, and otherwise
      leaves everything else alone. */
  lemma CategoryChangeResearches(s: AppState, c: SearchCategory)
    ensures Apply(s, SelectCategory(c)).request.Some? <==> !AllSpace(s.query) && s.status == Success
    ensures Apply(s, SelectCategory(c)).request.Some? ==>
      Apply(s, SelectCategory(c)).request.value == Request(s.query, c)
    ensures Apply(s, SelectCategory(c)).request.None? ==>
      Apply(s, SelectCategory(c)).state == s.(category := c)
  {
  }

  /** The controls the page offers: the input and the button are disabled while a
      search is loading, the button also while the query is blank, and the chips are
      shown only while idle. Completions are not user actions. */
  predicate Enabled(s: AppState, e: Event) {
    match e
    case EditQuery(_) => s.status != Loading
    case Submit => s.status != Loading && Trim(s.query) != []
    case SelectCategory(_) => true
    case Chip(name) => s.status == Idle && name in ChipLabels(s.category)
    case Succeeded(_) => false
    case Failed => false
  }

  /** A chip sets the query to its label and searches under the current category. */
  lemma ChipSearches(s: AppState, name: string)
    requires Enabled(s, Chip(name))
    ensures Apply(s, Chip(name)).request == Some(Request(name, s.category))
    ensures Apply(s, Chip(name)).state.query == name
  {
    ChipLabelsNotBlank(s.category, name);
  }

  /** `performSearch` itself has no busy check: a submit that reaches it while a
      search is loading starts a second one. Only the disabled controls prevent it. */
  lemma NoBusyGuard(s: AppState)
    requires s.status == Loading && !AllSpace(s.query)
    ensures Apply(s, Submit).request == Some(Request(s.query, s.category))
    ensures !Enabled(s, Submit)
  {
  }

  /** The page together with the number of searches it has started that have not
      completed yet. */
  datatype Sys = Sys(app: AppState, inFlight: nat)

  const InitialSys: Sys := Sys(Initial, 0)

  /** A step of the page and the service: a user action the page offers, or the
      completion of an outstanding search. */
  predicate SysEnabled(sys: Sys, e: Event) {
    if e.Succeeded? || e.Failed? then sys.inFlight > 0 else Enabled(sys.app, e)
  }

  function SysStep(sys: Sys, e: Event): (r: Sys)
    requires SysEnabled(sys, e)
  {
    var step := Apply(sys.app, e);
    if e.Succeeded? || e.Failed? then Sys(step.state, sys.inFlight - 1)
    else Sys(step.state, sys.inFlight + (if step.request.Some? then 1 else 0))
  }

  /** What holds in every state the page can reach: at most one search outstanding,
      loading exactly while it is, a result exactly after success, an error message
      exactly after failure, and always the fixed failure text. */
  ghost predicate Inv(sys: Sys) {
    && sys.inFlight <= 1
    && (sys.app.status == Loading <==> sys.inFlight == 1)
    && (sys.app.result.Some? <==> sys.app.status == Success)
    && (sys.app.errorMsg.Some? <==> sys.app.status == Error)
    && (sys.app.errorMsg.Some? ==> sys.app.errorMsg.value == FailureMessage)
  }

  lemma InitialInv()
    ensures Inv(InitialSys)
  {
  }

  lemma StepInv(sys: Sys, e: Event)
    requires Inv(sys) && SysEnabled(sys, e)
    ensures Inv(SysStep(sys, e))
  {
    if e.Chip? {
      ChipLabelsNotBlank(sys.app.category, e.name);
    }
  }

  /** The page after a run of events; events the page does not offer at that moment
      (a click on a disabled control, a completion with nothing outstanding) are
      ignored. */
  function Run(sys: Sys, events: seq<Event>): Sys
    decreases |events|
  {
    if |events| == 0 then sys
    else Run(if SysEnabled(sys, events[0]) then SysStep(sys, events[0]) else sys, events[1..])
  }

  lemma {:induction false} RunInv(sys: Sys, events: seq<Event>)
    requires Inv(sys)
    ensures Inv(Run(sys, events))
    decreases |events|
  {
    if |events| > 0 {
      if SysEnabled(sys, events[0]) {
        StepInv(sys, events[0]);
        RunInv(SysStep(sys, events[0]), events[1..]);
      } else {
        RunInv(sys, events[1..]);
      }
    }
  }

  /** From the first render, whatever happens, the invariant holds: never two searches
      at once, and the result and the error message are shown only in their states. */
  lemma Reachable(events: seq<Event>)
    ensures Run(InitialSys, events).inFlight <= 1
    ensures Run(InitialSys, events).app.result.Some? ==> Run(InitialSys, events).app.status == Success
    ensures Run(InitialSys, events).app.errorMsg.Some? ==> Run(InitialSys, events).app.status == Error
    ensures Run(InitialSys, events).app.status == Success ==> Run(InitialSys, events).app.result.Some?
  {
    InitialInv();
    RunInv(InitialSys, events);
  }
}

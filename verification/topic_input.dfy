/** The topic form: a text field, and a submit button that hands the
    trimmed topic to the page unless a generation is already running or the
    field holds only white space. Both layouts (hero and compact) share the
    handler and the disabled conditions, so the layout is not modelled. */
module TopicInput {
  import opened Wrappers
  import opened Strings
  import Graph
  import GenerateRoute

  /** The field's current text and the page's `isLoading` prop. */
  datatype Form = Form(topic: string, isLoading: bool)

  /** What the controls show: whether the field and the button accept
      input, and the button's caption. */
  datatype Controls = Controls(inputDisabled: bool, submitDisabled: bool, caption: string)

  /** The field starts at `initialValue`, which defaults to the empty
      string. */
  function InitialTopic(initialValue: Option<string>): (topic: string)
    ensures initialValue.Some? ==> topic == initialValue.value
    ensures initialValue.None? ==> topic == []
  {
    initialValue.GetOr("")
  }

  /** The form as first rendered. */
  function InitialForm(initialValue: Option<string>, isLoading: bool): (form: Form)
    ensures form.topic == InitialTopic(initialValue) && form.isLoading == isLoading
  {
    Form(InitialTopic(initialValue), isLoading)
  }

  /** Typing replaces the field's text with what the input now holds. */
  function Type(form: Form, value: string): (next: Form)
    ensures next.topic == value && next.isLoading == form.isLoading
  {
    form.(topic := value)
  }

  /** `handleSubmit`: the topic passed to `onSubmit`, or `None` when the
      handler does nothing. It submits exactly when nothing is loading and
      the field holds a non-white-space character, and what it passes is
      the field's text with surrounding white space removed: non-empty, a
      slice of the field, and neither starting nor ending with white
      space. */
  function Submission(form: Form): (r: Option<string>)
    ensures r.Some? <==> !form.isLoading
                         && exists i :: 0 <= i < |form.topic| && !IsWhitespace(form.topic[i])
    ensures r.Some? ==> r.value != [] && !IsWhitespace(r.value[0])
                        && !IsWhitespace(r.value[|r.value| - 1])
    ensures r.Some? ==> var lo := LeadingSpace(form.topic);
                        && lo + |r.value| <= |form.topic| && r.value == form.topic[lo..lo + |r.value|]
                        && forall i :: 0 <= i < |form.topic| && !(lo <= i < lo + |r.value|)
                                       ==> IsWhitespace(form.topic[i])
  {
    var trimmed := Trim(form.topic);
    if trimmed != [] && !form.isLoading then Some(trimmed) else None
  }

  /** The `disabled` props and caption of the input and the button. */
  function ControlsFor(form: Form): (c: Controls)
    ensures c.inputDisabled <==> form.isLoading
    ensures c.submitDisabled <==> Submission(form).None?
    ensures c.caption == (if form.isLoading then "Generating" else "Generate")
  {
    var caption := if form.isLoading then "Generating" else "Generate";
    Controls(form.isLoading, form.isLoading || Trim(form.topic) == [], caption)
  }

  /** Without an `initialValue` the field starts empty, so the button
      starts disabled and submitting does nothing until a topic is typed. */
  lemma EmptyFormCannotSubmit(isLoading: bool)
    ensures Submission(InitialForm(None, isLoading)).None?
    ensures ControlsFor(InitialForm(None, isLoading)).submitDisabled
  {
    assert InitialForm(None, isLoading).topic == [];
  }

  /** White space around the typed topic changes nothing that is
      submitted. */
  lemma PaddingIsNotSubmitted(form: Form, before: string, after: string)
    requires forall i :: 0 <= i < |before| ==> IsWhitespace(before[i])
    requires forall i :: 0 <= i < |after| ==> IsWhitespace(after[i])
    ensures Submission(Type(form, before + form.topic + after)) == Submission(form)
  {
    var padded := before + form.topic + after;
    TrimPadding(before, form.topic, after);
    assert Trim(form.topic) == [] <==> Trim(padded) == [];
  }

  /** A submitted topic passes the route's own check unchanged: the route
      trims it again, which leaves it as it is, so it never answers 400 and
      searches for exactly the submitted text. */
  lemma SubmissionAcceptedByRoute(
    form: Form,
    search: string -> GenerateRoute.Outcome<seq<string>>,
    scrape: seq<string> -> GenerateRoute.Outcome<seq<GenerateRoute.ScrapedDoc>>,
    generate: (string, seq<GenerateRoute.ScrapedDoc>) -> GenerateRoute.Outcome<Graph.GenerateResponse>)
    requires Submission(form).Some?
    ensures var h := GenerateRoute.Post(GenerateRoute.Ok(GenerateRoute.StringTopic(Submission(form).value)),
                                        search, scrape, generate);
            h.response.status != 400 && h.calls[0] == GenerateRoute.Search(Submission(form).value)
  {
    TrimIdempotent(form.topic);
  }
}

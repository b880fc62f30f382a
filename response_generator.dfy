/**
 * The reply composer and its interactive review loop: build the styling
 * instruction and the task prompt from a style profile and an incoming
 * email, hand them to the generation backend, and let the operator accept,
 * retry, edit the instructions or skip.
 */
module ResponseGenerator {
  import opened Text
  import opened Common
  import opened Json
  import StyleExtractor

  /** One generation request: the styling instruction and the task prompt. */
  datatype Request = Request(systemInstruction: string, userPrompt: string)

  /** The generation backend as seen by one call. */
  type Backend = Request -> Result<string>

  /**
   * The styling-instruction template, split around its two placeholders:
   * the text before the style profile, the rules up to the formality, and
   * the closing rules after it.
   */
  datatype Template = Template(opening: string, rules: string, closing: string)

  /** The styling instruction: the reply template with the serialised profile and the formality filled in. */
  function SystemInstruction(template: Template, profileJson: string, formality: string): (r: string)
    ensures Occurs(profileJson, r) && Occurs(formality, r)
    ensures StartsWith(r, template.opening)
  {
    var head := template.opening + profileJson;
    OccursSuffix(template.opening, profileJson);
    OccursExtend(profileJson, head, template.rules);
    OccursExtend(profileJson, head + template.rules, formality);
    OccursExtend(profileJson, head + template.rules + formality, template.closing);
    OccursBetween(head + template.rules, formality, template.closing);
    assert (head + template.rules + formality + template.closing)[..|template.opening|] == template.opening;
    head + template.rules + formality + template.closing
  }

  const DefaultFormality := Num(5)

  /** `style_profile.get("formality_level", 5)`: the stored value as it is, or 5; a non-object has no `get`. */
  function Formality(profile: Value): (r: Result<Value>)
    ensures !profile.Obj? <==> r.Err?
    ensures r.Err? ==> r.error == NotAMapping(TypeName(profile))
    ensures profile.Obj? && "formality_level" in profile.fields ==> r == Ok(profile.fields["formality_level"])
    ensures profile.Obj? && "formality_level" !in profile.fields ==> r == Ok(Num(5))
  {
    match profile
    case Obj(fields) => Ok(if "formality_level" in fields then fields["formality_level"] else DefaultFormality)
    case _ => Err(NotAMapping(TypeName(profile)))
  }

  /** Python's `str()` of a JSON value, as `str.format` inserts it. */
  function Display(v: Value, codec: Codec): (r: string)
    ensures v.Num? ==> r == IntToString(v.n)
    ensures v.Str? ==> r == v.s
  {
    match v
    case Null => "None"
    case Bool(b) => if b then "True" else "False"
    case Num(n) => IntToString(n)
    case Str(s) => s
    case _ => codec.display(v)
  }

  const PromptIntro := "Reply to this email:\n\n"
  const ContextLabel := "\nADDITIONAL CONTEXT/INSTRUCTIONS: "

  /** The sender and subject lines of the task prompt. */
  function HeaderLines(senderName: string, subject: string): string {
    "FROM: " + senderName + "\nSUBJECT: " + subject + "\n"
  }

  /** The delimited body of the task prompt. */
  function BodyBlock(body: string): string {
    "--- EMAIL BODY ---\n" + body + "\n--- END ---\n"
  }

  /** The task prompt without extra instructions. */
  function BasePrompt(senderName: string, subject: string, body: string): string {
    PromptIntro + HeaderLines(senderName, subject) + "\n" + BodyBlock(body)
  }

  /**
   * The task prompt. It always holds the sender and subject lines and the
   * delimited body; with no extra instructions it is the base prompt exactly,
   * and otherwise the base prompt followed by one line carrying them verbatim.
   */
  function UserPrompt(senderName: string, subject: string, body: string, context: string): (r: string)
    ensures Occurs(HeaderLines(senderName, subject), r)
    ensures Occurs(BodyBlock(body), r)
    ensures context == "" ==> r == BasePrompt(senderName, subject, body)
    ensures context != "" ==> r == BasePrompt(senderName, subject, body) + (ContextLabel + context + "\n")
    ensures context != "" ==> Occurs(context, r)
  {
    var base := BasePrompt(senderName, subject, body);
    OccursBetween(PromptIntro, HeaderLines(senderName, subject), "\n");
    OccursExtend(HeaderLines(senderName, subject), PromptIntro + HeaderLines(senderName, subject) + "\n", BodyBlock(body));
    OccursSuffix(PromptIntro + HeaderLines(senderName, subject) + "\n", BodyBlock(body));
    if context == "" then base
    else
      var extra := ContextLabel + context + "\n";
      OccursExtend(HeaderLines(senderName, subject), base, extra);
      OccursExtend(BodyBlock(body), base, extra);
      OccursBetween(ContextLabel, context, "\n");
      OccursPrepend(context, base, extra);
      base + extra
  }

  /**
   * The request sent for a reply: the whole profile serialised into the
   * styling instruction together with its formality, unclamped, and the task
   * prompt for the email.
   */
  function ReplyRequest(profile: Value, subject: string, body: string, senderName: string,
                        context: string, codec: Codec, template: Template): (r: Result<Request>)
    ensures r.Ok? <==> profile.Obj?
    ensures r.Err? ==> r.error == NotAMapping(TypeName(profile))
    ensures r.Ok? ==> Occurs(codec.encode(profile), r.value.systemInstruction)
    ensures r.Ok? ==> r.value.userPrompt == UserPrompt(senderName, subject, body, context)
    ensures r.Ok? ==> StartsWith(r.value.systemInstruction, template.opening)
    ensures r.Ok? && "formality_level" in profile.fields && profile.fields["formality_level"].Num? ==>
      Occurs(IntToString(profile.fields["formality_level"].n), r.value.systemInstruction)
    ensures r.Ok? && "formality_level" !in profile.fields ==> Occurs("5", r.value.systemInstruction)
  {
    match Formality(profile)
    case Err(e) => Err(e)
    case Ok(formality) =>
      Ok(Request(SystemInstruction(template, codec.encode(profile), Display(formality, codec)),
                 UserPrompt(senderName, subject, body, context)))
  }

  /** The profile given by the caller, or else the one saved at the configured path. */
  function ResolveProfile(cfg: Config, store: StyleExtractor.Store, codec: Codec, profile: Option<Value>): (r: Result<Value>)
    ensures profile.Some? ==> r == Ok(profile.value)
    ensures profile.None? ==> r == StyleExtractor.LoadStyleProfile(cfg, store, "", codec)
  {
    match profile
    case Some(p) => Ok(p)
    case None => StyleExtractor.LoadStyleProfile(cfg, store, "", codec)
  }

  /**
   * `generate_reply`. Without a credential it fails before a profile is
   * loaded or a request is built, whatever the backend would answer. A reply
   * is the backend's text for the composed request, trimmed and otherwise
   * unchanged.
   */
  function GenerateReply(cfg: Config, store: StyleExtractor.Store, codec: Codec, template: Template, subject: string, body: string,
                         senderName: string, context: string, profile: Option<Value>, backend: Backend): (r: Result<string>)
    ensures cfg.geminiApiKey == "" ==> r == Err(MissingApiKey)
    ensures r.Ok? ==> Strip(r.value) == r.value
  {
    if cfg.geminiApiKey == "" then Err(MissingApiKey)
    else
      match ResolveProfile(cfg, store, codec, profile)
      case Err(e) => Err(e)
      case Ok(p) =>
        match ReplyRequest(p, subject, body, senderName, context, codec, template)
        case Err(e) => Err(e)
        case Ok(request) =>
          match backend(request)
          case Err(e) => Err(e)
          case Ok(text) =>
            StripIdempotent(text);
            Ok(Strip(text))
  }

  /**
   * A reply is the backend's answer to the request composed from the
   * resolved profile and the email, trimmed; a backend failure is passed on.
   */
  lemma GenerateReplySendsRequest(cfg: Config, store: StyleExtractor.Store, codec: Codec, template: Template, subject: string, body: string,
                                  senderName: string, context: string, profile: Option<Value>, backend: Backend)
    requires cfg.geminiApiKey != ""
    ensures var r := GenerateReply(cfg, store, codec, template, subject, body, senderName, context, profile, backend);
      var resolved := ResolveProfile(cfg, store, codec, profile);
      (resolved.Err? ==> r == Err(resolved.error)) &&
      (resolved.Ok? ==>
        var request := ReplyRequest(resolved.value, subject, body, senderName, context, codec, template);
        (request.Err? ==> r == Err(request.error)) &&
        (request.Ok? && backend(request.value).Err? ==> r == Err(backend(request.value).error)) &&
        (request.Ok? && backend(request.value).Ok? ==> r == Ok(Strip(backend(request.value).value))))
  {
  }

  /** The operator's answer to a draft. */
  datatype Choice = Accept | Retry | Edit | Skip | Invalid

  /** The answer read from a line: stripped and upper-cased, then compared with A, R, E and S. */
  function ParseChoice(line: string): Choice
  {
    var choice := Upper(Strip(line));
    if choice == "A" then Accept
    else if choice == "R" then Retry
    else if choice == "E" then Edit
    else if choice == "S" then Skip
    else Invalid
  }

  /** Which lines give which answer: a one-letter line in either case, and the long s also reads as S. */
  lemma ParseChoiceExactly(line: string)
    ensures ParseChoice(line) == Accept <==> Strip(line) == "A" || Strip(line) == "a"
    ensures ParseChoice(line) == Retry <==> Strip(line) == "R" || Strip(line) == "r"
    ensures ParseChoice(line) == Edit <==> Strip(line) == "E" || Strip(line) == "e"
    ensures ParseChoice(line) == Skip <==> Strip(line) == "S" || Strip(line) == "s" || Strip(line) == "\U{017F}"
  {
    var t := Strip(line);
    assert |t| == 1 ==> Upper(t) == [UpperChar(t[0])];
  }

  /**
   * The review loop as a state machine: drafting with the current
   * instructions, the position of the next input line and the number of
   * backend calls so far; or finished by acceptance, skip, or an error.
   */
  datatype Review =
    | Drafting(context: string, pos: nat, call: nat)
    | Accepted(reply: string)
    | Skipped
    | Aborted(error: Error)

  /**
   * The transition after a draft was shown: the next line decides. Only A
   * accepts (the draft just shown) and only S skips; E takes the following
   * line, stripped, as the new instructions; anything else drafts again with
   * the instructions unchanged. Running out of lines is an end-of-input error.
   */
  function Respond(context: string, pos: nat, call: nat, reply: string, inputs: seq<string>): (next: Review)
    ensures next.Accepted? <==> pos < |inputs| && ParseChoice(inputs[pos]) == Accept
    ensures next.Accepted? ==> next.reply == reply
    ensures next.Skipped? <==> pos < |inputs| && ParseChoice(inputs[pos]) == Skip
    ensures next.Aborted? ==> next.error == EndOfInput
    ensures next.Drafting? ==> pos < next.pos <= |inputs| && next.call == call + 1
    ensures next.Drafting? ==>
      if ParseChoice(inputs[pos]) == Edit
      then next.pos == pos + 2 && next.context == Strip(inputs[pos + 1])
      else next.pos == pos + 1 && next.context == context
  {
    if pos >= |inputs| then Aborted(EndOfInput)
    else
      match ParseChoice(inputs[pos])
      case Accept => Accepted(reply)
      case Skip => Skipped
      case Edit =>
        if pos + 1 >= |inputs| then Aborted(EndOfInput)
        else Drafting(Strip(inputs[pos + 1]), pos + 2, call + 1)
      case _ => Drafting(context, pos + 1, call + 1)
  }

  /** The backend as it answers the call numbered `call`. */
  function AtCall(backend: (nat, Request) -> Result<string>, call: nat): Backend {
    request => backend(call, request)
  }

  /** What stays fixed during one review: the settings, the email, the resolved profile and the backend. */
  datatype Session = Session(cfg: Config, store: StyleExtractor.Store, codec: Codec, template: Template, subject: string,
                             body: string, senderName: string, profile: Value,
                             backend: (nat, Request) -> Result<string>)

  /** The draft generated with the given instructions on the given call. */
  function Draft(s: Session, context: string, call: nat): Result<string> {
    GenerateReply(s.cfg, s.store, s.codec, s.template, s.subject, s.body, s.senderName, context, Some(s.profile), AtCall(s.backend, call))
  }

  function Pending(st: Review, inputs: seq<string>): nat {
    if !st.Drafting? then 0 else if st.pos <= |inputs| then |inputs| - st.pos + 1 else 1
  }

  /** Where the review ends from a state: the accepted reply, None on skip, or the error. */
  function Run(s: Session, inputs: seq<string>, st: Review): Result<Option<string>>
    decreases Pending(st, inputs)
  {
    match st
    case Accepted(reply) => Ok(Some(reply))
    case Skipped => Ok(None)
    case Aborted(e) => Err(e)
    case Drafting(context, pos, call) =>
      match Draft(s, context, call)
      case Err(e) => Err(e)
      case Ok(reply) => Run(s, inputs, Respond(context, pos, call, reply, inputs))
  }

  /**
   * `generate_reply_interactive` with the operator's input lines: the profile
   * is resolved first, the first line gives the instructions, and the review
   * starts at the second line with no backend call made yet.
   */
  function Interactive(cfg: Config, store: StyleExtractor.Store, codec: Codec, template: Template, subject: string, body: string,
                       senderName: string, profile: Option<Value>, inputs: seq<string>,
                       backend: (nat, Request) -> Result<string>): Result<Option<string>>
  {
    match ResolveProfile(cfg, store, codec, profile)
    case Err(e) => Err(e)
    case Ok(p) =>
      if inputs == [] then Err(EndOfInput)
      else Run(Session(cfg, store, codec, template, subject, body, senderName, p, backend), inputs, Drafting(Strip(inputs[0]), 1, 0))
  }

  method GenerateReplyInteractive(cfg: Config, store: StyleExtractor.Store, codec: Codec, template: Template, subject: string,
                                  body: string, senderName: string, profile: Option<Value>,
                                  inputs: seq<string>, backend: (nat, Request) -> Result<string>)
    returns (r: Result<Option<string>>)
    ensures r == Interactive(cfg, store, codec, template, subject, body, senderName, profile, inputs, backend)
  {
    var resolved := ResolveProfile(cfg, store, codec, profile);
    if resolved.Err? {
      return Err(resolved.error);
    }
    var session := Session(cfg, store, codec, template, subject, body, senderName, resolved.value, backend);
    if |inputs| == 0 {
      return Err(EndOfInput);
    }
    var context := Strip(inputs[0]);
    var pos, call := 1, 0;
    while true
      invariant pos <= |inputs|
      invariant Run(session, inputs, Drafting(context, pos, call))
             == Interactive(cfg, store, codec, template, subject, body, senderName, profile, inputs, backend)
      decreases |inputs| - pos
    {
      var reply := GenerateReply(cfg, store, codec, template, subject, body, senderName, context, Some(resolved.value), AtCall(backend, call));
      assert reply == Draft(session, context, call);
      if reply.Err? {
        return Err(reply.error);
      }
      ghost var next := Respond(context, pos, call, reply.value, inputs);
      assert Run(session, inputs, Drafting(context, pos, call)) == Run(session, inputs, next);
      if pos == |inputs| {
        return Err(EndOfInput);
      }
      var choice := ParseChoice(inputs[pos]);
      pos := pos + 1;
      if choice == Accept {
        return Ok(Some(reply.value));
      } else if choice == Edit {
        if pos == |inputs| {
          return Err(EndOfInput);
        }
        context := Strip(inputs[pos]);
        pos := pos + 1;
      } else if choice == Skip {
        return Ok(None);
      }
      call := call + 1;
      assert next == Drafting(context, pos, call);
    }
  }

  /** A review from a drafting state accepts only on an A line, and skips only on an S line. */
  lemma {:induction false} RunEndsOnlyByChoice(s: Session, inputs: seq<string>, st: Review)
    requires st.Drafting?
    ensures Run(s, inputs, st) == Ok(None) ==>
      exists j :: st.pos <= j < |inputs| && ParseChoice(inputs[j]) == Skip
    ensures Run(s, inputs, st).Ok? && Run(s, inputs, st).value.Some? ==>
      exists j :: st.pos <= j < |inputs| && ParseChoice(inputs[j]) == Accept
    decreases Pending(st, inputs)
  {
    var draft := Draft(s, st.context, st.call);
    if draft.Ok? {
      var next := Respond(st.context, st.pos, st.call, draft.value, inputs);
      assert Run(s, inputs, st) == Run(s, inputs, next);
      if next.Drafting? {
        RunEndsOnlyByChoice(s, inputs, next);
      } else if next.Accepted? {
        assert ParseChoice(inputs[st.pos]) == Accept;
      } else if next.Skipped? {
        assert ParseChoice(inputs[st.pos]) == Skip;
      }
    } else {
      assert Run(s, inputs, st) == Err(draft.error);
    }
  }

  /**
   * The accepted reply is a draft generated on some call with either the
   * current instructions or a stripped line that followed an E.
   */
  lemma {:induction false} AcceptedDraftOrigin(s: Session, inputs: seq<string>, st: Review, reply: string)
    requires st.Drafting?
    requires Run(s, inputs, st) == Ok(Some(reply))
    ensures exists call, context ::
      (st.call <= call && Draft(s, context, call) == Ok(reply) &&
       (context == st.context ||
        exists j :: st.pos < j < |inputs| && context == Strip(inputs[j]) && ParseChoice(inputs[j - 1]) == Edit))
    decreases Pending(st, inputs)
  {
    var draft := Draft(s, st.context, st.call);
    var next := Respond(st.context, st.pos, st.call, draft.value, inputs);
    if next.Drafting? {
      AcceptedDraftOrigin(s, inputs, next, reply);
      var call, context :| next.call <= call && Draft(s, context, call) == Ok(reply) &&
        (context == next.context ||
         exists j :: next.pos < j < |inputs| && context == Strip(inputs[j]) && ParseChoice(inputs[j - 1]) == Edit);
      if context == next.context && ParseChoice(inputs[st.pos]) == Edit {
        assert st.pos < st.pos + 1 < |inputs| && context == Strip(inputs[st.pos + 1]);
      }
    } else {
      assert Draft(s, st.context, st.call) == Ok(reply);
    }
  }

  /** Without any E line, the accepted reply was drafted with the instructions first given. */
  lemma AcceptedWithoutEdit(s: Session, inputs: seq<string>, st: Review, reply: string)
    requires st.Drafting?
    requires forall j :: st.pos <= j < |inputs| ==> ParseChoice(inputs[j]) != Edit
    requires Run(s, inputs, st) == Ok(Some(reply))
    ensures exists call :: st.call <= call && Draft(s, st.context, call) == Ok(reply)
  {
    AcceptedDraftOrigin(s, inputs, st, reply);
  }

  /**
   * The whole interactive review never accepts on its own: a reply comes back
   * only after an A line and None only after an S line (the first line is the
   * instructions, never a choice), and an accepted reply is trimmed.
   */
  lemma InteractiveNeverAutoAccepts(cfg: Config, store: StyleExtractor.Store, codec: Codec, template: Template, subject: string,
                                    body: string, senderName: string, profile: Option<Value>,
                                    inputs: seq<string>, backend: (nat, Request) -> Result<string>)
    ensures var r := Interactive(cfg, store, codec, template, subject, body, senderName, profile, inputs, backend);
      (r.Ok? && r.value.Some? ==>
         (Strip(r.value.value) == r.value.value && exists j :: 1 <= j < |inputs| && ParseChoice(inputs[j]) == Accept)) &&
      (r == Ok(None) ==> exists j :: 1 <= j < |inputs| && ParseChoice(inputs[j]) == Skip)
  {
    var resolved := ResolveProfile(cfg, store, codec, profile);
    if resolved.Ok? && inputs != [] {
      var s := Session(cfg, store, codec, template, subject, body, senderName, resolved.value, backend);
      var st := Drafting(Strip(inputs[0]), 1, 0);
      RunEndsOnlyByChoice(s, inputs, st);
      var r := Run(s, inputs, st);
      if r.Ok? && r.value.Some? {
        AcceptedDraftOrigin(s, inputs, st, r.value.value);
      }
    }
  }
}

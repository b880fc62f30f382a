/** Outcomes, errors and configuration shared by the three core components. */
module Common {
  import opened Text

  /** The exceptions the core raises or lets through, one constructor per cause. */
  datatype Error =
    | MissingApiKey              // ValueError: no Gemini credential configured
    | NoSamples(directory: string) // FileNotFoundError: the samples batch is empty
    | NoProfile(path: string)    // FileNotFoundError: no saved style profile
    | FenceWithoutNewline        // IndexError: a leading fence with nothing after it on any line
    | PromptFormat(detail: string) // error raised while interpolating the analysis prompt
    | NotAMapping(typeName: string) // AttributeError: the profile, of this type, is not a JSON object
    | BadProfile(path: string, message: string) // JSONDecodeError: the saved profile is not valid JSON
    | Backend(detail: string)    // failure reported by the text-generation service
    | EndOfInput                 // EOFError: the operator's input ended

  datatype Result<+T> = Ok(value: T) | Err(error: Error)

  /**
   * The settings every component reads: the Gemini credential, the samples
   * directory and the style-profile path (an empty string is "not set").
   */
  datatype Config = Config(geminiApiKey: string, samplesDir: string, profilePath: string)

  /** Python's `value or fallback` for a string argument that may be missing. */
  function OrDefault(value: string, fallback: string): (r: string)
    ensures value != "" ==> r == value
    ensures value == "" ==> r == fallback
  {
    if value != "" then value else fallback
  }

  const ExtensionList := ".txt, .eml, .msg, .md, or .html"

  /** The text of the missing-key error. */
  function MissingKeyText(): (m: string)
    ensures Occurs("GEMINI_API_KEY", m)
  {
    var tail := " not set. Please add it to your .env file.";
    OccursBetween("", "GEMINI_API_KEY", tail);
    assert "" + "GEMINI_API_KEY" + tail == "GEMINI_API_KEY" + tail;
    "GEMINI_API_KEY" + tail
  }

  /** The text of the no-samples error. */
  function NoSamplesText(dir: string): (m: string)
    ensures Occurs(dir, m) && Occurs(ExtensionList, m)
  {
    var head := "No text files found in '";
    var mid := "'. Please add ";
    var tail := " files.";
    OccursBetween(head, dir, mid);
    OccursExtend(dir, head + dir + mid, ExtensionList);
    OccursExtend(dir, head + dir + mid + ExtensionList, tail);
    OccursBetween(head + dir + mid, ExtensionList, tail);
    head + dir + mid + ExtensionList + tail
  }

  /** The text of an error that sits between a fixed head and tail. */
  function Quoted(head: string, detail: string, tail: string): (m: string)
    ensures Occurs(detail, m)
  {
    OccursBetween(head, detail, tail);
    head + detail + tail
  }

  /** The user-facing text of each configuration and not-found error. */
  function Message(e: Error): (m: string)
    ensures e.NoSamples? ==> Occurs(e.directory, m) && Occurs(ExtensionList, m)
    ensures e.NoProfile? ==> Occurs(e.path, m)
    ensures e.MissingApiKey? ==> Occurs("GEMINI_API_KEY", m)
    ensures e.NotAMapping? ==> Occurs(e.typeName, m)
    ensures e.BadProfile? ==> m == e.message
  {
    match e
    case MissingApiKey => MissingKeyText()
    case NoSamples(dir) => NoSamplesText(dir)
    case NoProfile(path) => Quoted("No style profile found at '", path, "'. Run extract_style() first.")
    case FenceWithoutNewline => "list index out of range"
    case PromptFormat(detail) => detail
    case NotAMapping(typeName) => Quoted("'", typeName, "' object has no attribute 'get'")
    case BadProfile(_, message) => message
    case Backend(detail) => detail
    case EndOfInput => "EOF when reading a line"
  }
}

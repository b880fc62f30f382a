# Email responder core, modelled in Dafny

The email responder learns how a person writes and drafts replies in that
style. Three components make up its core, and each is modelled here:

- **Style extractor.** It reads writing samples from a directory tree and
  numbers them into one corpus block. It asks the Gemini text-generation
  service to describe the writing style as JSON. It cleans the answer of
  Markdown fences, parses it, or degrades it to a raw-analysis record, and
  saves the resulting *style profile*.
- **Response generator.** It turns a style profile and an incoming email
  into a styling instruction and a task prompt, and asks the service for a
  reply. An interactive review loop lets the operator accept the draft (A),
  retry (R), edit the instructions (E) or skip (S).
- **Outlook client export.** It scans the Outlook inbox, newest first. Each
  message from one sender with a long enough body becomes a text file. The
  file's name comes from the message's date and sanitised subject. A file
  that already exists is left alone. The scan stops once `max_count` files
  were written.

The model is functional. The profile store and the output directory are
maps that go in and come back out. The Gemini service, the file scanner,
the prompt interpolation, the JSON codec and the ability to write a file
are parameters. `config.py`'s settings are an explicit `Config` value; the
defaults it reads are `./samples` and `./style_profile.json`.

Modules:

- `Text` (`text.dfy`): the Python string operations the core uses. These
  are `strip` with Python's whitespace set, `lower`, the `upper` used for
  the choice, `split`/`rsplit` at one separator, `re.sub` over a character
  class, `str(int)` and `join`.
- `Common` (`common.dfy`): the errors, results, configuration and error
  messages.
- `Json` (`json.dfy`): JSON values and the codec (`dumps`, `loads`, `str`).
- `StyleExtractor` (`style_extractor.dfy`).
- `ResponseGenerator` (`response_generator.dfy`).
- `OutlookClient` (`outlook_client.dfy`).

The code has loops in four places: the sample loader, the corpus builder,
the inbox scan and the review loop. Each is modelled as a method with a
loop, proved equal to a specification function; for the review loop, a
`while true` method, that function is a recursive state machine, `Run`. Lemmas about the
specification functions state what the code promises.

## Model

| member | source | states |
|---|---|---|
| Common.OrDefault | style_extractor.py:103-104 | An argument that is not given falls back to the configured setting; a given one is used as is |
| Common.Message | style_extractor.py:106-117 | The missing-key error names `GEMINI_API_KEY`; the no-samples error names the directory and the accepted extensions; the no-profile error names the path; the missing-`get` error names the profile's Python type; a corrupt profile gives the decoder's message |
| Text.Strip | style_extractor.py:78 | The result of `strip()` is no longer than the input and starts and ends with a non-whitespace character when not empty |
| Text.StripShape | style_extractor.py:78 | `strip()` keeps one contiguous slice of the input and every character it removes, before or after that slice, is whitespace |
| Text.StripIdempotent | style_extractor.py:145 | Stripping a stripped text changes nothing |
| Text.AfterFirstAt | style_extractor.py:142 | `split("\n", 1)[1]` gives exactly the text after the first newline |
| Text.LastOccurrenceFound | style_extractor.py:144 | The position `rsplit` cuts at is an occurrence of the separator, and no later position is one |
| Text.LastOccurrenceAbsent | style_extractor.py:144 | When no cut position is found, the separator occurs nowhere in the text |
| Text.BeforeLastSuffix | style_extractor.py:143-144 | On a text that ends with the fence, `rsplit("```", 1)[0]` removes exactly that closing fence |
| Text.ReplaceAll | outlook_client.py:248 | `re.sub` over the character class keeps the length and replaces exactly the characters of the class with `_` |
| Text.RemoveChar | outlook_client.py:249 | `replace("-", "")` leaves no dash and no character that was not in the input |
| Text.RemoveCharAppend | outlook_client.py:249 | Removing the dashes of a concatenation concatenates the two results, so the kept characters stay in order |
| Text.RemoveCharCounts | outlook_client.py:249 | Every character other than the dash is kept exactly as often as it occurs; no dash is left |
| Text.RemoveCharAbsent | outlook_client.py:249 | A text with no dash is unchanged |
| Text.NatToStringRoundTrip | style_extractor.py:94 | Reading the decimal digits of `str(i)` back gives `i` |
| Text.NatToStringNoLeadingZero | style_extractor.py:94 | `str(i)` starts with `0` only for zero |
| Text.IntToString | response_generator.py:71-74 | `str(n)` of an integer is not empty and starts with a minus sign exactly when `n` is negative |
| Text.IntToStringRoundTrip | response_generator.py:71-74 | Reading `str(n)` back, sign and digits, gives `n` |
| Text.JoinContainsParts | style_extractor.py:95 | Every part of `"\n".join(parts)` occurs in the joined text |
| Text.Take | outlook_client.py:248-249 | A slice `[:n]` is a prefix of at most `n` characters, the whole text when it is shorter |
| Text.Repeat | outlook_client.py:263 | `'=' * 50` is fifty `=` characters |
| StyleExtractor.BaseNameIsLastComponent | style_extractor.py:81 | `os.path.basename` is the path's final part: a suffix with no separator, preceded by a separator when it is not the whole path |
| StyleExtractor.LoadSamples | style_extractor.py:69-87 | The loop collects exactly the samples of the five patterns' scans, pattern by pattern and file by file, in scan order |
| StyleExtractor.SampleOfExactly | style_extractor.py:76-83 | A scanned file gives a sample exactly when it was readable and its stripped text is not empty; the sample is its base name and that stripped text |
| StyleExtractor.SamplesOfExactly | style_extractor.py:75-83 | A sample comes from one scan exactly when it comes from one of the files that scan lists |
| StyleExtractor.SamplesForExactly | style_extractor.py:72-75 | A sample is loaded exactly when it comes from the scan of one of the patterns |
| StyleExtractor.LoadedSamplesExactly | style_extractor.py:69-87 | The loaded samples are exactly the readable, non-blank files under the five patterns; each content is not empty and already stripped |
| StyleExtractor.SampleParts | style_extractor.py:92-94 | There is one corpus part per sample |
| StyleExtractor.BuildSamplesText | style_extractor.py:90-95 | The loop numbers the samples from 1 in input order and joins their parts with newlines |
| StyleExtractor.CorpusHoldsEverySample | style_extractor.py:93-95 | Every sample's numbered part, file name and content appear in the corpus block |
| StyleExtractor.CorpusAppend | style_extractor.py:92-95 | One more sample extends the block by a newline and its part numbered one past the rest |
| StyleExtractor.CleanResponse | style_extractor.py:139-145 | Cleaning fails, with the index error, exactly when the stripped answer opens with a fence and has no newline; a cleaned answer is stripped |
| StyleExtractor.CleanFencedBlock | style_extractor.py:139-145 | A fenced block with any info tag gives back its stripped payload |
| StyleExtractor.CleanUnfenced | style_extractor.py:139-145 | An answer with no fence at either end is only stripped |
| StyleExtractor.Degraded | style_extractor.py:153 | The degraded profile has exactly the keys `raw_analysis` and `parse_error`, holding the cleaned answer and the decoder's message |
| StyleExtractor.ParseOrDegrade | style_extractor.py:147-153 | A parsed answer is the profile; a malformed one gives the degraded profile rather than an error |
| StyleExtractor.FencedAnalyzesAsPlain | style_extractor.py:139-153 | A fenced answer yields the same profile as its bare payload, when the payload has no fence of its own at either end once stripped (a JSON payload never has) |
| StyleExtractor.LoadStyleProfile | style_extractor.py:163-171 | Decodes the profile file at the given or configured path; a missing file is a not-found error naming that path and a file that is not valid JSON gives the decoder's error |
| StyleExtractor.ExtractStyle | style_extractor.py:98-160 | Checks the key first and the empty batch second, before any prompt is sent; sends exactly one prompt, built from the corpus block; saves only a successful profile, encoded as `json.dump` writes it, which loads back unchanged whenever the codec decodes its own encoding of that profile |
| ResponseGenerator.SystemInstruction | response_generator.py:71-74 | The styling instruction opens with the template's opening and holds the serialised profile and the formality |
| ResponseGenerator.Formality | response_generator.py:67 | The stored `formality_level` as it is, or 5 when absent; a profile that is not an object fails with an error naming its type |
| ResponseGenerator.Display | response_generator.py:71-74 | A number is written in decimal and a string as is when inserted into the template |
| ResponseGenerator.UserPrompt | response_generator.py:77-87 | The task prompt holds the sender and subject lines and the delimited body; with no instructions it is the base prompt exactly, otherwise the base prompt plus one line carrying them verbatim |
| ResponseGenerator.ReplyRequest | response_generator.py:67-87 | A request exists exactly for an object profile; it carries the whole serialised profile and its formality, unclamped (5 when absent), and the task prompt |
| ResponseGenerator.ResolveProfile | response_generator.py:64-65 | Uses the profile given, and otherwise loads the one saved at the configured path |
| ResponseGenerator.GenerateReply | response_generator.py:60-102 | Without a key it fails whatever else holds; a reply is stripped |
| ResponseGenerator.GenerateReplySendsRequest | response_generator.py:63-102 | With a key, a profile or request failure is passed on; otherwise the result is the backend's answer to the composed request, stripped, or its failure |
| ResponseGenerator.ParseChoiceExactly | response_generator.py:147-158 | ParseChoice, the `strip().upper()` comparison: a line is A, R, E or S exactly when its stripped text is that letter in either case (the long s also reads as S) |
| ResponseGenerator.Respond | response_generator.py:147-158 | Only A accepts, and it accepts the draft just shown; only S skips; E takes the next line, stripped, as the new instructions; anything else drafts again with the instructions unchanged; running out of lines is an end-of-input error |
| ResponseGenerator.GenerateReplyInteractive | response_generator.py:105-158 | The loop's result equals the state-machine review started from the first line's stripped instructions |
| ResponseGenerator.RunEndsOnlyByChoice | response_generator.py:131-158 | A review returns a reply only after some A line, and None only after some S line |
| ResponseGenerator.AcceptedDraftOrigin | response_generator.py:131-154 | The accepted reply is a draft generated with the current instructions or with a stripped line that followed an E |
| ResponseGenerator.AcceptedWithoutEdit | response_generator.py:129-151 | Without any E line, the accepted reply was drafted with the instructions first given |
| ResponseGenerator.InteractiveNeverAutoAccepts | response_generator.py:115-158 | The whole session returns a reply only after an A line and None only after an S line (never on the instructions line), and a returned reply is stripped |
| OutlookClient.CanonicalAddress | outlook_client.py:213 | The normalised address (`lower()` then `strip()`) has no capital letter and no whitespace at either end |
| OutlookClient.CanonicalAddressIdempotent | outlook_client.py:213-237 | Normalising a normalised address changes nothing, so the target compares the same whichever form it is given in |
| OutlookClient.SubjectOf | outlook_client.py:239 | A missing subject reads as `no_subject`; a present one is kept |
| OutlookClient.SafeSubject | outlook_client.py:248 | The subject part of the name has at most 60 characters, no forbidden character and no space at either end |
| OutlookClient.SafeTime | outlook_client.py:249 | The date part has at most 10 characters and no dash, all taken from the received time |
| OutlookClient.SafeTimeIsDate | outlook_client.py:249 | A received time that starts `YYYY-MM-DD` gives exactly `YYYYMMDD` |
| OutlookClient.FileName | outlook_client.py:248-250 | The file name starts with `from_`, ends with `.txt` and has at most 80 characters |
| OutlookClient.Content | outlook_client.py:259-265 | The file opens with the From/Subject/Received header and a 50-`=` rule and a blank line, and ends with the body and a newline |
| OutlookClient.EntryOf | outlook_client.py:226-265 | A message gives a file exactly when its resolved sender matches the target after lower-casing and trimming and its trimmed body has at least 20 characters |
| OutlookClient.ClassifyMessage | outlook_client.py:224-265 | Making the source's checks in order gives the message's entry, the one EntryOf describes |
| OutlookClient.Visit | outlook_client.py:253-274 | A message that gives a file is counted as skipped exactly when its name exists, and is exported and written exactly when the name is new and writable; otherwise nothing changes |
| OutlookClient.ExportEmailsFromSender | outlook_client.py:179-280 | The scan loop writes to the given or configured directory, and its files and counters are those of the export specification over the inbox in order |
| OutlookClient.ExportCounters | outlook_client.py:209-270 | At most `max_count` files are exported; the scan stops early only once `max_count` is reached; each scanned message adds at most one to exported or skipped |
| OutlookClient.ExportStopsAtLimit | outlook_client.py:215-217 | The scan stops as soon as `max_count` files are exported: once a prefix of the inbox brings the count to the limit, the later messages change nothing |
| OutlookClient.ExportKeepsFiles | outlook_client.py:253-256 | Files already present are never overwritten or removed |
| OutlookClient.ExportFileCount | outlook_client.py:267-270 | The directory grows by exactly the number of files exported |
| OutlookClient.ExportProvenance | outlook_client.py:253-270 | Every new file is the entry of one scanned message, under that entry's name |
| OutlookClient.ExportedFilesComeFromSender | outlook_client.py:236-268 | Every new file comes from a message from the target sender with a long enough body, and holds that message's text |
| OutlookClient.ExportCovers | outlook_client.py:215-270 | After a complete scan, every message that gives a file with a writable name has that file |
| OutlookClient.ExportOverCovered | outlook_client.py:253-256 | When every such file already exists, the export writes nothing |
| OutlookClient.RerunExportsNothing | outlook_client.py:253-256 | A second export over the same inbox, after a first one that scanned every message, exports nothing and changes no file |

## Left out

- The Gemini service is a parameter, `backend`, returning an answer or a failure. The model name, the temperature and the output-token limits are not modelled.
- `ANALYSIS_PROMPT.format` is a parameter, `format`, that may fail. The literal prompt contains JSON braces that `str.format` reads as fields, and its outcome is not claimed either way.
- The reply template (`REPLY_SYSTEM_PROMPT`) has its literal text abstracted. It is an opening, a rules part and a closing around the profile and formality slots.
- `json.dumps`, `json.loads` and `str()` of a container are the codec parameter. Floats, indentation and `ensure_ascii` are not modelled.
- The file scanner (`glob` with `**`) is a parameter listing the entries for a directory and pattern. The operating system's matching rules, such as case and hidden files, are not modelled, and neither are the text encodings.
- An unreadable sample file is an entry with no contents. The warning printed for it is not modelled.
- StyleExtractor.ExtractStyle: the profile file is written as the codec's encoding of the profile, and that write always succeeds. A failing write, the file's text encoding and `json.dump`'s difference from `json.dumps` are not modelled.
- StyleExtractor.LoadStyleProfile: a file that exists but cannot be opened or read is not modelled; only a missing file and a file that is not valid JSON are.
- `os.makedirs`, `os.path.join` and `os.path.abspath` are not modelled. Common.Message names the samples directory as given, not its absolute path.
- JSON objects are maps, so the order in which `json.dumps` writes their keys (insertion order, e.g. `raw_analysis` before `parse_error` in the degraded profile) is not modelled; it is inside the codec parameter.
- Json.TypeName covers the types a decoded JSON value can have; a float profile is not modelled.
- A failing file write in the export is the `writable` parameter. A partially written file is not modelled.
- Outlook automation is not modelled: the COM objects, the inbox folder and its sort, the Exchange address lookup, the unread and recent listings, draft creation and folder listing. The inbox is a sequence of messages, newest first. Each message carries its sender address, or `Unreadable` when no address can be read; such a message is skipped, as the source's outer handler does.
- A failure reading a message's subject, body or time is not modelled. Only an unreadable sender is.
- OutlookClient.CanonicalAddress: `lower()` is modelled for ASCII letters only. Other characters are compared unchanged.
- The output directory's file names are compared exactly. A case-insensitive filesystem is not modelled.
- OutlookClient.RerunExportsNothing: holds only when the first export scanned every message. A first export that stopped at `max_count` leaves later messages for the second run.
- Progress and warning prints and the body preview shown before the review are not modelled. The interactive prompts' input is a sequence of lines, and its end is the end-of-input error.
- `app_gui.py` and `main.py` are not part of this model.

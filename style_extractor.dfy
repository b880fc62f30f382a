/**
 * The style-profile pipeline: load writing samples, assemble the corpus
 * block, send it for analysis, clean and parse the answer (or degrade it),
 * and keep the profile in the profile store.
 */
module StyleExtractor {
  import opened Text
  import opened Common
  import opened Json

  /** A file found by the recursive scan; `contents` is None when reading it failed. */
  datatype FileEntry = FileEntry(path: string, contents: Option<string>)

  /** One writing sample: the file's base name and its stripped, non-empty text. */
  datatype Sample = Sample(filename: string, content: string)

  /** The glob patterns scanned, in this order. */
  const Patterns: seq<string> := ["*.txt", "*.eml", "*.msg", "*.md", "*.html"]

  /** The recursive scan `glob(join(directory, "**", pattern))`, in the order it lists files. */
  type Scanner = (string, string) -> seq<FileEntry>

  /** The profile files on disk, by path, as the text `json.dump` wrote. */
  type Store = map<string, string>

  predicate IsSeparator(c: char) {
    c == '/' || c == '\\'
  }

  /** `os.path.basename`: the part of the path after its last separator. */
  function BaseName(path: string): string
  {
    if path == [] then []
    else if IsSeparator(path[|path| - 1]) then []
    else BaseName(path[..|path| - 1]) + [path[|path| - 1]]
  }

  /**
   * The base name is what follows the path's last separator: a suffix of the
   * path with no separator in it, preceded by a separator when shorter.
   */
  lemma {:induction false} BaseNameIsLastComponent(path: string)
    ensures EndsWith(path, BaseName(path))
    ensures forall c :: c in BaseName(path) ==> !IsSeparator(c)
    ensures |BaseName(path)| < |path| ==> IsSeparator(path[|path| - |BaseName(path)| - 1])
  {
    if path != [] && !IsSeparator(path[|path| - 1]) {
      var init, last := path[..|path| - 1], path[|path| - 1];
      BaseNameIsLastComponent(init);
      var b := BaseName(init);
      assert BaseName(path) == b + [last];
      assert path[|path| - |b| - 1..] == init[|init| - |b|..] + [last];
      if |b| < |init| {
        assert path[|path| - |b| - 2] == init[|init| - |b| - 1];
      }
    }
  }

  /** What one scanned file contributes: nothing if unreadable or blank, else one sample. */
  function SampleOf(entry: FileEntry): seq<Sample>
  {
    match entry.contents
    case None => []
    case Some(text) =>
      var content := Strip(text);
      if content == "" then [] else [Sample(BaseName(entry.path), content)]
  }

  /** The samples from a list of scanned files, in scan order. */
  function SamplesOf(entries: seq<FileEntry>): seq<Sample>
  {
    if entries == [] then []
    else SamplesOf(entries[..|entries| - 1]) + SampleOf(entries[|entries| - 1])
  }

  /** The samples from the scans of `patterns`, pattern by pattern. */
  function SamplesFor(directory: string, scan: Scanner, patterns: seq<string>): seq<Sample>
  {
    if patterns == [] then []
    else SamplesFor(directory, scan, patterns[..|patterns| - 1]) + SamplesOf(scan(directory, patterns[|patterns| - 1]))
  }

  /** Everything `load_samples` returns for a directory. */
  function LoadedSamples(directory: string, scan: Scanner): seq<Sample>
  {
    SamplesFor(directory, scan, Patterns)
  }

  /** `load_samples`: every pattern, every matching file, keeping the readable non-blank ones. */
  method LoadSamples(directory: string, scan: Scanner) returns (samples: seq<Sample>)
    ensures samples == LoadedSamples(directory, scan)
  {
    samples := [];
    for p := 0 to |Patterns|
      invariant samples == SamplesFor(directory, scan, Patterns[..p])
    {
      var files := scan(directory, Patterns[p]);
      ghost var before := samples;
      for j := 0 to |files|
        invariant samples == before + SamplesOf(files[..j])
      {
        SamplesOfSnoc(before, files, j);
        var entry := files[j];
        if entry.contents.Some? {
          var content := Strip(entry.contents.value);
          if content != "" {
            samples := samples + [Sample(BaseName(entry.path), content)];
          }
        }
      }
      assert files[..|files|] == files;
      SamplesForSnoc(directory, scan, p);
    }
    assert Patterns[..|Patterns|] == Patterns;
  }

  lemma SamplesOfSnoc(before: seq<Sample>, files: seq<FileEntry>, j: nat)
    requires j < |files|
    ensures before + SamplesOf(files[..j + 1]) == before + SamplesOf(files[..j]) + SampleOf(files[j])
  {
    assert files[..j + 1][..j] == files[..j];
  }

  lemma SamplesForSnoc(directory: string, scan: Scanner, p: nat)
    requires p < |Patterns|
    ensures SamplesFor(directory, scan, Patterns[..p + 1])
         == SamplesFor(directory, scan, Patterns[..p]) + SamplesOf(scan(directory, Patterns[p]))
  {
    assert Patterns[..p + 1][..p] == Patterns[..p];
  }

  /** A sample comes from a scanned file exactly when that file was readable and not blank. */
  ghost predicate FromEntry(s: Sample, e: FileEntry) {
    e.contents.Some? && s.content == Strip(e.contents.value) && s.content != "" && s.filename == BaseName(e.path)
  }

  lemma SampleOfExactly(e: FileEntry, s: Sample)
    ensures s in SampleOf(e) <==> FromEntry(s, e)
  {
  }

  lemma {:induction false} SamplesOfExactly(entries: seq<FileEntry>, s: Sample)
    ensures s in SamplesOf(entries) <==> exists e :: e in entries && s in SampleOf(e)
  {
    if entries != [] {
      var init, last := entries[..|entries| - 1], entries[|entries| - 1];
      SamplesOfExactly(init, s);
      assert entries == init + [last];
      if s in SamplesOf(entries) {
        if s !in SampleOf(last) {
          var e :| e in init && s in SampleOf(e);
          assert e in entries;
        }
      }
      if e :| e in entries && s in SampleOf(e) {
        if e != last {
          assert e in init;
        }
      }
    }
  }

  lemma {:induction false} SamplesForExactly(directory: string, scan: Scanner, patterns: seq<string>, s: Sample)
    ensures s in SamplesFor(directory, scan, patterns) <==>
      exists p :: p in patterns && s in SamplesOf(scan(directory, p))
  {
    if patterns != [] {
      var init, last := patterns[..|patterns| - 1], patterns[|patterns| - 1];
      SamplesForExactly(directory, scan, init, s);
      assert forall p :: p in patterns <==> p in init || p == last by {
        assert patterns == init + [last];
      }
    }
  }

  /**
   * The samples loaded are exactly the readable files, under any of the five
   * patterns, whose stripped text is not empty: each sample's content is that
   * stripped text and its file name the file's base name. A blank file
   * contributes nothing.
   */
  lemma LoadedSamplesExactly(directory: string, scan: Scanner, s: Sample)
    ensures s in LoadedSamples(directory, scan) <==>
      exists p, e :: p in Patterns && e in scan(directory, p) && FromEntry(s, e)
    ensures s in LoadedSamples(directory, scan) ==> s.content != "" && Strip(s.content) == s.content
  {
    SamplesForExactly(directory, scan, Patterns, s);
    if s in LoadedSamples(directory, scan) {
      var p :| p in Patterns && s in SamplesOf(scan(directory, p));
      SamplesOfExactly(scan(directory, p), s);
      var e :| e in scan(directory, p) && s in SampleOf(e);
      SampleOfExactly(e, s);
      StripIdempotent(e.contents.value);
    }
    if p, e :| p in Patterns && e in scan(directory, p) && FromEntry(s, e) {
      SampleOfExactly(e, s);
      SamplesOfExactly(scan(directory, p), s);
    }
  }

  /** The header and body of the `i`-th sample (counting from 1) in the corpus block. */
  function SamplePart(i: nat, s: Sample): string
  {
    "\n=== SAMPLE " + NatToString(i) + ": " + s.filename + " ===\n" + s.content + "\n"
  }

  /** The parts of the corpus block, numbered from 1 in input order. */
  function SampleParts(samples: seq<Sample>): (parts: seq<string>)
    ensures |parts| == |samples|
  {
    seq(|samples|, i requires 0 <= i < |samples| => SamplePart(i + 1, samples[i]))
  }

  /** `build_samples_text`: one numbered part per sample, joined by newlines. */
  method BuildSamplesText(samples: seq<Sample>) returns (text: string)
    ensures text == Join(SampleParts(samples), "\n")
  {
    var parts: seq<string> := [];
    for i := 0 to |samples|
      invariant parts == SampleParts(samples[..i])
    {
      assert samples[..i + 1][..i] == samples[..i];
      parts := parts + [SamplePart(i + 1, samples[i])];
    }
    assert samples[..|samples|] == samples;
    text := Join(parts, "\n");
  }

  /**
   * The corpus block holds each sample's part, so every sample's file name and
   * content reach the analysis prompt.
   */
  lemma CorpusHoldsEverySample(samples: seq<Sample>, i: nat)
    requires i < |samples|
    ensures Occurs(SamplePart(i + 1, samples[i]), Join(SampleParts(samples), "\n"))
    ensures Occurs(samples[i].content, Join(SampleParts(samples), "\n"))
    ensures Occurs(samples[i].filename, Join(SampleParts(samples), "\n"))
  {
    var s := samples[i];
    var block := Join(SampleParts(samples), "\n");
    var part := SamplePart(i + 1, s);
    JoinContainsParts(SampleParts(samples), "\n", i);
    assert SampleParts(samples)[i] == part;
    var lead := "\n=== SAMPLE " + NatToString(i + 1) + ": ";
    var head := lead + s.filename + " ===\n";
    OccursBetween(head, s.content, "\n");
    OccursBetween(lead, s.filename, " ===\n");
    OccursExtend(s.filename, head, s.content);
    OccursExtend(s.filename, head + s.content, "\n");
    OccursTrans(s.content, part, block);
    OccursTrans(s.filename, part, block);
  }

  /** The corpus block grows by a newline and the next numbered part. */
  lemma CorpusAppend(samples: seq<Sample>, s: Sample)
    requires samples != []
    ensures Join(SampleParts(samples + [s]), "\n") == Join(SampleParts(samples), "\n") + "\n" + SamplePart(|samples| + 1, s)
  {
    assert SampleParts(samples + [s])[..|samples|] == SampleParts(samples);
  }

  const Fence := "```"

  /**
   * The backend's answer made ready for parsing: stripped, then a leading
   * fence line dropped, then a trailing fence dropped, then stripped again.
   * A leading fence with no newline after it fails as Python's indexing does.
   */
  function CleanResponse(text: string): (r: Result<string>)
    ensures r.Err? <==> StartsWith(Strip(text), Fence) && '\n' !in Strip(text)
    ensures r.Err? ==> r.error == FenceWithoutNewline
    ensures r.Ok? ==> Strip(r.value) == r.value
  {
    var raw := Strip(text);
    var afterHead := if StartsWith(raw, Fence) then AfterFirst(raw, '\n') else Some(raw);
    match afterHead
    case None => Err(FenceWithoutNewline)
    case Some(body) =>
      var cut := if EndsWith(body, Fence) then BeforeLast(body, Fence) else body;
      StripIdempotent(cut);
      Ok(Strip(cut))
  }

  /** An answer wrapped in a fenced block with any info tag gives back the stripped payload. */
  lemma {:induction false} CleanFencedBlock(tag: string, payload: string)
    requires '\n' !in tag
    ensures CleanResponse(Fence + tag + "\n" + payload + "\n" + Fence) == Ok(Strip(payload))
  {
    var text := Fence + tag + "\n" + payload + "\n" + Fence;
    StripTrimmed(text);
    assert StartsWith(text, Fence);
    assert text == (Fence + tag) + ['\n'] + (payload + "\n" + Fence);
    AfterFirstAt(Fence + tag, '\n', payload + "\n" + Fence);
    var body := payload + "\n" + Fence;
    assert EndsWith(body, Fence);
    BeforeLastSuffix(body, Fence);
    assert body[..|body| - 3] == payload + ['\n'];
    StripAppendSpace(payload, '\n');
  }

  /** An answer with no fence at either end is only stripped. */
  lemma CleanUnfenced(text: string)
    requires !StartsWith(Strip(text), Fence) && !EndsWith(Strip(text), Fence)
    ensures CleanResponse(text) == Ok(Strip(text))
  {
    StripIdempotent(text);
  }

  /** The degraded profile: the cleaned answer and the decoder's message, and nothing else. */
  function Degraded(raw: string, message: string): (p: Value)
    ensures p.Obj? && p.fields.Keys == {"raw_analysis", "parse_error"}
    ensures p.fields["raw_analysis"] == Str(raw) && p.fields["parse_error"] == Str(message)
  {
    Obj(map["raw_analysis" := Str(raw), "parse_error" := Str(message)])
  }

  /** Parse the cleaned answer; a decode failure yields the degraded profile instead of an error. */
  function ParseOrDegrade(raw: string, codec: Codec): (p: Value)
    ensures codec.decode(raw).Parsed? ==> p == codec.decode(raw).value
    ensures codec.decode(raw).Malformed? ==> p == Degraded(raw, codec.decode(raw).message)
  {
    match codec.decode(raw)
    case Parsed(v) => v
    case Malformed(message) => Degraded(raw, message)
  }

  /** The profile made from the backend's answer, or the error cleaning it raised. */
  function Analyze(text: string, codec: Codec): Result<Value>
  {
    match CleanResponse(text)
    case Err(e) => Err(e)
    case Ok(raw) => Ok(ParseOrDegrade(raw, codec))
  }

  /** A fenced answer yields the same profile as its bare payload, when the payload has no fence of its own at either end. */
  lemma FencedAnalyzesAsPlain(tag: string, payload: string, codec: Codec)
    requires '\n' !in tag
    requires !StartsWith(Strip(payload), Fence) && !EndsWith(Strip(payload), Fence)
    ensures Analyze(Fence + tag + "\n" + payload + "\n" + Fence, codec) == Analyze(payload, codec)
  {
    CleanFencedBlock(tag, payload);
    CleanUnfenced(payload);
  }

  /**
   * `load_style_profile`: the stored file at the given or configured path,
   * decoded; a not-found error naming the path when there is no file, and
   * the decoder's error when the file is not valid JSON.
   */
  function LoadStyleProfile(cfg: Config, store: Store, path: string, codec: Codec): (r: Result<Value>)
    ensures var location := OrDefault(path, cfg.profilePath);
      location !in store ==> r == Err(NoProfile(location))
    ensures var location := OrDefault(path, cfg.profilePath);
      location in store && codec.decode(store[location]).Parsed? ==> r == Ok(codec.decode(store[location]).value)
    ensures var location := OrDefault(path, cfg.profilePath);
      location in store && codec.decode(store[location]).Malformed? ==>
        r == Err(BadProfile(location, codec.decode(store[location]).message))
  {
    var location := OrDefault(path, cfg.profilePath);
    if location !in store then Err(NoProfile(location))
    else
      match codec.decode(store[location])
      case Parsed(v) => Ok(v)
      case Malformed(message) => Err(BadProfile(location, message))
  }

  /**
   * `extract_style`. The credential is checked first and the empty batch
   * second, both before any prompt is sent; `sent` lists the prompts given to
   * the backend. `format` is the interpolation of the samples into the
   * analysis prompt and `backend` the analysis call. A profile, parsed or
   * degraded, is written, encoded, to the output path and returned; when the
   * codec reads that text back as the same value, loading it gives it back.
   */
  method ExtractStyle(cfg: Config, samplesDir: string, outputPath: string, scan: Scanner,
                      format: string -> Result<string>, backend: string -> Result<string>,
                      codec: Codec, store: Store)
    returns (outcome: Result<Value>, sent: seq<string>, saved: Store)
    ensures cfg.geminiApiKey == "" ==> outcome == Err(MissingApiKey) && sent == [] && saved == store
    ensures var dir := OrDefault(samplesDir, cfg.samplesDir);
      cfg.geminiApiKey != "" && LoadedSamples(dir, scan) == [] ==>
        outcome == Err(NoSamples(dir)) && sent == [] && saved == store
    ensures var samples := LoadedSamples(OrDefault(samplesDir, cfg.samplesDir), scan);
      cfg.geminiApiKey != "" && samples != [] ==>
        match format(Join(SampleParts(samples), "\n"))
        case Err(e) => outcome == Err(e) && sent == [] && saved == store
        case Ok(prompt) =>
          sent == [prompt] &&
          outcome == (match backend(prompt) case Err(e) => Err(e) case Ok(text) => Analyze(text, codec))
    ensures outcome.Err? ==> saved == store
    ensures outcome.Ok? ==> saved == store[OrDefault(outputPath, cfg.profilePath) := codec.encode(outcome.value)]
    ensures outcome.Ok? && codec.decode(codec.encode(outcome.value)) == Parsed(outcome.value) ==>
      LoadStyleProfile(cfg, saved, outputPath, codec) == outcome
  {
    var dir := OrDefault(samplesDir, cfg.samplesDir);
    var output := OrDefault(outputPath, cfg.profilePath);
    sent, saved := [], store;
    if cfg.geminiApiKey == "" {
      return Err(MissingApiKey), sent, saved;
    }
    var samples := LoadSamples(dir, scan);
    if samples == [] {
      return Err(NoSamples(dir)), sent, saved;
    }
    var samplesText := BuildSamplesText(samples);
    var prompt := format(samplesText);
    if prompt.Err? {
      return Err(prompt.error), sent, saved;
    }
    sent := [prompt.value];
    var response := backend(prompt.value);
    if response.Err? {
      return Err(response.error), sent, saved;
    }
    outcome := Analyze(response.value, codec);
    if outcome.Ok? {
      saved := store[output := codec.encode(outcome.value)];
    }
  }
}

/**
 * Exporting the mail received from one sender into text files that serve as
 * writing samples: the messages of the inbox, newest first, are filtered by
 * sender and length, and each one becomes a file whose name is built from
 * its date and sanitised subject, unless a file of that name already exists.
 */
module OutlookClient {
  import opened Text
  import opened Common

  /** The sender address as it resolves, or a message whose sender cannot be read at all. */
  datatype Sender = Address(address: string) | Unreadable

  /**
   * One inbox message: the resolved sender address, the display name, the
   * subject and body (an absent one is the empty string) and the received
   * time as Python's `str()` writes it.
   */
  datatype MailItem = MailItem(sender: Sender, senderName: string, subject: string, body: string,
                               receivedTime: string)

  /** The output directory (file name to contents) and the three counters. */
  datatype Tally = Tally(files: map<string, string>, exported: nat, skippedExisting: nat, scanned: nat)

  /** The address compared against: lower-cased, then trimmed; no capital letter and no space at either end is left. */
  function CanonicalAddress(address: string): (r: string)
    ensures Strip(r) == r
    ensures forall c :: c in r ==> !('A' <= c <= 'Z')
  {
    var lowered := Lower(address);
    assert forall c :: c in lowered ==> !('A' <= c <= 'Z');
    StripIdempotent(lowered);
    StripKeeps(lowered);
    Strip(lowered)
  }

  /** Normalising a normalised address changes nothing: the target may be given in either form. */
  lemma CanonicalAddressIdempotent(address: string)
    ensures CanonicalAddress(CanonicalAddress(address)) == CanonicalAddress(address)
  {
    var r := CanonicalAddress(address);
    forall i | 0 <= i < |r| ensures Lower(r)[i] == r[i] {
      assert r[i] in r;
    }
    assert Lower(r) == r;
  }

  /** A message is from the target when its resolved address normalises to the normalised target. */
  predicate IsFrom(item: MailItem, target: string) {
    item.sender.Address? && CanonicalAddress(item.sender.address) == CanonicalAddress(target)
  }

  /** A body long enough to be a sample: at least 20 characters once trimmed. */
  predicate LongEnough(body: string) {
    |Strip(body)| >= 20
  }

  /** A message that becomes a file unless one of its name is already there. */
  predicate Eligible(item: MailItem, target: string) {
    IsFrom(item, target) && LongEnough(item.body)
  }

  /** The subject as used for the file name and header: a missing one reads as `no_subject`. */
  function SubjectOf(item: MailItem): (r: string)
    ensures r != []
    ensures item.subject != "" ==> r == item.subject
    ensures item.subject == "" ==> r == "no_subject"
  {
    OrDefault(item.subject, "no_subject")
  }

  /** The characters the subject may not carry into a file name. */
  const Forbidden: set<char> := {'<', '>', ':', '"', '/', '\\', '|', '?', '*'}

  /**
   * The subject with every forbidden character turned into `_`, cut to its
   * first 60 characters and trimmed: short, free of forbidden characters,
   * and with no space left at either end.
   */
  function SafeSubject(subject: string): (r: string)
    ensures |r| <= 60
    ensures forall c :: c in r ==> c !in Forbidden
    ensures Strip(r) == r
  {
    var replaced := ReplaceAll(subject, Forbidden, '_');
    var cut := Take(replaced, 60);
    assert forall c :: c in cut ==> c in replaced;
    StripKeeps(cut);
    StripIdempotent(cut);
    Strip(cut)
  }

  /** The first ten characters of the received time (the date) without its dashes. */
  function SafeTime(receivedTime: string): (r: string)
    ensures |r| <= 10
    ensures '-' !in r
    ensures forall c :: c in r ==> c in receivedTime
  {
    var date := Take(receivedTime, 10);
    assert forall c :: c in date ==> c in receivedTime;
    RemoveChar(date, '-')
  }

  /** A received time that starts `YYYY-MM-DD` gives its eight date digits `YYYYMMDD`. */
  lemma SafeTimeIsDate(receivedTime: string)
    requires |receivedTime| >= 10 && receivedTime[4] == '-' && receivedTime[7] == '-'
    requires forall k :: 0 <= k < 10 && k != 4 && k != 7 ==> receivedTime[k] != '-'
    ensures SafeTime(receivedTime) == receivedTime[..4] + receivedTime[5..7] + receivedTime[8..10]
  {
    var t := receivedTime;
    var year, month, day := t[..4], t[5..7], t[8..10];
    assert Take(t, 10) == year + (['-'] + (month + (['-'] + day)));
    assert '-' !in year by { forall i | 0 <= i < 4 ensures year[i] != '-' { assert year[i] == t[i]; } }
    assert '-' !in month by { forall i | 0 <= i < 2 ensures month[i] != '-' { assert month[i] == t[5 + i]; } }
    assert '-' !in day by { forall i | 0 <= i < 2 ensures day[i] != '-' { assert day[i] == t[8 + i]; } }
    RemoveCharTwice(year, month, day, '-');
    assert year + (month + day) == year + month + day;
  }

  /** The name of the file a message is written to. */
  function FileName(subject: string, receivedTime: string): (r: string)
    ensures StartsWith(r, "from_") && EndsWith(r, ".txt")
    ensures |r| <= 80
  {
    var date, title := SafeTime(receivedTime), SafeSubject(subject);
    assert |date| <= 10 && |title| <= 60;
    ConcatEnds("from_", date);
    StartsWithExtend("from_" + date, "from_", "_");
    StartsWithExtend("from_" + date + "_", "from_", title);
    StartsWithExtend("from_" + date + "_" + title, "from_", ".txt");
    ConcatEnds("from_" + date + "_" + title, ".txt");
    "from_" + date + "_" + title + ".txt"
  }

  /** Fifty `=` signs: the rule between the header and the body. */
  const Rule: string := Repeat('=', 50)

  /** The header lines of an exported message. */
  function Header(senderName: string, address: string, subject: string, receivedTime: string): string {
    "From: " + senderName + " <" + address + ">\nSubject: " + subject + "\nReceived: " + receivedTime + "\n"
  }

  /**
   * The text of an exported message: the sender, subject and received-time
   * header, a rule of 50 `=`, a blank line, then the body and a newline.
   */
  function Content(senderName: string, address: string, subject: string, receivedTime: string,
                   body: string): (r: string)
    ensures StartsWith(r, "From: ")
    ensures StartsWith(r, Header(senderName, address, subject, receivedTime) + Rule + "\n\n")
    ensures EndsWith(r, body + "\n")
    ensures Occurs(Header(senderName, address, subject, receivedTime), r)
    ensures |r| == |Header(senderName, address, subject, receivedTime)| + 52 + |body| + 1
  {
    var head := Header(senderName, address, subject, receivedTime) + Rule + "\n\n";
    var r := head + (body + "\n");
    assert r[..|head|] == head;
    assert r[|r| - |body + "\n"|..] == body + "\n";
    assert head[..6] == "From: ";
    assert r[..6] == head[..6];
    assert Header(senderName, address, subject, receivedTime) <= r[0..];
    r
  }

  /** What a scanned message amounts to: nothing, or a file to write under a name. */
  datatype Entry = Ignored | Candidate(name: string, content: string)

  /**
   * The file a message becomes: only an eligible message gives one, named
   * after its date and subject and holding its header and body.
   */
  function EntryOf(item: MailItem, target: string): (e: Entry)
    ensures e.Candidate? <==> Eligible(item, target)
    ensures e.Candidate? ==> StartsWith(e.name, "from_") && EndsWith(e.name, ".txt") && |e.name| <= 80
    ensures e.Candidate? ==> StartsWith(e.content, "From: ") && EndsWith(e.content, item.body + "\n")
  {
    if Eligible(item, target) then
      Candidate(FileName(SubjectOf(item), item.receivedTime),
                Content(item.senderName, item.sender.address, SubjectOf(item), item.receivedTime, item.body))
    else Ignored
  }

  /** What each message of the inbox amounts to, for one target sender. */
  function Entries(items: seq<MailItem>, target: string): (r: seq<Entry>)
    ensures |r| == |items|
  {
    if items == [] then [] else [EntryOf(items[0], target)] + Entries(items[1..], target)
  }

  lemma {:induction false} EntriesAt(items: seq<MailItem>, target: string, i: nat)
    requires i < |items|
    ensures Entries(items, target)[i] == EntryOf(items[i], target)
  {
    if i > 0 {
      EntriesAt(items[1..], target, i - 1);
    }
  }

  /**
   * One scanned message (already counted in `scanned`): nothing happens
   * unless it gives a file; an existing file of that name is left alone and
   * counted as skipped; otherwise the file is written and counted, unless
   * the write fails.
   */
  function Visit(e: Entry, writable: string -> bool, t: Tally): (r: Tally)
    ensures r.scanned == t.scanned
    ensures r.exported == t.exported + 1 <==> e.Candidate? && e.name !in t.files && writable(e.name)
    ensures r.exported == t.exported + 1 ==> r.files == t.files[e.name := e.content]
    ensures r.exported != t.exported + 1 ==> r.exported == t.exported && r.files == t.files
    ensures r.skippedExisting == t.skippedExisting + 1 <==> e.Candidate? && e.name in t.files
    ensures r.skippedExisting != t.skippedExisting + 1 ==> r.skippedExisting == t.skippedExisting
  {
    match e
    case Ignored => t
    case Candidate(name, content) =>
      if name in t.files then t.(skippedExisting := t.skippedExisting + 1)
      else if !writable(name) then t
      else t.(files := t.files[name := content], exported := t.exported + 1)
  }

  /** The export from a tally over the remaining messages: stop once `maxCount` files were exported. */
  function Export(entries: seq<Entry>, maxCount: int, writable: string -> bool, t: Tally): Tally
  {
    if entries == [] || t.exported >= maxCount then t
    else Export(entries[1..], maxCount, writable, Visit(entries[0], writable, t.(scanned := t.scanned + 1)))
  }

  /**
   * The checks made on one message, in order: a sender that cannot be read,
   * another sender, or a short body gives nothing; otherwise the file name
   * and the formatted text.
   */
  method ClassifyMessage(items: seq<MailItem>, i: nat, senderEmail: string, senderLower: string)
    returns (entry: Entry)
    requires i < |items| && senderLower == CanonicalAddress(senderEmail)
    ensures entry == Entries(items, senderEmail)[i]
  {
    EntriesAt(items, senderEmail, i);
    var item := items[i];
    if item.sender.Unreadable? {
      return Ignored;
    }
    var itemSender := item.sender.address;
    if CanonicalAddress(itemSender) != senderLower {
      return Ignored;
    }
    var subject := SubjectOf(item);
    var body := item.body;
    var receivedTime := item.receivedTime;
    if |Strip(body)| < 20 {
      return Ignored;
    }
    var filename := FileName(subject, receivedTime);
    var content := Content(item.senderName, itemSender, subject, receivedTime, body);
    return Candidate(filename, content);
  }

  /** One message further into the export, while the limit is not reached. */
  lemma ExportStep(entries: seq<Entry>, i: nat, maxCount: int, writable: string -> bool, t: Tally)
    requires i < |entries| && t.exported < maxCount
    ensures Export(entries[i..], maxCount, writable, t)
         == Export(entries[i + 1..], maxCount, writable, Visit(entries[i], writable, t.(scanned := t.scanned + 1)))
  {
    assert entries[i..][0] == entries[i] && entries[i..][1..] == entries[i + 1..];
  }

  /**
   * `export_emails_from_sender` over the inbox messages, newest first, with
   * the output directory's files: it returns the number of files exported,
   * the directory written to and its new contents, and the counters of
   * already-present files and scanned messages.
   */
  method ExportEmailsFromSender(cfg: Config, senderEmail: string, outputDir: string, maxCount: int,
                                items: seq<MailItem>, existing: map<string, string>,
                                writable: string -> bool)
    returns (exported: nat, directory: string, files: map<string, string>, skippedExisting: nat,
             scanned: nat)
    ensures directory == OrDefault(outputDir, cfg.samplesDir)
    ensures Tally(files, exported, skippedExisting, scanned)
         == Export(Entries(items, senderEmail), maxCount, writable, Tally(existing, 0, 0, 0))
  {
    directory := OrDefault(outputDir, cfg.samplesDir);
    exported, skippedExisting, scanned := 0, 0, 0;
    files := existing;
    ghost var entries := Entries(items, senderEmail);
    var senderLower := CanonicalAddress(senderEmail);
    var i := 0;
    while i < |items|
      invariant 0 <= i <= |items|
      invariant Export(entries[i..], maxCount, writable, Tally(files, exported, skippedExisting, scanned))
             == Export(entries, maxCount, writable, Tally(existing, 0, 0, 0))
    {
      if exported >= maxCount {
        break;
      }
      var entry := ClassifyMessage(items, i, senderEmail, senderLower);
      ExportStep(entries, i, maxCount, writable, Tally(files, exported, skippedExisting, scanned));
      ghost var next := Visit(entry, writable, Tally(files, exported, skippedExisting, scanned + 1));
      i := i + 1;
      scanned := scanned + 1;
      if entry.Ignored? {
        assert next == Tally(files, exported, skippedExisting, scanned);
        continue;
      }
      if entry.name in files {
        skippedExisting := skippedExisting + 1;
        assert next == Tally(files, exported, skippedExisting, scanned);
        continue;
      }
      if !writable(entry.name) {
        assert next == Tally(files, exported, skippedExisting, scanned);
        continue;
      }
      files := files[entry.name := entry.content];
      exported := exported + 1;
      assert next == Tally(files, exported, skippedExisting, scanned);
    }
  }

  /**
   * The counters: exported never passes `maxCount` (unless it started past
   * it), the scan stops early only once `maxCount` files were exported, and
   * each scanned message adds at most one to exported or skipped.
   */
  lemma {:induction false} ExportCounters(entries: seq<Entry>, maxCount: int,
                                          writable: string -> bool, t: Tally)
    ensures var r := Export(entries, maxCount, writable, t);
      t.exported <= r.exported &&
      (t.exported <= maxCount ==> r.exported <= maxCount) &&
      t.scanned <= r.scanned <= t.scanned + |entries| &&
      (r.scanned < t.scanned + |entries| ==> r.exported >= maxCount) &&
      t.skippedExisting <= r.skippedExisting &&
      (r.exported - t.exported) + (r.skippedExisting - t.skippedExisting) <= r.scanned - t.scanned
    decreases |entries|
  {
    if entries != [] && t.exported < maxCount {
      var next := Visit(entries[0], writable, t.(scanned := t.scanned + 1));
      ExportCounters(entries[1..], maxCount, writable, next);
    }
  }

  /**
   * The scan stops as soon as `maxCount` files are exported: once the first
   * `n` messages bring the count to the limit, the rest are never looked at.
   */
  lemma {:induction false} ExportStopsAtLimit(entries: seq<Entry>, n: nat, maxCount: int,
                                              writable: string -> bool, t: Tally)
    requires n <= |entries|
    requires Export(entries[..n], maxCount, writable, t).exported >= maxCount
    ensures Export(entries, maxCount, writable, t) == Export(entries[..n], maxCount, writable, t)
    decreases n
  {
    if t.exported < maxCount {
      assert entries[..n] != [];
      var next := Visit(entries[0], writable, t.(scanned := t.scanned + 1));
      assert entries[..n][0] == entries[0];
      assert entries[..n][1..] == entries[1..][..n - 1];
      ExportStopsAtLimit(entries[1..], n - 1, maxCount, writable, next);
    }
  }

  /** Files already in the directory are never overwritten or removed. */
  lemma {:induction false} ExportKeepsFiles(entries: seq<Entry>, maxCount: int, writable: string -> bool, t: Tally)
    ensures var r := Export(entries, maxCount, writable, t);
      forall k :: k in t.files ==> k in r.files && r.files[k] == t.files[k]
    decreases |entries|
  {
    if entries != [] && t.exported < maxCount {
      var next := Visit(entries[0], writable, t.(scanned := t.scanned + 1));
      assert forall k :: k in t.files ==> k in next.files && next.files[k] == t.files[k];
      ExportKeepsFiles(entries[1..], maxCount, writable, next);
    }
  }

  /** The directory grows by exactly the number of files exported. */
  lemma {:induction false} ExportFileCount(entries: seq<Entry>, maxCount: int, writable: string -> bool, t: Tally)
    ensures var r := Export(entries, maxCount, writable, t);
      t.exported <= r.exported && |r.files| == |t.files| + (r.exported - t.exported)
    decreases |entries|
  {
    if entries != [] && t.exported < maxCount {
      var next := Visit(entries[0], writable, t.(scanned := t.scanned + 1));
      if next.exported == t.exported + 1 {
        assert |next.files| == |t.files| + 1;
      } else {
        assert next.files == t.files && next.exported == t.exported;
      }
      ExportFileCount(entries[1..], maxCount, writable, next);
    }
  }

  /** Every new file is the entry of one of the scanned messages, under that entry's name. */
  lemma {:induction false} ExportProvenance(entries: seq<Entry>, maxCount: int,
                                            writable: string -> bool, t: Tally)
    ensures var r := Export(entries, maxCount, writable, t);
      forall k :: k in r.files && k !in t.files ==>
        exists j :: 0 <= j < |entries| && entries[j] == Candidate(k, r.files[k])
    decreases |entries|
  {
    if entries != [] && t.exported < maxCount {
      var next := Visit(entries[0], writable, t.(scanned := t.scanned + 1));
      ExportProvenance(entries[1..], maxCount, writable, next);
      ExportKeepsFiles(entries[1..], maxCount, writable, next);
      var r := Export(entries, maxCount, writable, t);
      assert r == Export(entries[1..], maxCount, writable, next);
      forall k | k in r.files && k !in t.files
        ensures exists j :: 0 <= j < |entries| && entries[j] == Candidate(k, r.files[k])
      {
        if k in next.files {
          assert next.exported == t.exported + 1;
          assert entries[0] == Candidate(k, r.files[k]);
        } else {
          var j :| 0 <= j < |entries[1..]| && entries[1..][j] == Candidate(k, r.files[k]);
          assert entries[1..][j] == entries[j + 1];
        }
      }
    }
  }

  /**
   * For one sender: every new file comes from a message from that sender
   * with a long enough body, and holds that message's formatted text.
   */
  lemma ExportedFilesComeFromSender(items: seq<MailItem>, senderEmail: string, maxCount: int,
                                    writable: string -> bool, existing: map<string, string>)
    ensures var r := Export(Entries(items, senderEmail), maxCount, writable, Tally(existing, 0, 0, 0));
      forall k :: k in r.files && k !in existing ==>
        exists j :: 0 <= j < |items| && Eligible(items[j], senderEmail) &&
                    EntryOf(items[j], senderEmail) == Candidate(k, r.files[k])
  {
    var entries := Entries(items, senderEmail);
    var r := Export(entries, maxCount, writable, Tally(existing, 0, 0, 0));
    ExportProvenance(entries, maxCount, writable, Tally(existing, 0, 0, 0));
    forall k | k in r.files && k !in existing
      ensures exists j :: 0 <= j < |items| && Eligible(items[j], senderEmail) &&
                          EntryOf(items[j], senderEmail) == Candidate(k, r.files[k])
    {
      var j :| 0 <= j < |entries| && entries[j] == Candidate(k, r.files[k]);
      EntriesAt(items, senderEmail, j);
    }
  }

  /** Every entry that gives a file with a writable name has a file of that name. */
  ghost predicate Covered(entries: seq<Entry>, writable: string -> bool, files: map<string, string>) {
    forall j :: 0 <= j < |entries| && entries[j].Candidate? && writable(entries[j].name) ==>
      entries[j].name in files
  }

  /** After a scan of every message, each message that gives a file with a writable name has it. */
  lemma {:induction false} ExportCovers(entries: seq<Entry>, maxCount: int,
                                        writable: string -> bool, t: Tally)
    requires Export(entries, maxCount, writable, t).scanned == t.scanned + |entries|
    ensures Covered(entries, writable, Export(entries, maxCount, writable, t).files)
    decreases |entries|
  {
    if entries != [] {
      var next := Visit(entries[0], writable, t.(scanned := t.scanned + 1));
      var r := Export(entries, maxCount, writable, t);
      assert t.exported < maxCount;
      assert r == Export(entries[1..], maxCount, writable, next);
      ExportCovers(entries[1..], maxCount, writable, next);
      ExportKeepsFiles(entries[1..], maxCount, writable, next);
      forall j | 0 <= j < |entries| && entries[j].Candidate? && writable(entries[j].name)
        ensures entries[j].name in r.files
      {
        if j > 0 {
          assert entries[1..][j - 1] == entries[j];
        }
      }
    }
  }

  /** When every message that gives a file already has it, the export changes nothing. */
  lemma {:induction false} ExportOverCovered(entries: seq<Entry>, maxCount: int,
                                             writable: string -> bool, t: Tally)
    requires Covered(entries, writable, t.files)
    ensures Export(entries, maxCount, writable, t).files == t.files
    ensures Export(entries, maxCount, writable, t).exported == t.exported
    decreases |entries|
  {
    if entries != [] && t.exported < maxCount {
      var next := Visit(entries[0], writable, t.(scanned := t.scanned + 1));
      assert next.files == t.files && next.exported == t.exported;
      forall j | 0 <= j < |entries[1..]| && entries[1..][j].Candidate? && writable(entries[1..][j].name)
        ensures entries[1..][j].name in next.files
      {
        assert entries[1..][j] == entries[j + 1];
      }
      ExportOverCovered(entries[1..], maxCount, writable, next);
    }
  }

  /**
   * A second export over the same messages, after a first one that scanned
   * them all, exports nothing and leaves the directory as the first left it.
   */
  lemma RerunExportsNothing(entries: seq<Entry>, maxCount: int,
                            writable: string -> bool, existing: map<string, string>)
    requires Export(entries, maxCount, writable, Tally(existing, 0, 0, 0)).scanned == |entries|
    ensures var first := Export(entries, maxCount, writable, Tally(existing, 0, 0, 0));
      var second := Export(entries, maxCount, writable, Tally(first.files, 0, 0, 0));
      second.exported == 0 && second.files == first.files
  {
    var first := Export(entries, maxCount, writable, Tally(existing, 0, 0, 0));
    ExportCovers(entries, maxCount, writable, Tally(existing, 0, 0, 0));
    ExportOverCovered(entries, maxCount, writable, Tally(first.files, 0, 0, 0));
  }
}

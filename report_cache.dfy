/** `analyze_company` and its helpers: one markdown report per upper-cased
    ticker and date, kept in files named after both, so that a repeated
    request is answered from disk without starting a new chat. */
module ReportCache {
  import opened Wrappers
  import opened PyStr
  import opened ChatHistory

  /** What reading a file in Python's text mode (`open(name, "r")`, universal
      newlines) yields for the text on disk: each `"\r\n"` and each lone
      `"\r"` becomes `"\n"`. */
  function UniversalNewlines(s: string): (r: string)
    ensures |r| <= |s|
    ensures '\r' !in r
  {
    if s == [] then []
    else if s[0] == '\r' then
      if |s| > 1 && s[1] == '\n' then "\n" + UniversalNewlines(s[2..]) else "\n" + UniversalNewlines(s[1..])
    else [s[0]] + UniversalNewlines(s[1..])
  }

  /** Text without a carriage return reads back exactly as it was written. */
  lemma {:induction false} UniversalNewlinesKeepsPlainText(s: string)
    requires '\r' !in s
    ensures UniversalNewlines(s) == s
  {
    if s != [] {
      assert '\r' !in s[1..] by {
        assert forall c :: c in s[1..] ==> c in s;
      }
      UniversalNewlinesKeepsPlainText(s[1..]);
    }
  }

  /** Text without a carriage return in front of more text reads back
      unchanged, and the rest is read on its own. */
  lemma {:induction false} UniversalNewlinesPlainPrefix(p: string, q: string)
    requires '\r' !in p
    ensures UniversalNewlines(p + q) == p + UniversalNewlines(q)
  {
    if p != [] {
      assert (p + q)[1..] == p[1..] + q;
      assert '\r' !in p[1..] by {
        assert forall c :: c in p[1..] ==> c in p;
      }
      UniversalNewlinesPlainPrefix(p[1..], q);
      assert (p + q)[0] == p[0] && p[0] in p;
      assert UniversalNewlines(p + q) == [p[0]] + UniversalNewlines(p[1..] + q);
      assert [p[0]] + (p[1..] + UniversalNewlines(q)) == p + UniversalNewlines(q);
    } else {
      assert p + q == q;
    }
  }

  /** Reading back what a text-mode read returned changes nothing more. */
  lemma UniversalNewlinesIdempotent(s: string)
    ensures UniversalNewlines(UniversalNewlines(s)) == UniversalNewlines(s)
  {
    UniversalNewlinesKeepsPlainText(UniversalNewlines(s));
  }

  /** The working directory: file name to file text as written to disk. */
  class FileStore {
    var files: map<string, string>

    constructor (initial: map<string, string>)
      ensures files == initial
    {
      files := initial;
    }

    /** `os.path.exists(name)` */
    method Exists(name: string) returns (b: bool)
      ensures b <==> name in files
    {
      b := name in files;
    }

    /** `read_response_from_md`: the whole text of an existing file, read in
        text mode (Python raises on a missing one; both callers test
        existence first). */
    method Read(name: string) returns (content: string)
      requires name in files
      ensures content == UniversalNewlines(files[name])
    {
      content := UniversalNewlines(files[name]);
    }

    /** `save_to_md`: opens the file in write mode, so any old text is
        replaced; the text written is `content` followed by a newline. */
    method SaveToMd(content: string, name: string)
      modifies this
      ensures files == old(files)[name := content + "\n"]
    {
      files := files[name := content + "\n"];
    }
  }

  /** The user proxy and market analyst pair. Their dialogue runs in a
      library outside this model, so the transcript it yields is fixed up
      front; `chatsStarted` counts the dialogues begun. */
  class ChatAgents {
    const transcript: seq<Entry>
    ghost var chatsStarted: nat

    constructor (transcript: seq<Entry>)
      ensures this.transcript == transcript && chatsStarted == 0
    {
      this.transcript := transcript;
      chatsStarted := 0;
    }

    /** `user_proxy.initiate_chat(analyst, ...)`, read back as its history. */
    method InitiateChat() returns (history: seq<Entry>)
      modifies this
      ensures history == transcript && chatsStarted == old(chatsStarted) + 1
    {
      history := transcript;
      chatsStarted := chatsStarted + 1;
    }
  }

  /** `f"result_{company}_{today_date}.md"`: the ticker sits right after the
      seven-character prefix and the name ends in `.md`. */
  function ReportKey(ticker: string, date: string): (k: string)
    ensures |k| == |ticker| + |date| + 11
    ensures k[7..7 + |ticker|] == ticker && k[|k| - |date| - 3..|k| - 3] == date
    ensures EndsWith(k, ".md")
  {
    "result_" + ticker + "_" + date + ".md"
  }

  /** For dates of one length (the `%Y-%m-%d` form always has ten
      characters), two report file names agree exactly when ticker and date
      both agree. */
  lemma ReportKeyInjective(t1: string, d1: string, t2: string, d2: string)
    requires |d1| == |d2|
    ensures ReportKey(t1, d1) == ReportKey(t2, d2) <==> t1 == t2 && d1 == d2
  {
    var k1, k2 := ReportKey(t1, d1), ReportKey(t2, d2);
    if k1 == k2 {
      assert |t1| == |t2|;
      assert t1 == k1[7..7 + |t1|] == k2[7..7 + |t2|] == t2;
      assert d1 == k1[8 + |t1|..8 + |t1| + |d1|] == k2[8 + |t2|..8 + |t2| + |d2|] == d2;
    }
  }

  /** What a call of `initiate_chat_and_save_response` hands back: the text
      of an existing report file, or the transcript of a fresh chat. */
  datatype ChatReturn = Stored(text: string) | Transcript(history: seq<Entry>)

  /** `initiate_chat_and_save_response`: returns the stored report when the
      file exists; otherwise starts the chat and returns its transcript. */
  method InitiateChatAndSaveResponse(store: FileStore, agents: ChatAgents, company: string, date: string)
    returns (r: ChatReturn)
    modifies agents
    ensures var key := ReportKey(company, date);
      if key in store.files then r == Stored(UniversalNewlines(store.files[key])) && agents.chatsStarted == old(agents.chatsStarted)
      else r == Transcript(agents.transcript) && agents.chatsStarted == old(agents.chatsStarted) + 1
  {
    var key := ReportKey(company, date);
    var found := store.Exists(key);
    if found {
      var text := store.Read(key);
      return Stored(text);
    }
    var history := agents.InitiateChat();
    r := Transcript(history);
  }

  /** The answer shown to the user: nothing for an empty ticker, the report
      text, or the exception raised while filtering the transcript. */
  datatype Reply = NoReply | Report(text: string) | Raised(error: FilterError)

  /** One request's reply, whether it started a chat, and the files after it. */
  datatype Outcome = Outcome(reply: Reply, chatStarted: bool, files: map<string, string>)

  /** `analyze_company` as a function of the files before the call. An empty
      ticker gets no reply and does nothing. The only file a request may touch
      is the report of the upper-cased ticker and the date, and only when it
      starts a chat whose transcript filters without raising. */
  function Analyze(files: map<string, string>, company: string, date: string, transcript: seq<Entry>): (o: Outcome)
    ensures company == "" ==> o == Outcome(NoReply, false, files)
    ensures o.reply.NoReply? <==> company == ""
    ensures !o.chatStarted ==> o.files == files
    ensures o.reply.Raised? ==> o.chatStarted && o.files == files
    ensures forall k :: k != ReportKey(Upper(company), date) ==> (k in o.files <==> k in files)
    ensures forall k :: k in files && k != ReportKey(Upper(company), date) ==> o.files[k] == files[k]
  {
    if company == "" then Outcome(NoReply, false, files)
    else
      var key := ReportKey(Upper(company), date);
      if key in files then Outcome(Report(UniversalNewlines(files[key])), false, files)
      else
        match FilterUserContent(transcript)
        case Ok(text) => Outcome(Report(text), true, files[key := text + "\n"])
        case Err(e) => Outcome(Raised(e), true, files)
  }

  /** `analyze_company`: upper-cases the ticker, answers from the report file
      when it exists, and otherwise runs the chat, filters its transcript and
      saves the filtered text. */
  method AnalyzeCompany(store: FileStore, agents: ChatAgents, company: string, date: string)
    returns (reply: Reply)
    modifies store, agents
    ensures var o := Analyze(old(store.files), company, date, agents.transcript);
      reply == o.reply && store.files == o.files
      && agents.chatsStarted == old(agents.chatsStarted) + (if o.chatStarted then 1 else 0)
  {
    if company == "" {
      return NoReply;
    }
    var ticker := Upper(company);
    var key := ReportKey(ticker, date);
    var found := store.Exists(key);
    if found {
      var text := store.Read(key);
      return Report(text);
    }
    var content := InitiateChatAndSaveResponse(store, agents, ticker, date);
    // The file was missing a moment ago and nothing wrote it since, so the
    // inner existence test did not fire and `content` is a transcript.
    match FilterUserContent(content.history) {
      case Err(e) =>
        reply := Raised(e);
      case Ok(filtered) =>
        store.SaveToMd(filtered, key);
        reply := Report(filtered);
    }
  }

  /** A request for a ticker whose report file exists answers with the file's
      text unchanged, starts no chat and writes nothing. */
  lemma AnalyzeHit(files: map<string, string>, company: string, date: string, transcript: seq<Entry>)
    requires company != "" && ReportKey(Upper(company), date) in files
    ensures Analyze(files, company, date, transcript)
      == Outcome(Report(UniversalNewlines(files[ReportKey(Upper(company), date)])), false, files)
  {
  }

  /** On a miss whose transcript filters to `text`, the reply is `text` and
      the report file now holds `text` and a newline. */
  lemma AnalyzeMiss(files: map<string, string>, company: string, date: string, transcript: seq<Entry>)
    requires company != "" && ReportKey(Upper(company), date) !in files
    requires FilterUserContent(transcript).Ok?
    ensures var text := FilterUserContent(transcript).value;
      Analyze(files, company, date, transcript)
        == Outcome(Report(text), true, files[ReportKey(Upper(company), date) := text + "\n"])
  {
  }

  /** Tickers that differ only in the case of their letters are one request. */
  lemma AnalyzeIgnoresCase(files: map<string, string>, c1: string, c2: string, date: string, transcript: seq<Entry>)
    requires |c1| == |c2| && forall i :: 0 <= i < |c1| ==> SameIgnoringCase(c1[i], c2[i])
    ensures Analyze(files, c1, date, transcript) == Analyze(files, c2, date, transcript)
  {
    UpperEqualIff(c1, c2);
  }

  /** Two requests in a row for one ticker (up to case) and one date: after a
      reply with a report, the second request starts no chat, changes no
      file, and answers with what a text-mode read of the saved report
      yields. When the first reply came from a fresh chat that is the first
      reply plus the newline saving appended, with carriage returns turned
      into newlines; for a reply without carriage returns it is exactly the
      first reply plus one newline. So at most one chat runs for the pair. A
      first request that raised saved nothing, and the second behaves as if
      it had been the first. */
  lemma AnalyzeTwice(files: map<string, string>, c1: string, c2: string, date: string, t1: seq<Entry>, t2: seq<Entry>)
    requires c1 != "" && Upper(c1) == Upper(c2)
    ensures var first := Analyze(files, c1, date, t1);
      var second := Analyze(first.files, c2, date, t2);
      (first.reply.Report? ==>
        !second.chatStarted && second.files == first.files
        && second.reply == Report(if first.chatStarted then UniversalNewlines(first.reply.text + "\n") else first.reply.text))
      && (first.reply.Report? && first.chatStarted && '\r' !in first.reply.text ==>
        second.reply == Report(first.reply.text + "\n"))
      && (first.reply.Raised? ==> second == Analyze(files, c2, date, t2))
  {
    assert |c2| == |Upper(c2)| == |Upper(c1)| == |c1|;
    var first := Analyze(files, c1, date, t1);
    if first.reply.Report? {
      if first.chatStarted {
        assert '\r' !in first.reply.text ==> '\r' !in first.reply.text + "\n";
        if '\r' !in first.reply.text {
          UniversalNewlinesKeepsPlainText(first.reply.text + "\n");
        }
      } else {
        UniversalNewlinesIdempotent(files[ReportKey(Upper(c1), date)]);
      }
    }
  }

  /** A report holding `"\r\n"` is not read back as it was saved: the second
      request for it answers with the carriage return gone. */
  lemma CarriageReturnNotKept()
    ensures UniversalNewlines("###A\r\nB" + "\n") == "###A\nB\n"
  {
    var tail := "B\n";
    assert UniversalNewlines(tail) == tail by {
      UniversalNewlinesKeepsPlainText(tail);
    }
    var rest := "\r\n" + tail;
    assert rest[2..] == tail;
    assert UniversalNewlines(rest) == "\n" + tail;
    assert "###A\r\nB" + "\n" == "###A" + rest;
    UniversalNewlinesPlainPrefix("###A", rest);
  }
}

/** The conversation log kept in the session state: `init_chat_history`,
    `add_to_history` and `get_history_text` of src/nlp_tasks.py. */
module ChatHistory {

  import opened Wrappers
  import opened Strings

  datatype Entry = Entry(role: string, content: string)

  /** `str.capitalize()`: first character upper case, the rest lower case. */
  function Capitalize(s: string): (r: string)
    ensures |r| == |s|
    ensures |s| > 0 ==> r[0] == UpperChar(s[0])
    ensures forall i :: 1 <= i < |s| ==> r[i] == LowerChar(s[i])
  {
    if s == [] then [] else [UpperChar(s[0])] + ToLower(s[1..])
  }

  /** One line of the transcript, as `"Role: content"`. */
  function Line(e: Entry): string
  {
    Capitalize(e.role) + ": " + e.content
  }

  function Lines(history: seq<Entry>): (r: seq<string>)
    ensures |r| == |history|
  {
    seq(|history|, i requires 0 <= i < |history| => Line(history[i]))
  }

  /** The transcript: one line per entry, joined by line feeds. */
  function RenderHistory(history: seq<Entry>): string
  {
    Join("\n", Lines(history))
  }

  /** The Streamlit session state, reduced to its chat history; `None` is a
      session in which the history was never created. */
  class SessionState {
    var chatHistory: Option<seq<Entry>>

    constructor()
      ensures chatHistory == None
    {
      chatHistory := None;
    }

    /** Creates an empty history unless one exists already. */
    method InitChatHistory()
      modifies this
      ensures old(chatHistory).None? ==> chatHistory == Some([])
      ensures old(chatHistory).Some? ==> chatHistory == old(chatHistory)
    {
      if chatHistory.None? {
        chatHistory := Some([]);
      }
    }

    /** Appends one entry; `ok` is false, and nothing changes, when there is
        no history to append to (the source raises there). */
    method AddToHistory(role: string, message: string) returns (ok: bool)
      modifies this
      ensures ok <==> old(chatHistory).Some?
      ensures ok ==> chatHistory == Some(old(chatHistory).value + [Entry(role, message)])
      ensures !ok ==> chatHistory == old(chatHistory)
    {
      if chatHistory.Some? {
        chatHistory := Some(chatHistory.value + [Entry(role, message)]);
        ok := true;
      } else {
        ok := false;
      }
    }

    /** The transcript of the history, or `None` when there is none (the
        source raises there). */
    function GetHistoryText(): (text: Option<string>)
      reads this
      ensures text.Some? <==> chatHistory.Some?
      ensures text.Some? ==> (text.value == "" <==> chatHistory.value == [])
      ensures text.Some? && chatHistory.value != [] && SingleLineEntries(chatHistory.value) ==>
        SplitOn(text.value, '\n') == Lines(chatHistory.value)
    {
      match chatHistory
      case None => None
      case Some(history) =>
        RenderHistoryEmpty(history);
        if history != [] && SingleLineEntries(history) then
          HistoryLines(history);
          Some(RenderHistory(history))
        else
          Some(RenderHistory(history))
    }
  }

  // ---------------------------------------------------------------------
  // Properties of the transcript

  lemma CapitalizeIdempotent(s: string)
    ensures Capitalize(Capitalize(s)) == Capitalize(s)
  {
  }

  /** Only the empty history renders as the empty string: every line holds
      at least the `": "` separator. */
  lemma RenderHistoryEmpty(history: seq<Entry>)
    ensures RenderHistory(history) == "" <==> history == []
  {
  }

  /** Adding an entry appends one line to the transcript and leaves the
      earlier lines as they were. */
  lemma RenderAppend(history: seq<Entry>, e: Entry)
    ensures RenderHistory(history + [e])
      == if history == [] then Line(e) else RenderHistory(history) + "\n" + Line(e)
  {
    assert Lines(history + [e]) == Lines(history) + [Line(e)];
    JoinSnoc("\n", Lines(history), Line(e));
  }

  lemma {:induction false} JoinSnoc(sep: string, parts: seq<string>, x: string)
    ensures Join(sep, parts + [x]) == if parts == [] then x else Join(sep, parts) + sep + x
    decreases |parts|
  {
    if |parts| == 1 {
      assert (parts + [x])[1..] == [x];
    } else if |parts| > 1 {
      assert (parts + [x])[1..] == parts[1..] + [x];
      JoinSnoc(sep, parts[1..], x);
    }
  }

  /** No role and no content spans more than one line. */
  predicate SingleLineEntries(history: seq<Entry>)
  {
    forall i :: 0 <= i < |history| ==> '\n' !in history[i].role && '\n' !in history[i].content
  }

  /** When no entry spans several lines, splitting the transcript at line
      feeds gives back one line per entry, in order. */
  lemma HistoryLines(history: seq<Entry>)
    requires history != [] && SingleLineEntries(history)
    ensures SplitOn(RenderHistory(history), '\n') == Lines(history)
  {
    forall i | 0 <= i < |history|
      ensures '\n' !in Lines(history)[i]
    {
      var e := history[i];
      assert Line(e) == Capitalize(e.role) + ": " + e.content;
    }
    SplitOnJoin(Lines(history), '\n');
  }

  lemma CapitalizeUser()
    ensures Capitalize("user") == "User"
  {
  }

  lemma CapitalizeAssistant()
    ensures Capitalize("assistant") == "Assistant"
  {
  }

  lemma ExampleTranscript()
    ensures RenderHistory([Entry("user", "Hello"), Entry("assistant", "Hi there!")])
      == "User: Hello\nAssistant: Hi there!"
  {
    var history := [Entry("user", "Hello"), Entry("assistant", "Hi there!")];
    var first := Line(history[0]);
    var second := Line(history[1]);
    CapitalizeUser();
    CapitalizeAssistant();
    assert first == "User: Hello";
    assert second == "Assistant: Hi there!";
    assert Lines(history) == [first, second];
    assert Join("\n", [first, second]) == first + "\n" + second;
  }

  /** The session of test/test_nlp_tasks.py. */
  method HistoryExample() returns (text: Option<string>)
    ensures text == Some("User: Hello\nAssistant: Hi there!")
  {
    var session := new SessionState();
    session.InitChatHistory();
    assert session.chatHistory == Some([]);
    var _ := session.AddToHistory("user", "Hello");
    assert [] + [Entry("user", "Hello")] == [Entry("user", "Hello")];
    assert session.chatHistory == Some([Entry("user", "Hello")]);
    var _ := session.AddToHistory("assistant", "Hi there!");
    assert [Entry("user", "Hello")] + [Entry("assistant", "Hi there!")]
      == [Entry("user", "Hello"), Entry("assistant", "Hi there!")];
    assert session.chatHistory == Some([Entry("user", "Hello"), Entry("assistant", "Hi there!")]);
    text := session.GetHistoryText();
    ExampleTranscript();
  }
}

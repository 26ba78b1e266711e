/**
  The console chat loop of the math-function example. Each turn reads
  one user line, appends it to the chat history, streams the assistant's
  reply chunk by chunk to the console while accumulating it, and then
  appends the whole reply to the history. The loop ends when the read
  returns null (end of input).

  The chat completion service is a parameter: a function from the history
  sent to it to the finite sequence of chunks it streams back. The
  console is modelled by the sequence of input lines and by a transcript
  of the output events written.
 */
module Program {
  import opened Wrappers

  /** Semantic Kernel's AuthorRole. */
  datatype AuthorRole = System | User | Assistant | Tool

  /** One StreamingChatMessageContent: a nullable Role and a nullable Content. */
  datatype Chunk = Chunk(role: Option<AuthorRole>, content: Option<string>)

  /** One entry of the ChatHistory. */
  datatype Message = Message(role: AuthorRole, content: string)

  /** What the loop writes to the console, colours aside. */
  datatype Output =
    | UserPrompt       // "User > "
    | AssistantHeader  // "Assistant > "
    | Text(text: string)
    | EndLine          // WriteLine()

  /** What a chunk contributes to `Write` and to `+=`: a null Content
      contributes the empty string. */
  function ContentText(c: Chunk): string {
    if c.content.Some? then c.content.value else ""
  }

  /** The assistant's reply: every chunk's content, in arrival order. */
  function Reply(chunks: seq<Chunk>): string
    decreases |chunks|
  {
    if chunks == [] then ""
    else Reply(chunks[..|chunks| - 1]) + ContentText(chunks[|chunks| - 1])
  }

  /** Some chunk carries a role (HasRoleIff states it as an existential). */
  predicate HasRole(chunks: seq<Chunk>)
    decreases |chunks|
  {
    chunks != [] && (HasRole(chunks[..|chunks| - 1]) || chunks[|chunks| - 1].role.Some?)
  }

  /** The events written while one turn's stream is consumed: for each
      chunk its text, preceded by the header when it is the first chunk
      that carries a role. */
  function StreamOutput(chunks: seq<Chunk>): seq<Output>
    decreases |chunks|
  {
    if chunks == [] then []
    else
      var init, c := chunks[..|chunks| - 1], chunks[|chunks| - 1];
      StreamOutput(init)
        + (if c.role.Some? && !HasRole(init) then [AssistantHeader] else [])
        + [Text(ContentText(c))]
  }

  /** The text a transcript shows, headers and prompts aside. */
  function Texts(out: seq<Output>): string
    decreases |out|
  {
    if out == [] then ""
    else Texts(out[..|out| - 1]) + (if out[|out| - 1].Text? then out[|out| - 1].text else "")
  }

  /** How many times a transcript shows the assistant header. */
  function HeaderCount(out: seq<Output>): nat
    decreases |out|
  {
    if out == [] then 0
    else HeaderCount(out[..|out| - 1]) + (if out[|out| - 1] == AssistantHeader then 1 else 0)
  }

  /** The history entries that a session of user lines appends to the
      history h, when the service answers each request with its chunks. */
  function Conversation(h: seq<Message>, lines: seq<string>, service: seq<Message> -> seq<Chunk>): seq<Message>
    decreases |lines|
  {
    if lines == [] then []
    else
      var prev := Conversation(h, lines[..|lines| - 1], service);
      var user := Message(User, lines[|lines| - 1]);
      prev + [user, Message(Assistant, Reply(service(h + prev + [user])))]
  }

  /** The console events that the same session writes. */
  function ConversationOutput(h: seq<Message>, lines: seq<string>, service: seq<Message> -> seq<Chunk>): seq<Output>
    decreases |lines|
  {
    if lines == [] then []
    else
      var prev := Conversation(h, lines[..|lines| - 1], service);
      var user := Message(User, lines[|lines| - 1]);
      ConversationOutput(h, lines[..|lines| - 1], service)
        + StreamOutput(service(h + prev + [user])) + [EndLine, UserPrompt]
  }

  /** Console.ReadLine over the remaining input: the next line, or null
      once the input is exhausted. */
  function ReadLine(lines: seq<string>, i: nat): Option<string> {
    if i < |lines| then Some(lines[i]) else None
  }

  lemma {:induction false} TextsAppend(a: seq<Output>, b: seq<Output>)
    ensures Texts(a + b) == Texts(a) + Texts(b)
    decreases |b|
  {
    if b != [] {
      assert (a + b)[..|a + b| - 1] == a + b[..|b| - 1];
      TextsAppend(a, b[..|b| - 1]);
    } else {
      assert a + b == a;
    }
  }

  lemma {:induction false} HeaderCountAppend(a: seq<Output>, b: seq<Output>)
    ensures HeaderCount(a + b) == HeaderCount(a) + HeaderCount(b)
    decreases |b|
  {
    if b != [] {
      assert (a + b)[..|a + b| - 1] == a + b[..|b| - 1];
      HeaderCountAppend(a, b[..|b| - 1]);
    } else {
      assert a + b == a;
    }
  }

  /** The text written while a turn's stream is consumed is exactly the
      reply that is then appended to the history. */
  lemma {:induction false} StreamTextIsReply(chunks: seq<Chunk>)
    ensures Texts(StreamOutput(chunks)) == Reply(chunks)
    decreases |chunks|
  {
    if chunks != [] {
      var init, c := chunks[..|chunks| - 1], chunks[|chunks| - 1];
      var header: seq<Output> := if c.role.Some? && !HasRole(init) then [AssistantHeader] else [];
      StreamTextIsReply(init);
      TextsAppend(StreamOutput(init) + header, [Text(ContentText(c))]);
      TextsAppend(StreamOutput(init), header);
      assert Texts(header) == "" by {
        if header != [] {
          assert header[..0] == [];
        }
      }
      assert Texts([Text(ContentText(c))]) == ContentText(c) by {
        assert [Text(ContentText(c))][..0] == [];
      }
    }
  }

  /** HasRole holds exactly when some chunk carries a role. */
  lemma {:induction false} HasRoleIff(chunks: seq<Chunk>)
    ensures HasRole(chunks) <==> exists i :: 0 <= i < |chunks| && chunks[i].role.Some?
    decreases |chunks|
  {
    if chunks != [] {
      var init, c := chunks[..|chunks| - 1], chunks[|chunks| - 1];
      HasRoleIff(init);
      if HasRole(init) {
        var i :| 0 <= i < |init| && init[i].role.Some?;
        assert chunks[i] == init[i];
      } else if c.role.Some? {
        assert chunks[|chunks| - 1].role.Some?;
      } else {
        forall i | 0 <= i < |chunks|
          ensures chunks[i].role.None?
        {
          if i < |init| {
            assert chunks[i] == init[i];
          }
        }
      }
    }
  }

  /** A prefix one element longer is the shorter prefix and that element. */
  lemma TakeSnoc<T>(s: seq<T>, k: nat)
    requires k < |s|
    ensures s[..k + 1] == s[..k] + [s[k]]
  {
  }

  /** The stream functions, one chunk further. */
  lemma StreamSnoc(init: seq<Chunk>, c: Chunk)
    ensures Reply(init + [c]) == Reply(init) + ContentText(c)
    ensures HasRole(init + [c]) == (HasRole(init) || c.role.Some?)
    ensures StreamOutput(init + [c])
         == StreamOutput(init)
            + (if c.role.Some? && !HasRole(init) then [AssistantHeader] else [])
            + [Text(ContentText(c))]
  {
    assert (init + [c])[..|init|] == init;
  }

  /** A turn shows the assistant header once if some chunk carries a
      role, and never otherwise. */
  lemma {:induction false} HeaderAtMostOnce(chunks: seq<Chunk>)
    ensures HeaderCount(StreamOutput(chunks)) == if HasRole(chunks) then 1 else 0
    decreases |chunks|
  {
    if chunks != [] {
      var init, c := chunks[..|chunks| - 1], chunks[|chunks| - 1];
      var header: seq<Output> := if c.role.Some? && !HasRole(init) then [AssistantHeader] else [];
      HeaderAtMostOnce(init);
      HeaderCountAppend(StreamOutput(init) + header, [Text(ContentText(c))]);
      HeaderCountAppend(StreamOutput(init), header);
      assert HeaderCount([Text(ContentText(c))]) == 0 by {
        assert [Text(ContentText(c))][..0] == [];
      }
      assert HeaderCount(header) == |header| by {
        if header != [] {
          assert header[..0] == [];
        }
      }
    }
  }

  /** The events written for the first k chunks are the start of the
      events written for the whole stream. */
  lemma {:induction false} StreamPrefix(chunks: seq<Chunk>, k: nat)
    requires k <= |chunks|
    ensures StreamOutput(chunks[..k]) <= StreamOutput(chunks)
    decreases |chunks| - k
  {
    if k < |chunks| {
      StreamPrefix(chunks, k + 1);
      assert chunks[..k + 1][..k] == chunks[..k];
    } else {
      assert chunks[..k] == chunks;
    }
  }

  /** No chunk before position k carries a role. */
  lemma NoRoleBefore(chunks: seq<Chunk>, k: nat)
    requires k <= |chunks|
    requires forall j :: 0 <= j < k ==> chunks[j].role.None?
    ensures !HasRole(chunks[..k])
  {
    var init := chunks[..k];
    forall i | 0 <= i < |init|
      ensures init[i].role.None?
    {
      assert init[i] == chunks[i];
    }
    HasRoleIff(init);
  }

  /** The header is written just before the text of the first chunk that
      carries a role, and not earlier, in the turn's whole output. */
  lemma HeaderAtFirstRole(chunks: seq<Chunk>, k: nat)
    requires k < |chunks| && chunks[k].role.Some?
    requires forall j :: 0 <= j < k ==> chunks[j].role.None?
    ensures HeaderCount(StreamOutput(chunks[..k])) == 0
    ensures StreamOutput(chunks[..k + 1])
         == StreamOutput(chunks[..k]) + [AssistantHeader, Text(ContentText(chunks[k]))]
    ensures StreamOutput(chunks[..k]) + [AssistantHeader, Text(ContentText(chunks[k]))]
         <= StreamOutput(chunks)
  {
    var init, c := chunks[..k], chunks[k];
    var before := StreamOutput(init);
    NoRoleBefore(chunks, k);
    HeaderAtMostOnce(init);
    assert StreamOutput(chunks[..k + 1]) == before + [AssistantHeader, Text(ContentText(c))] by {
      TakeSnoc(chunks, k);
      StreamSnoc(init, c);
      assert before + [AssistantHeader] + [Text(ContentText(c))]
          == before + [AssistantHeader, Text(ContentText(c))];
    }
    StreamPrefix(chunks, k + 1);
  }

  /** The session functions, one line further. */
  lemma ConversationSnoc(h: seq<Message>, lines: seq<string>, line: string, service: seq<Message> -> seq<Chunk>)
    ensures var prev, user := Conversation(h, lines, service), Message(User, line);
      Conversation(h, lines + [line], service)
        == prev + [user, Message(Assistant, Reply(service(h + prev + [user])))] &&
      ConversationOutput(h, lines + [line], service)
        == ConversationOutput(h, lines, service)
           + StreamOutput(service(h + prev + [user])) + [EndLine, UserPrompt]
  {
    assert (lines + [line])[..|lines|] == lines;
  }

  /** One turn of the session extends the session functions by one line. */
  lemma RunStep(h0: seq<Message>, t0: seq<Output>, lines: seq<string>, i: nat, service: seq<Message> -> seq<Chunk>,
                h: seq<Message>, h': seq<Message>, t: seq<Output>, t': seq<Output>)
    requires i < |lines|
    requires h == h0 + Conversation(h0, lines[..i], service)
    requires t == t0 + ConversationOutput(h0, lines[..i], service)
    requires var user := Message(User, lines[i]);
      h' == h + [user, Message(Assistant, Reply(service(h + [user])))]
    requires t' == t + StreamOutput(service(h + [Message(User, lines[i])])) + [EndLine, UserPrompt]
    ensures h' == h0 + Conversation(h0, lines[..i + 1], service)
    ensures t' == t0 + ConversationOutput(h0, lines[..i + 1], service)
  {
    var prev, user := Conversation(h0, lines[..i], service), Message(User, lines[i]);
    var reply := service(h0 + prev + [user]);
    TakeSnoc(lines, i);
    assert h + [user] == h0 + prev + [user];
    assert h' == h0 + Conversation(h0, lines[..i + 1], service) by {
      ConversationSnoc(h0, lines[..i], lines[i], service);
      assert h' == h0 + (prev + [user, Message(Assistant, Reply(reply))]);
    }
    assert t' == t0 + ConversationOutput(h0, lines[..i + 1], service) by {
      ConversationSnoc(h0, lines[..i], lines[i], service);
      assert t' == t0 + (ConversationOutput(h0, lines[..i], service) + StreamOutput(reply) + [EndLine, UserPrompt]);
    }
  }

  /** A session of n lines appends 2n entries: for each line in order the
      user message holding exactly that line, then an assistant message
      holding the reply streamed for the history up to that line. */
  lemma {:induction false} ConversationShape(h: seq<Message>, lines: seq<string>, service: seq<Message> -> seq<Chunk>)
    ensures |Conversation(h, lines, service)| == 2 * |lines|
    ensures forall i :: 0 <= i < |lines| ==>
      var conv := Conversation(h, lines, service);
      conv[2 * i] == Message(User, lines[i]) &&
      conv[2 * i + 1] == Message(Assistant, Reply(service(h + conv[..2 * i + 1])))
    decreases |lines|
  {
    if lines != [] {
      var n := |lines| - 1;
      var init := lines[..n];
      ConversationShape(h, init, service);
      var prev := Conversation(h, init, service);
      var conv := Conversation(h, lines, service);
      assert conv == prev + [Message(User, lines[n]), Message(Assistant, Reply(service(h + prev + [Message(User, lines[n])])))];
      forall i | 0 <= i < |lines|
        ensures conv[2 * i] == Message(User, lines[i])
        ensures conv[2 * i + 1] == Message(Assistant, Reply(service(h + conv[..2 * i + 1])))
      {
        if i < n {
          assert init[i] == lines[i];
          assert conv[..2 * i + 1] == prev[..2 * i + 1];
          assert conv[2 * i + 1] == prev[2 * i + 1];
        } else {
          assert conv[..2 * i + 1] == prev + [Message(User, lines[n])];
          assert h + conv[..2 * i + 1] == h + prev + [Message(User, lines[n])];
        }
      }
    }
  }

  /** The state of Program.cs's top-level statements: the chat history
      and what has been written to the console. */
  class ChatSession {
    var history: seq<Message>
    var transcript: seq<Output>

    /** `ChatHistory history = [];` and the first "User > " prompt. */
    constructor ()
      ensures history == [] && transcript == [UserPrompt]
    {
      history := [];
      transcript := [UserPrompt];
    }

    /** One iteration of the loop body, for the line the read returned. */
    method Turn(userInput: string, service: seq<Message> -> seq<Chunk>)
      modifies this
      ensures var user := Message(User, userInput);
        history == old(history) + [user, Message(Assistant, Reply(service(old(history) + [user])))]
      ensures transcript == old(transcript)
        + StreamOutput(service(old(history) + [Message(User, userInput)])) + [EndLine, UserPrompt]
    {
      ghost var h0, t0 := history, transcript;
      history := history + [Message(User, userInput)];
      var result := service(history);

      var fullMessage := "";
      var first := true;
      for i := 0 to |result|
        invariant history == h0 + [Message(User, userInput)]
        invariant fullMessage == Reply(result[..i])
        invariant first <==> !HasRole(result[..i])
        invariant transcript == t0 + StreamOutput(result[..i])
      {
        var content := result[i];
        ghost var before := StreamOutput(result[..i]);
        ghost var header: seq<Output> := if content.role.Some? && first then [AssistantHeader] else [];
        TakeSnoc(result, i);
        StreamSnoc(result[..i], content);
        if content.role.Some? && first {
          transcript := transcript + [AssistantHeader];
          first := false;
        }
        assert transcript == t0 + before + header;
        transcript := transcript + [Text(ContentText(content))];
        fullMessage := fullMessage + ContentText(content);
        assert t0 + before + header + [Text(ContentText(content))]
            == t0 + (before + header + [Text(ContentText(content))]);
      }
      assert result[..|result|] == result;

      transcript := transcript + [EndLine];
      history := history + [Message(Assistant, fullMessage)];
      transcript := transcript + [UserPrompt];
    }

    /** The whole loop: turns run while the read returns a line; once it
        returns null the loop ends and nothing more is appended. */
    method Run(lines: seq<string>, service: seq<Message> -> seq<Chunk>)
      modifies this
      ensures history == old(history) + Conversation(old(history), lines, service)
      ensures transcript == old(transcript) + ConversationOutput(old(history), lines, service)
    {
      ghost var h0, t0 := history, transcript;
      var i := 0;
      var userInput := ReadLine(lines, i);
      while userInput.Some?
        invariant 0 <= i <= |lines|
        invariant userInput == ReadLine(lines, i)
        invariant history == h0 + Conversation(h0, lines[..i], service)
        invariant transcript == t0 + ConversationOutput(h0, lines[..i], service)
        decreases |lines| - i
      {
        ghost var h, t := history, transcript;
        Turn(userInput.value, service);
        RunStep(h0, t0, lines, i, service, h, history, t, transcript);
        i := i + 1;
        userInput := ReadLine(lines, i);
      }
      assert lines[..i] == lines;
    }
  }
}

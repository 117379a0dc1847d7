/** The older client, deprecated/script_test.js: a text-only `sendMessage` whose read loop handles
    `data: ` frames only, a ten-turn window, the raw reply text as the committed turn, a send
    button that aborts whenever an abort controller is set, and dictation that fills the input
    box with the trimmed transcripts. */
module Legacy {
  import opened Wrappers
  import opened Text
  import opened Turns
  import Framing
  import Stream
  import Dictation

  /** `MAX_CONTEXT_MESSAGES` */
  const MaxContextMessages: nat := 10

  /** The error thrown when no API URL has been loaded. */
  const NoApiUrl: string := "No API URL loaded from tenant settings."

  /** The prefix of the bubble rendered for an error other than an abort. */
  const ErrorPrefix: string := "Error: "

  /** A message bubble, by the text it shows. */
  datatype Bubble = Bubble(role: Role, shows: string)

  /** The body of this client's `for (const chunk of parts)`: only `data: ` frames count. */
  function HandleFrame(c: Stream.Codec, fullText: string, frame: string): string {
    if StartsWith(frame, Stream.DataTag) then
      match c.content(frame[|Stream.DataTag|..])
      case None => fullText
      case Some(delta) => fullText + delta
    else fullText
  }

  function Handler(c: Stream.Codec): (string, string) -> string {
    (fullText: string, frame: string) => HandleFrame(c, fullText, frame)
  }

  /** `fullText` after all of `text` has been read. */
  function Decoded(c: Stream.Codec, text: string): string {
    Framing.Decode(Handler(c), "", text).state
  }

  /** Dispatching frames appends the contents of the parsed `data: ` frames; every other frame,
      `sources: ` frames included, and every malformed frame adds nothing. */
  lemma {:induction false} DispatchMeaning(c: Stream.Codec, fullText: string, frames: seq<string>)
    ensures Framing.Dispatch(Handler(c), fullText, frames) == fullText + Stream.Contents(c, frames)
    decreases |frames|
  {
    if |frames| > 0 {
      DispatchMeaning(c, fullText, frames[..|frames| - 1]);
    }
  }

  /** A `sources: ` frame contributes nothing here. */
  lemma SourcesIgnored(c: Stream.Codec, fullText: string, payload: string)
    ensures HandleFrame(c, fullText, Stream.SourcesTag + payload) == fullText
  {
    var f := Stream.SourcesTag + payload;
    assert f[0] == 's';
  }

  /** The reply text is the contents of the terminated data frames, whatever the chunking, and it
      is the same text the current client builds from the same bytes. */
  lemma ReplyText(c: Stream.Codec, chunks: seq<string>)
    ensures Framing.FeedAll(Handler(c), Framing.Reader("", ""), chunks).state
         == Stream.Contents(c, Framing.Init(Framing.Split(Framing.Concat(chunks))))
    ensures Decoded(c, Framing.Concat(chunks)) == Stream.Decoded(c, Framing.Concat(chunks)).fullText
  {
    Framing.FeedAllDecodes(Handler(c), "", chunks);
    DispatchMeaning(c, "", Framing.Init(Framing.Split(Framing.Concat(chunks))));
    Stream.ReplyIndependentOfChunking(c, chunks);
  }

  /** The turn a send commits: the raw reply text, and only when the stream ended. */
  function Committed(c: Stream.Codec, reply: Reply): (turns: seq<Turn>)
    ensures |turns| == (if reply.ending.EndOfStream? then 1 else 0)
    ensures forall t :: t in turns ==> t == Turn(Assistant, Plain(Decoded(c, Framing.Concat(reply.chunks))))
  {
    if reply.ending.EndOfStream? then [Turn(Assistant, Plain(Decoded(c, Framing.Concat(reply.chunks))))] else []
  }

  /** The bubbles a send adds after the placeholder: the message of an error that is not an abort. */
  function Notices(reply: Reply): (bubbles: seq<Bubble>)
    ensures |bubbles| == (if reply.ending.Failed? then 1 else 0)
  {
    if reply.ending.Failed? then [Bubble(Assistant, ErrorPrefix + reply.ending.message)] else []
  }

  /** The concatenated transcripts of the visited results that are final (or not). */
  function Transcripts(results: seq<Dictation.SpeechResult>, final: bool): string
    decreases |results|
  {
    if |results| == 0 then ""
    else
      var last := results[|results| - 1];
      Transcripts(results[..|results| - 1], final) + (if last.isFinal == final then last.transcript else "")
  }

  /** The interim half is the current client's interim text. */
  lemma {:induction false} TranscriptsInterim(results: seq<Dictation.SpeechResult>)
    ensures Transcripts(results, false) == Dictation.Interim(results)
    decreases |results|
  {
    if |results| > 0 {
      TranscriptsInterim(results[..|results| - 1]);
    }
  }

  /** `(finalTrans + " " + interimTrans).trim()` */
  function Heard(results: seq<Dictation.SpeechResult>): (heard: string)
    ensures Trim(heard) == heard
  {
    TrimIdempotent(Transcripts(results, true) + " " + Transcripts(results, false));
    Trim(Transcripts(results, true) + " " + Transcripts(results, false))
  }

  /** The chat widget of the older client. */
  class Widget {
    const codec: Stream.Codec
    /** `window.CUSTOM_API_OPENAI_URL`; empty when none was loaded. */
    const apiUrl: string
    var input: string
    var context: seq<Turn>
    var transcript: seq<Bubble>
    /** Whether `abortController` is set. */
    var abortController: bool
    var listening: bool
    /** Whether the browser offers `SpeechRecognition`. */
    const speechApi: bool

    constructor (codec: Stream.Codec, apiUrl: string, speechApi: bool)
      ensures this.codec == codec && this.apiUrl == apiUrl && this.speechApi == speechApi
      ensures input == "" && context == [] && transcript == [] && !abortController && !listening
    {
      this.codec, this.apiUrl, this.speechApi := codec, apiUrl, speechApi;
      input, context, transcript := "", [], [];
      abortController, listening := false, false;
    }

    /** One read: `buffer += chunk`, split, keep the last segment, dispatch the rest. */
    static method FeedChunk(c: Stream.Codec, fullText: string, buffer: string, chunk: string)
      returns (fullText': string, buffer': string)
      ensures Framing.Reader(fullText', buffer') == Framing.Feed(Handler(c), Framing.Reader(fullText, buffer), chunk)
    {
      var parts := Framing.Split(buffer + chunk);
      buffer' := parts[|parts| - 1];
      fullText' := fullText;
      var i := 0;
      while i < |parts| - 1
        invariant 0 <= i <= |parts| - 1
        invariant fullText' == Framing.Dispatch(Handler(c), fullText, parts[..i])
      {
        var frame := parts[i];
        if StartsWith(frame, Stream.DataTag) {
          var parsed := c.content(frame[|Stream.DataTag|..]);
          if parsed.Some? {
            fullText' := fullText' + parsed.value;
          }
        }
        assert parts[..i + 1][..i] == parts[..i];
        i := i + 1;
      }
      assert parts[..i] == Framing.Init(parts);
    }

    /** The `while (true)` read loop over the reply's chunks. */
    method ReadReply(chunks: seq<string>) returns (fullText: string)
      ensures fullText == Decoded(codec, Framing.Concat(chunks))
    {
      fullText := "";
      var buffer := "";
      var i := 0;
      while i < |chunks|
        invariant 0 <= i <= |chunks|
        invariant Framing.Reader(fullText, buffer) == Framing.FeedAll(Handler(codec), Framing.Reader("", ""), chunks[..i])
      {
        assert chunks[..i + 1][..i] == chunks[..i];
        fullText, buffer := FeedChunk(codec, fullText, buffer, chunks[i]);
        i := i + 1;
      }
      assert chunks[..i] == chunks;
      Framing.FeedAllDecodes(Handler(codec), "", chunks);
    }

    /** The `try` block once the URL check has passed: the reply is read, then the completion
        commits the raw reply text, an abort commits and shows nothing, and any other error shows
        its message. An abort comes from a click on the send button, which clears the controller;
        since `setBusy` disables the button during a send, such a click can only reach a send that
        overlaps another one. */
    method Conclude(reply: Reply)
      modifies this
      ensures context == old(context) + Committed(codec, reply)
      ensures transcript == old(transcript) + Notices(reply)
      ensures abortController == !reply.ending.Aborted?
      ensures input == old(input) && listening == old(listening)
    {
      abortController := true;
      var fullText := ReadReply(reply.chunks);
      match reply.ending {
        case EndOfStream =>
          context := context + [Turn(Assistant, Plain(fullText))];
        case Aborted =>
          abortController := false;
        case Failed(message) =>
          transcript := transcript + [Bubble(Assistant, ErrorPrefix + message)];
      }
    }

    /** `sendMessage` once the trimmed input `text` is known not to be empty: the user turn is
        pushed and the controller set, then the URL check raises its error or the reply is read. */
    method Send(text: string, reply: Reply) returns (payload: Option<seq<Turn>>)
      modifies this
      ensures input == "" && listening == old(listening)
      ensures var user := Turn(User, Parts([InputText(text)]));
        var shown := old(transcript) + [Bubble(User, text), Bubble(Assistant, Stream.Placeholder)];
        && (apiUrl == "" ==>
              payload == None && abortController && context == old(context) + [user]
              && transcript == shown + [Bubble(Assistant, ErrorPrefix + NoApiUrl)])
        && (apiUrl != "" ==>
              payload == Some(LastTurns(old(context) + [user], MaxContextMessages))
              && abortController == !reply.ending.Aborted?
              && context == old(context) + [user] + Committed(codec, reply)
              && transcript == shown + Notices(reply))
    {
      input := "";
      transcript := transcript + [Bubble(User, text), Bubble(Assistant, Stream.Placeholder)];
      context := context + [Turn(User, Parts([InputText(text)]))];
      abortController := true;
      if apiUrl == "" {
        transcript := transcript + [Bubble(Assistant, ErrorPrefix + NoApiUrl)];
        return None;
      }
      payload := Some(LastTurns(context, MaxContextMessages));
      Conclude(reply);
    }

    /** `sendMessage`, with `reply` standing for the response. The window sent is returned; None
        when nothing was sent, or when no API URL is loaded (the error is raised after the user
        turn was pushed). */
    method SendMessage(reply: Reply) returns (payload: Option<seq<Turn>>)
      modifies this
      ensures listening == old(listening)
      ensures Trim(old(input)) == "" ==>
        payload == None && input == old(input) && context == old(context)
        && transcript == old(transcript) && abortController == old(abortController)
      ensures Trim(old(input)) != "" ==>
        var user := Turn(User, Parts([InputText(Trim(old(input)))]));
        var shown := old(transcript) + [Bubble(User, Trim(old(input))), Bubble(Assistant, Stream.Placeholder)];
        && input == ""
        && (apiUrl == "" ==>
              payload == None && abortController && context == old(context) + [user]
              && transcript == shown + [Bubble(Assistant, ErrorPrefix + NoApiUrl)])
        && (apiUrl != "" ==>
              payload == Some(LastTurns(old(context) + [user], MaxContextMessages))
              && abortController == !reply.ending.Aborted?
              && context == old(context) + [user] + Committed(codec, reply)
              && transcript == shown + Notices(reply))
    {
      var text := Trim(input);
      if text == "" {
        return None;
      }
      payload := Send(text, reply);
    }

    /** The send button: with a controller set, a click aborts and clears it and sends nothing;
        otherwise it sends. Since a send never clears the controller itself, the first click after a
        completed send only clears it. */
    method Click(reply: Reply) returns (payload: Option<seq<Turn>>)
      modifies this
      ensures old(abortController) ==>
        !abortController && payload == None && input == old(input) && context == old(context)
        && transcript == old(transcript) && listening == old(listening)
      ensures !old(abortController) ==> listening == old(listening)
      ensures !old(abortController) && Trim(old(input)) == "" ==>
        payload == None && input == old(input) && context == old(context)
        && transcript == old(transcript) && !abortController
      ensures !old(abortController) && Trim(old(input)) != "" ==>
        var user := Turn(User, Parts([InputText(Trim(old(input)))]));
        var shown := old(transcript) + [Bubble(User, Trim(old(input))), Bubble(Assistant, Stream.Placeholder)];
        && input == ""
        && (apiUrl == "" ==>
              payload == None && abortController && context == old(context) + [user]
              && transcript == shown + [Bubble(Assistant, ErrorPrefix + NoApiUrl)])
        && (apiUrl != "" ==>
              payload == Some(LastTurns(old(context) + [user], MaxContextMessages))
              && abortController == !reply.ending.Aborted?
              && context == old(context) + [user] + Committed(codec, reply)
              && transcript == shown + Notices(reply))
    {
      if abortController {
        abortController := false;
        payload := None;
      } else {
        payload := SendMessage(reply);
      }
    }

    /** The microphone button: stops dictation while listening, else starts it, clearing the input;
        without a speech API starting only alerts and changes nothing. */
    method MicClick()
      modifies this
      ensures listening == (!old(listening) && speechApi)
      ensures input == (if !old(listening) && speechApi then "" else old(input))
      ensures context == old(context) && transcript == old(transcript) && abortController == old(abortController)
    {
      if listening {
        listening := false;
      } else if !speechApi {
        return;
      } else {
        listening := true;
        input := "";
      }
    }

    /** The loop of `recognition.onresult`: the final and the interim transcripts, each
        concatenated in order. */
    static method Collect(visited: seq<Dictation.SpeechResult>) returns (finalTrans: string, interimTrans: string)
      ensures finalTrans == Transcripts(visited, true) && interimTrans == Transcripts(visited, false)
    {
      finalTrans, interimTrans := "", "";
      var i := 0;
      while i < |visited|
        invariant 0 <= i <= |visited|
        invariant finalTrans == Transcripts(visited[..i], true) && interimTrans == Transcripts(visited[..i], false)
      {
        assert visited[..i + 1][..i] == visited[..i];
        if visited[i].isFinal {
          finalTrans := finalTrans + visited[i].transcript;
        } else {
          interimTrans := interimTrans + visited[i].transcript;
        }
        i := i + 1;
      }
      assert visited[..i] == visited;
    }

    /** `recognition.onresult`: the visited results' transcripts are collected, final and interim
        apart, and the input box is overwritten only when the trimmed text is not empty. */
    method OnResult(results: seq<Dictation.SpeechResult>, resultIndex: nat)
      modifies this
      ensures Heard(Dictation.Visited(results, resultIndex)) != "" ==> input == Heard(Dictation.Visited(results, resultIndex))
      ensures Heard(Dictation.Visited(results, resultIndex)) == "" ==> input == old(input)
      ensures input != old(input) ==> input != "" && Trim(input) == input
      ensures context == old(context) && transcript == old(transcript)
      ensures abortController == old(abortController) && listening == old(listening)
    {
      var finalTrans, interimTrans := Collect(Dictation.Visited(results, resultIndex));
      var currentFull := Trim(finalTrans + " " + interimTrans);
      if currentFull != "" {
        input := currentFull;
      }
    }
  }
}

/** `sendMessage` of the current client (public/static/script.js): the guard, the user turn with
    its file parts, the context window sent, the streamed reply and how each way of ending commits
    (or does not commit) an assistant turn. */
module Chat {
  import opened Wrappers
  import opened Text
  import opened Turns
  import Framing
  import Stream
  import Citations
  import Attachments
  import UserHtml

  /** `MAX_CONTEXT_MESSAGES` */
  const MaxContextMessages: nat := 5

  /** The bubble rendered after a failed send. */
  const ErrorNotice: string := "\U{26A0}\U{FE0F} Sorry, er ging iets verkeerd."

  /** A message bubble: a user bubble holds the HTML made from the text, an assistant bubble the
      text it shows. */
  datatype Bubble = Bubble(role: Role, shows: string)

  /** `{ type: "input_file", file_url: f.openaiUrl }` for each pending file, in order. */
  function FileParts(pending: seq<Attachments.PendingFile>): (parts: seq<Part>)
    ensures |parts| == |pending|
    ensures forall k :: 0 <= k < |pending| ==> parts[k] == InputFile(pending[k].openaiUrl)
    decreases |pending|
  {
    if |pending| == 0 then []
    else FileParts(pending[..|pending| - 1]) + [InputFile(pending[|pending| - 1].openaiUrl)]
  }

  /** The user turn pushed onto the context: the text part, then one file part per pending file. */
  function UserTurn(text: string, pending: seq<Attachments.PendingFile>): Turn {
    Turn(User, Parts([InputText(text)] + FileParts(pending)))
  }

  /** The loop's variables after the whole reply has been read. */
  function Streamed(c: Stream.Codec, reply: Reply): Stream.Progress {
    Stream.Decoded(c, Framing.Concat(reply.chunks))
  }

  /** What the assistant bubble shows when the send is over: the text rendered once more from the
      whole reply when the stream ended, otherwise whatever it showed when reading stopped. */
  function FinalBubble(c: Stream.Codec, reply: Reply): string {
    if reply.ending.EndOfStream? then c.shown(Streamed(c, reply).fullText) else Streamed(c, reply).bubble
  }

  /** The turns a send pushes after the user turn: the bubble's text when the stream ended or was
      aborted, nothing when it failed. */
  function Committed(c: Stream.Codec, reply: Reply): (turns: seq<Turn>)
    ensures |turns| == (if reply.ending.Failed? then 0 else 1)
    ensures forall t :: t in turns ==> t == Turn(Assistant, Plain(FinalBubble(c, reply)))
  {
    if reply.ending.Failed? then [] else [Turn(Assistant, Plain(FinalBubble(c, reply)))]
  }

  /** The citation names a finished reply shows. */
  function CitedNames(c: Stream.Codec, reply: Reply): seq<string> {
    if reply.ending.EndOfStream? then Stream.ShownCitations(Streamed(c, reply).citations) else []
  }

  /** Nothing is sent for an empty (after trimming) input without attachments. */
  predicate NothingToSend(input: string, pending: seq<Attachments.PendingFile>) {
    Trim(input) == "" && |pending| == 0
  }

  /** An aborted send commits the bubble's text as reading left it: the rendering of the reply text
      so far if a data frame had parsed, and the `...` placeholder if none had. */
  lemma AbortCommitsBubble(c: Stream.Codec, chunks: seq<string>)
    ensures var frames := Framing.Init(Framing.Split(Framing.Concat(chunks)));
      Committed(c, Reply(chunks, Aborted))
      == [Turn(Assistant, Plain(if Stream.AnyRenders(c, frames) then c.shown(Stream.Contents(c, frames)) else Stream.Placeholder))]
  {
    var frames := Framing.Init(Framing.Split(Framing.Concat(chunks)));
    Stream.ReplyIndependentOfChunking(c, chunks);
    Framing.FeedAllDecodes(Stream.Handler(c), Stream.Start, chunks);
    Stream.DispatchMeaning(c, Stream.Start, frames);
  }

  /** A finished send commits the rendering of the contents of the terminated data frames, however
      the reply was chunked. */
  lemma FinishedCommitsContents(c: Stream.Codec, chunks: seq<string>)
    ensures Committed(c, Reply(chunks, EndOfStream))
         == [Turn(Assistant, Plain(c.shown(Stream.Contents(c, Framing.Init(Framing.Split(Framing.Concat(chunks)))))))]
  {
    Stream.ReplyIndependentOfChunking(c, chunks);
  }

  /** The chat widget: the input box, the context, the bubbles shown, the attachment tray and the
      citation chips. */
  class Widget {
    const codec: Stream.Codec
    var input: string
    var context: seq<Turn>
    var transcript: seq<Bubble>
    const tray: Attachments.Tray
    const chips: Citations.ChipList

    ghost predicate Valid()
      reads this, tray, chips
    {
      tray.Valid() && chips.Valid()
    }

    constructor (codec: Stream.Codec)
      ensures Valid() && this.codec == codec && fresh(tray) && fresh(chips)
      ensures input == "" && context == [] && transcript == [] && tray.pending == [] && chips.names == []
    {
      this.codec := codec;
      input, context, transcript := "", [], [];
      tray := new Attachments.Tray();
      chips := new Citations.ChipList();
    }

    /** `contentParts`: the text part, then `pendingFiles.forEach` pushes one file part each. */
    method ContentParts(text: string) returns (parts: seq<Part>)
      ensures parts == [InputText(text)] + FileParts(tray.pending)
    {
      parts := [InputText(text)];
      var i := 0;
      while i < |tray.pending|
        invariant 0 <= i <= |tray.pending|
        invariant parts == [InputText(text)] + FileParts(tray.pending[..i])
      {
        assert tray.pending[..i + 1][..i] == tray.pending[..i];
        parts := parts + [InputFile(tray.pending[i].openaiUrl)];
        i := i + 1;
      }
      assert tray.pending[..i] == tray.pending;
    }

    /** The read loop over the reply's chunks, in a fresh session. */
    method ReadReply(chunks: seq<string>) returns (session: Stream.StreamSession)
      ensures fresh(session) && session.codec == codec
      ensures Stream.Progress(session.fullText, session.citations, session.bubble) == Stream.Decoded(codec, Framing.Concat(chunks))
    {
      session := new Stream.StreamSession(codec);
      var i := 0;
      while i < |chunks|
        invariant 0 <= i <= |chunks|
        invariant fresh(session) && session.codec == codec
        invariant session.Valid() && session.received == Framing.Concat(chunks[..i])
      {
        assert chunks[..i + 1][..i] == chunks[..i];
        session.Feed(chunks[i]);
        i := i + 1;
      }
      assert chunks[..i] == chunks;
    }

    /** The rest of `sendMessage` once the request is made: the reply is read, then the `try`
        block's completion, the `AbortError` branch or the error branch commits. */
    method Conclude(reply: Reply, userBubble: Bubble)
      requires chips.Valid()
      modifies this, chips
      ensures chips.Valid()
      ensures context == old(context) + Committed(codec, reply)
      ensures transcript == old(transcript) + [userBubble, Bubble(Assistant, FinalBubble(codec, reply))]
                            + (if reply.ending.Failed? then [Bubble(Assistant, ErrorNotice)] else [])
      ensures chips.names == Citations.Recent(CitedNames(codec, reply))
                             + Citations.Except(old(chips.names), Citations.Elems(CitedNames(codec, reply)))
      ensures input == old(input)
    {
      var session := ReadReply(reply.chunks);
      var names: seq<string> := [];
      match reply.ending {
        case EndOfStream =>
          var committed, shown := session.Complete();
          names := shown;
          if |shown| > 0 {
            chips.AddCitation(Citations.Many(shown));
          }
          context := context + [Turn(Assistant, Plain(committed))];
          transcript := transcript + [userBubble, Bubble(Assistant, committed)];
        case Aborted =>
          context := context + [Turn(Assistant, Plain(session.bubble))];
          transcript := transcript + [userBubble, Bubble(Assistant, session.bubble)];
        case Failed(_) =>
          transcript := transcript + [userBubble, Bubble(Assistant, session.bubble), Bubble(Assistant, ErrorNotice)];
      }
      if |names| == 0 {
        assert Citations.Elems(names) == {};
        Citations.ExceptNothing(old(chips.names), {});
      }
    }

    /** `sendMessage`, with `reply` standing for the response: its chunks and how it ended. The
        window sent is returned, or None when the guard returns early. */
    method SendMessage(reply: Reply) returns (payload: Option<seq<Turn>>)
      requires Valid()
      modifies this, tray, chips
      ensures Valid()
      ensures tray.alive == old(tray.alive) && tray.uploads == old(tray.uploads)
      ensures tray.nextId == old(tray.nextId) && tray.uploaded == old(tray.uploaded)
      ensures NothingToSend(old(input), old(tray.pending)) ==>
        payload == None && input == old(input) && context == old(context)
        && transcript == old(transcript) && tray.pending == old(tray.pending) && chips.names == old(chips.names)
      ensures !NothingToSend(old(input), old(tray.pending)) ==>
        var user := UserTurn(Trim(old(input)), old(tray.pending));
        && payload == Some(LastTurns(old(context) + [user], MaxContextMessages))
        && context == old(context) + [user] + Committed(codec, reply)
        && input == "" && tray.pending == []
        && transcript == old(transcript)
             + [Bubble(User, UserHtml.Rendered(Trim(old(input)))), Bubble(Assistant, FinalBubble(codec, reply))]
             + (if reply.ending.Failed? then [Bubble(Assistant, ErrorNotice)] else [])
        && chips.names == Citations.Recent(CitedNames(codec, reply))
                          + Citations.Except(old(chips.names), Citations.Elems(CitedNames(codec, reply)))
    {
      var text := Trim(input);
      if text == "" && |tray.pending| == 0 {
        return None;
      }
      var userBubble := Bubble(User, UserHtml.Rendered(text));
      input := "";
      var parts := ContentParts(text);
      context := context + [Turn(User, Parts(parts))];
      tray.ClearPending();
      payload := Some(LastTurns(context, MaxContextMessages));

      Conclude(reply, userBubble);
    }
  }
}

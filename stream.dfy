/** The read loop of `sendMessage` in public/static/script.js: frames tagged `data: ` add their
    `content` to the reply text and re-render the assistant bubble, frames tagged `sources: `
    replace the citation value, and every other frame is ignored. JSON parsing and markdown
    rendering are the parameters collected in `Codec`. */
module Stream {
  import opened Wrappers
  import opened Text
  import Framing

  /** What `JSON.parse` makes of a `sources: ` payload: an array (its elements are file names), or
      any other JSON value. */
  datatype Sources = FileNames(names: seq<string>) | NotAnArray

  /** The helpers the loop calls:
      - `content(payload)`: the string that `JSON.parse(payload).content || ''` appends to the
        reply text, or None when that expression throws (malformed JSON, a `null` payload);
      - `sources(payload)`: `JSON.parse(payload)`, or None when it throws;
      - `shown(markdown)`: the text of the bubble after `bubble.innerHTML = toTightHtml(markdown)`. */
  datatype Codec = Codec(content: string -> Option<string>, sources: string -> Option<Sources>, shown: string -> string)

  const DataTag: string := "data: "
  const SourcesTag: string := "sources: "

  /** The text of the assistant bubble before anything is rendered into it. */
  const Placeholder: string := "..."

  /** The loop's variables: `fullText`, `citations` and the bubble's current text. */
  datatype Progress = Progress(fullText: string, citations: Option<Sources>, bubble: string)

  const Start: Progress := Progress("", None, Placeholder)

  /** The body of `for (const chunk of parts)`: one frame dispatched. */
  function HandleFrame(c: Codec, p: Progress, frame: string): Progress {
    if StartsWith(frame, DataTag) then
      match c.content(frame[|DataTag|..])
      case None => p
      case Some(delta) =>
        var text := p.fullText + delta;
        Progress(text, p.citations, c.shown(text))
    else if StartsWith(frame, SourcesTag) then
      match c.sources(frame[|SourcesTag|..])
      case None => p
      case Some(v) => p.(citations := Some(v))
    else p
  }

  function Handler(c: Codec): (Progress, string) -> Progress {
    (p: Progress, frame: string) => HandleFrame(c, p, frame)
  }

  /** The loop's variables after all of `text` has been read. */
  function Decoded(c: Codec, text: string): Progress {
    Framing.Decode(Handler(c), Start, text).state
  }

  // Reference definitions, frame by frame.

  /** The text a frame contributes: the content of a `data: ` frame whose payload parses. */
  function Delta(c: Codec, frame: string): string {
    if StartsWith(frame, DataTag) && c.content(frame[|DataTag|..]).Some? then
      c.content(frame[|DataTag|..]).value
    else ""
  }

  /** Whether a frame re-renders the bubble: a `data: ` frame whose payload parses. */
  predicate Renders(c: Codec, frame: string) {
    StartsWith(frame, DataTag) && c.content(frame[|DataTag|..]).Some?
  }

  /** The in-order concatenation of the frames' contributions. */
  function Contents(c: Codec, frames: seq<string>): string
    decreases |frames|
  {
    if |frames| == 0 then "" else Contents(c, frames[..|frames| - 1]) + Delta(c, frames[|frames| - 1])
  }

  /** The value of the last `sources: ` frame whose payload parses, if any. */
  function LatestSources(c: Codec, frames: seq<string>): Option<Sources>
    decreases |frames|
  {
    if |frames| == 0 then None
    else
      var f := frames[|frames| - 1];
      if !StartsWith(f, DataTag) && StartsWith(f, SourcesTag) && c.sources(f[|SourcesTag|..]).Some? then
        c.sources(f[|SourcesTag|..])
      else LatestSources(c, frames[..|frames| - 1])
  }

  predicate AnyRenders(c: Codec, frames: seq<string>) {
    exists k :: 0 <= k < |frames| && Renders(c, frames[k])
  }

  /** Dispatching frames appends their contents to `fullText`, leaves the citations to the last
      parsed `sources: ` frame (the last one wins; none leaves them as they were), and leaves the
      bubble showing `fullText` once a data frame has parsed, and untouched otherwise. Malformed
      and untagged frames therefore change nothing. */
  lemma {:induction false} DispatchMeaning(c: Codec, p: Progress, frames: seq<string>)
    ensures Framing.Dispatch(Handler(c), p, frames).fullText == p.fullText + Contents(c, frames)
    ensures Framing.Dispatch(Handler(c), p, frames).citations
         == (if LatestSources(c, frames).Some? then LatestSources(c, frames) else p.citations)
    ensures Framing.Dispatch(Handler(c), p, frames).bubble
         == (if AnyRenders(c, frames) then c.shown(Framing.Dispatch(Handler(c), p, frames).fullText) else p.bubble)
    decreases |frames|
  {
    if |frames| > 0 {
      var init, f := frames[..|frames| - 1], frames[|frames| - 1];
      DispatchMeaning(c, p, init);
      assert forall k :: 0 <= k < |init| ==> init[k] == frames[k];
      if Renders(c, f) {
        assert AnyRenders(c, frames) by {
          assert Renders(c, frames[|frames| - 1]);
        }
      } else {
        assert AnyRenders(c, frames) == AnyRenders(c, init) by {
          if AnyRenders(c, frames) {
            var k :| 0 <= k < |frames| && Renders(c, frames[k]);
            assert k < |init|;
          }
        }
      }
    }
  }

  /** The reply text the loop builds is the concatenation of the contents of the TERMINATED frames
      of everything received, whatever chunks it arrived in; the citations are those of the last
      terminated `sources: ` frame that parsed. */
  lemma ReplyIndependentOfChunking(c: Codec, chunks: seq<string>)
    ensures Framing.FeedAll(Handler(c), Framing.Reader(Start, ""), chunks).state == Decoded(c, Framing.Concat(chunks))
    ensures Decoded(c, Framing.Concat(chunks)).fullText == Contents(c, Framing.Init(Framing.Split(Framing.Concat(chunks))))
    ensures Decoded(c, Framing.Concat(chunks)).citations == LatestSources(c, Framing.Init(Framing.Split(Framing.Concat(chunks))))
  {
    Framing.FeedAllDecodes(Handler(c), Start, chunks);
    DispatchMeaning(c, Start, Framing.Init(Framing.Split(Framing.Concat(chunks))));
  }

  /** A stream of terminated frames and an unterminated tail: the committed text is the contents of
      the terminated frames only. */
  lemma TailNeverCommitted(c: Codec, frames: seq<string>, tail: string)
    requires forall k :: 0 <= k < |frames| ==> !Framing.HasDelimiter(frames[k]) && !Framing.EndsWithNewline(frames[k])
    requires !Framing.HasDelimiter(tail)
    ensures Decoded(c, Framing.Terminated(frames) + tail).fullText == Contents(c, frames)
  {
    Framing.UnterminatedTailDropped(Handler(c), Start, frames, tail);
    DispatchMeaning(c, Start, frames);
  }

  lemma NoNewlineIsClean(f: string)
    requires forall j :: 0 <= j < |f| ==> f[j] != '\n'
    ensures !Framing.HasDelimiter(f) && !Framing.EndsWithNewline(f)
  {
  }

  /** The end-to-end shape of a reply: two data frames and a sources frame, each terminated by the
      blank line, give the text of the two contents, in order, and the parsed sources value. */
  lemma TwoDataFramesThenSources(c: Codec, p1: string, p2: string, p3: string, v: Sources)
    requires forall j :: 0 <= j < |p1| ==> p1[j] != '\n'
    requires forall j :: 0 <= j < |p2| ==> p2[j] != '\n'
    requires forall j :: 0 <= j < |p3| ==> p3[j] != '\n'
    requires c.content(p1).Some? && c.content(p2).Some? && c.sources(p3) == Some(v)
    ensures Decoded(c, Framing.Terminated([DataTag + p1, DataTag + p2, SourcesTag + p3])).fullText
         == c.content(p1).value + c.content(p2).value
    ensures Decoded(c, Framing.Terminated([DataTag + p1, DataTag + p2, SourcesTag + p3])).citations == Some(v)
  {
    var f1, f2, f3 := DataTag + p1, DataTag + p2, SourcesTag + p3;
    var frames := [f1, f2, f3];
    NoNewlineIsClean(f1);
    NoNewlineIsClean(f2);
    NoNewlineIsClean(f3);
    NoNewlineIsClean("");
    assert Framing.Terminated(frames) + "" == Framing.Terminated(frames);
    Framing.UnterminatedTailDropped(Handler(c), Start, frames, "");
    DispatchMeaning(c, Start, frames);
    assert f1[|DataTag|..] == p1 && f2[|DataTag|..] == p2 && f3[|SourcesTag|..] == p3;
    assert !StartsWith(f3, DataTag) by {
      assert f3[0] != DataTag[0];
    }
    var r2, r1 := [f1, f2], [f1];
    assert frames[..2] == r2 && r2[..1] == r1 && |r1[..0]| == 0;
    assert Contents(c, r1) == Delta(c, f1) == c.content(p1).value;
    assert Contents(c, r2) == Contents(c, r1) + Delta(c, f2);
    assert Contents(c, frames) == Contents(c, r2) + Delta(c, f3);
    assert Delta(c, f3) == "";
  }

  /** With a codec that parses the payloads as JSON would, the reply `{"content":"Hel"}`,
      `{"content":"lo"}`, `["a.pdf"]` reads as the text "Hello" citing a.pdf. */
  lemma HelloScenario(c: Codec)
    requires c.content("{\"content\":\"Hel\"}") == Some("Hel")
    requires c.content("{\"content\":\"lo\"}") == Some("lo")
    requires c.sources("[\"a.pdf\"]") == Some(FileNames(["a.pdf"]))
    ensures Decoded(c, Framing.Terminated([DataTag + "{\"content\":\"Hel\"}", DataTag + "{\"content\":\"lo\"}", SourcesTag + "[\"a.pdf\"]"])).fullText == "Hello"
    ensures Decoded(c, Framing.Terminated([DataTag + "{\"content\":\"Hel\"}", DataTag + "{\"content\":\"lo\"}", SourcesTag + "[\"a.pdf\"]"])).citations == Some(FileNames(["a.pdf"]))
  {
    var p1: string, p2: string, p3: string := "{\"content\":\"Hel\"}", "{\"content\":\"lo\"}", "[\"a.pdf\"]";
    TwoDataFramesThenSources(c, p1, p2, p3, FileNames(["a.pdf"]));
  }

  /** The citation list a finished reply shows: the parsed `sources:` value when it is a non-empty
      array (`citations && Array.isArray(citations) && citations.length`), else none. */
  function ShownCitations(citations: Option<Sources>): (names: seq<string>)
    ensures |names| > 0 <==> citations.Some? && citations.value.FileNames? && |citations.value.names| > 0
    ensures |names| > 0 ==> names == citations.value.names
  {
    match citations
    case Some(FileNames(ns)) => ns
    case _ => []
  }

  /** The stream session of one send: the loop's variables, plus the text received so far. */
  class StreamSession {
    const codec: Codec
    var buffer: string
    var fullText: string
    var citations: Option<Sources>
    var bubble: string
    ghost var received: string

    /** The loop's variables are those of decoding everything received in one piece. */
    ghost predicate Valid()
      reads this
    {
      Framing.Decode(Handler(codec), Start, received) == Framing.Reader(Progress(fullText, citations, bubble), buffer)
    }

    constructor (codec: Codec)
      ensures Valid() && this.codec == codec && received == ""
      ensures buffer == "" && fullText == "" && citations == None && bubble == Placeholder
    {
      this.codec := codec;
      buffer, fullText, citations, bubble := "", "", None, Placeholder;
      received := "";
      assert Framing.Split("") == [""];
    }

    /** One read: `buffer += chunk`, split on the blank line, keep the last segment, dispatch the
        rest in order. */
    method Feed(chunk: string)
      requires Valid()
      modifies this
      ensures Valid() && received == old(received) + chunk
      ensures Framing.Reader(Progress(fullText, citations, bubble), buffer)
           == Framing.Feed(Handler(codec), Framing.Reader(old(Progress(fullText, citations, bubble)), old(buffer)), chunk)
    {
      ghost var before := Progress(fullText, citations, bubble);
      Framing.DecodeStep(Handler(codec), Start, received, chunk);
      assert Framing.Decode(Handler(codec), Start, received + chunk)
          == Framing.Feed(Handler(codec), Framing.Reader(before, buffer), chunk);
      var parts := Framing.Split(buffer + chunk);
      buffer := parts[|parts| - 1];
      var i := 0;
      while i < |parts| - 1
        invariant 0 <= i <= |parts| - 1
        invariant buffer == parts[|parts| - 1] && received == old(received)
        invariant Progress(fullText, citations, bubble) == Framing.Dispatch(Handler(codec), before, parts[..i])
      {
        Consume(parts[i]);
        assert parts[..i + 1][..i] == parts[..i];
        i := i + 1;
      }
      assert parts[..|parts| - 1] == Framing.Init(parts);
      assert Framing.Feed(Handler(codec), Framing.Reader(before, old(buffer)), chunk)
          == Framing.Reader(Progress(fullText, citations, bubble), buffer);
      received := received + chunk;
    }

    /** The body of `for (const chunk of parts)`: a parsed `data: ` frame appends its content and
        re-renders the bubble, a parsed `sources: ` frame replaces the citations, anything else is
        skipped. */
    method Consume(frame: string)
      modifies this
      ensures Progress(fullText, citations, bubble) == HandleFrame(codec, old(Progress(fullText, citations, bubble)), frame)
      ensures buffer == old(buffer) && received == old(received)
    {
      if StartsWith(frame, DataTag) {
        var parsed := codec.content(frame[|DataTag|..]);
        if parsed.Some? {
          fullText := fullText + parsed.value;
          bubble := codec.shown(fullText);
        }
      } else if StartsWith(frame, SourcesTag) {
        var parsed := codec.sources(frame[|SourcesTag|..]);
        if parsed.Some? {
          citations := parsed;
        }
      }
    }

    /** The reader reported `done`: the bubble is rendered once more from the whole text, which is
        what the turn commits; the citations to show are returned. Text still in the buffer is not
        dispatched. */
    method Complete() returns (committed: string, shown: seq<string>)
      modifies this
      ensures committed == bubble == codec.shown(old(fullText))
      ensures shown == ShownCitations(old(citations))
      ensures fullText == old(fullText) && citations == old(citations) && buffer == old(buffer)
    {
      bubble := codec.shown(fullText);
      committed := bubble;
      shown := ShownCitations(citations);
    }
  }
}

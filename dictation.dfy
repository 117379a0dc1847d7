/** Dictation in the current client (public/static/script.js): final speech results are trimmed
    and joined into `finalBuffer`, and on every result event the input box is rewritten from the
    text it held when dictation started, the final buffer and the interim results, with white
    space collapsed. */
module Dictation {
  import opened Text

  /** One entry of the recognition event's `results` list: the best alternative's transcript (an
      absent transcript is the empty string, as `|| ""` makes it) and whether it is final. */
  datatype SpeechResult = SpeechResult(transcript: string, isFinal: bool)

  /** The separator `finalBuffer +=` puts before a new final text: a space, unless the buffer is
      empty or already ends with a space. */
  function Separator(buffer: string): string {
    if buffer != "" && !EndsWith(buffer, " ") then " " else ""
  }

  /** `finalBuffer += separator + text.trim()` */
  function AppendFinal(buffer: string, text: string): string {
    buffer + Separator(buffer) + Trim(text)
  }

  /** The results the event's loop visits: from `resultIndex` to the end. */
  function Visited(results: seq<SpeechResult>, resultIndex: nat): seq<SpeechResult> {
    if resultIndex <= |results| then results[resultIndex..] else []
  }

  /** The final buffer after the final results of `results` are appended to `buffer`, in order. */
  function Finals(buffer: string, results: seq<SpeechResult>): string
    decreases |results|
  {
    if |results| == 0 then buffer
    else
      var before := Finals(buffer, results[..|results| - 1]);
      var last := results[|results| - 1];
      if last.isFinal then AppendFinal(before, last.transcript) else before
  }

  /** The concatenated transcripts of the interim (non-final) results. */
  function Interim(results: seq<SpeechResult>): string
    decreases |results|
  {
    if |results| == 0 then ""
    else
      var last := results[|results| - 1];
      Interim(results[..|results| - 1]) + (if last.isFinal then "" else last.transcript)
  }

  /** `s.replace(/\s+/g, ' ')`: every maximal run of white space becomes one space. */
  function Collapse(s: string): string
    decreases |s|
  {
    if |s| == 0 then ""
    else if IsSpace(s[0]) then " " + Collapse(TrimStart(s[1..]))
    else [s[0]] + Collapse(s[1..])
  }

  /** The input text before dictation, as the prefix of the dictated line. */
  function Base(lastStaticText: string): string {
    if lastStaticText != "" then TrimEnd(lastStaticText) + " " else ""
  }

  /** The line the input box shows after a result event. */
  function Line(lastStaticText: string, finalBuffer: string, interim: string): string {
    TrimStart(Collapse(Base(lastStaticText) + finalBuffer + (if interim != "" then " " + interim else "")))
  }

  /** The characters of `s` that are not white space, in order. */
  function NonSpace(s: string): string
    decreases |s|
  {
    if |s| == 0 then "" else (if IsSpace(s[0]) then "" else [s[0]]) + NonSpace(s[1..])
  }

  /** The only white space is the plain space, and no two spaces are adjacent. */
  predicate SingleSpaced(s: string) {
    (forall i :: 0 <= i < |s| && IsSpace(s[i]) ==> s[i] == ' ')
    && (forall i :: 0 < i < |s| && s[i] == ' ' ==> s[i - 1] != ' ')
  }

  /** The final buffer never starts with white space. */
  predicate Tidy(buffer: string) {
    buffer == "" || !IsSpace(buffer[0])
  }

  // ----- NonSpace -----

  lemma {:induction false} NonSpaceAppend(a: string, b: string)
    ensures NonSpace(a + b) == NonSpace(a) + NonSpace(b)
    decreases |a|
  {
    if |a| == 0 {
      assert a + b == b;
    } else {
      assert (a + b)[1..] == a[1..] + b;
      NonSpaceAppend(a[1..], b);
    }
  }

  lemma {:induction false} NonSpaceOfSpaces(s: string)
    requires forall i :: 0 <= i < |s| ==> IsSpace(s[i])
    ensures NonSpace(s) == ""
    decreases |s|
  {
    if |s| > 0 {
      NonSpaceOfSpaces(s[1..]);
    }
  }

  lemma NonSpaceTrimStart(s: string)
    ensures NonSpace(TrimStart(s)) == NonSpace(s)
  {
    var r := TrimStart(s);
    var k := |s| - |r|;
    assert s == s[..k] + r;
    NonSpaceAppend(s[..k], r);
    NonSpaceOfSpaces(s[..k]);
  }

  lemma NonSpaceTrimEnd(s: string)
    ensures NonSpace(TrimEnd(s)) == NonSpace(s)
  {
    var r := TrimEnd(s);
    assert s == r + s[|r|..];
    NonSpaceAppend(r, s[|r|..]);
    NonSpaceOfSpaces(s[|r|..]);
  }

  /** Trimming removes white space only. */
  lemma NonSpaceTrim(s: string)
    ensures NonSpace(Trim(s)) == NonSpace(s)
  {
    NonSpaceTrimStart(s);
    NonSpaceTrimEnd(TrimStart(s));
  }

  lemma SpaceOnly(s: string)
    requires s == " " || s == ""
    ensures NonSpace(s) == ""
  {
    NonSpaceOfSpaces(s);
  }

  // ----- The final buffer -----

  lemma SeparatedWords(sep: string, text: string)
    requires sep == " " || sep == ""
    ensures NonSpace(sep + Trim(text)) == NonSpace(text)
  {
    NonSpaceAppend(sep, Trim(text));
    SpaceOnly(sep);
    NonSpaceTrim(text);
  }

  /** Appending a final text adds exactly its non-space characters. */
  lemma AppendFinalKeepsWords(buffer: string, text: string)
    ensures NonSpace(AppendFinal(buffer, text)) == NonSpace(buffer) + NonSpace(text)
  {
    SeparatedWords(Separator(buffer), text);
    AppendKeepsWords(buffer, Separator(buffer), Trim(text), text);
  }

  /** Appending a separator and a piece that together have the words of `text` appends the
      words of `text`. */
  lemma AppendKeepsWords(buffer: string, sep: string, piece: string, text: string)
    requires NonSpace(sep + piece) == NonSpace(text)
    ensures NonSpace(buffer + sep + piece) == NonSpace(buffer) + NonSpace(text)
  {
    assert buffer + sep + piece == buffer + (sep + piece);
    NonSpaceAppend(buffer, sep + piece);
  }

  /** The new text never sticks to the old one: there is a space at the seam. */
  lemma AppendFinalSeparates(buffer: string, text: string)
    requires buffer != "" && Trim(text) != ""
    ensures AppendFinal(buffer, text)[|buffer| - 1] == ' ' || AppendFinal(buffer, text)[|buffer|] == ' '
  {
    var r := AppendFinal(buffer, text);
    if EndsWith(buffer, " ") {
      assert buffer[|buffer| - 1..][0] == ' ';
      assert r[|buffer| - 1] == buffer[|buffer| - 1];
    } else {
      assert r == buffer + (" " + Trim(text));
      assert r[|buffer|] == ' ';
    }
  }

  /** The final buffer keeps starting with a non-space character. */
  lemma AppendFinalTidy(buffer: string, text: string)
    requires Tidy(buffer)
    ensures Tidy(AppendFinal(buffer, text))
  {
  }

  /** Final results delivered over several events give the same buffer as in one event. */
  lemma {:induction false} FinalsAppend(buffer: string, first: seq<SpeechResult>, second: seq<SpeechResult>)
    ensures Finals(buffer, first + second) == Finals(Finals(buffer, first), second)
    decreases |second|
  {
    if |second| == 0 {
      assert first + second == first;
    } else {
      var all := first + second;
      assert all[..|all| - 1] == first + second[..|second| - 1];
      assert all[|all| - 1] == second[|second| - 1];
      FinalsAppend(buffer, first, second[..|second| - 1]);
    }
  }

  /** The concatenated non-space characters of the final transcripts. */
  function FinalWords(results: seq<SpeechResult>): string
    decreases |results|
  {
    if |results| == 0 then ""
    else
      var last := results[|results| - 1];
      FinalWords(results[..|results| - 1]) + (if last.isFinal then NonSpace(last.transcript) else "")
  }

  /** The final buffer holds the words of the final transcripts, in order, and nothing else. */
  lemma {:induction false} FinalsKeepWords(buffer: string, results: seq<SpeechResult>)
    ensures NonSpace(Finals(buffer, results)) == NonSpace(buffer) + FinalWords(results)
    ensures Tidy(buffer) ==> Tidy(Finals(buffer, results))
    decreases |results|
  {
    if |results| > 0 {
      var init, last := results[..|results| - 1], results[|results| - 1];
      FinalsKeepWords(buffer, init);
      if last.isFinal {
        AppendFinalKeepsWords(Finals(buffer, init), last.transcript);
        if Tidy(buffer) {
          AppendFinalTidy(Finals(buffer, init), last.transcript);
        }
      }
    }
  }

  // ----- Collapsing white space -----

  lemma CollapseFront(s: string)
    requires |s| > 0
    ensures |Collapse(s)| > 0
    ensures IsSpace(s[0]) ==> Collapse(s)[0] == ' '
    ensures !IsSpace(s[0]) ==> Collapse(s)[0] == s[0]
  {
  }

  lemma SingleSpacedCons(c: char, rest: string)
    requires SingleSpaced(rest)
    requires IsSpace(c) ==> c == ' ' && (rest == "" || rest[0] != ' ')
    ensures SingleSpaced([c] + rest)
  {
    var s := [c] + rest;
    forall i | 0 < i < |s| && s[i] == ' '
      ensures s[i - 1] != ' '
    {
      assert s[i] == rest[i - 1];
      if i > 1 {
        assert s[i - 1] == rest[i - 2];
      }
    }
  }

  /** After the replacement the only white space is single spaces. */
  lemma {:induction false} CollapseSingleSpaced(s: string)
    ensures SingleSpaced(Collapse(s))
    decreases |s|
  {
    if |s| > 0 {
      if IsSpace(s[0]) {
        var t := TrimStart(s[1..]);
        CollapseSingleSpaced(t);
        if |t| > 0 {
          CollapseFront(t);
        }
        SingleSpacedCons(' ', Collapse(t));
      } else {
        CollapseSingleSpaced(s[1..]);
        SingleSpacedCons(s[0], Collapse(s[1..]));
      }
    }
  }

  /** The replacement changes white space only. */
  lemma {:induction false} CollapseKeepsWords(s: string)
    ensures NonSpace(Collapse(s)) == NonSpace(s)
    decreases |s|
  {
    if |s| > 0 {
      if IsSpace(s[0]) {
        var t := TrimStart(s[1..]);
        CollapseKeepsWords(t);
        NonSpaceTrimStart(s[1..]);
        NonSpaceAppend(" ", Collapse(t));
        SpaceOnly(" ");
      } else {
        CollapseKeepsWords(s[1..]);
        NonSpaceAppend([s[0]], Collapse(s[1..]));
      }
    }
  }

  /** A single-spaced text is left as it is, so the replacement is idempotent. */
  lemma {:induction false} CollapseOfSingleSpaced(s: string)
    requires SingleSpaced(s)
    ensures Collapse(s) == s
    decreases |s|
  {
    if |s| > 0 {
      var rest := s[1..];
      assert SingleSpaced(rest) by {
        forall i | 0 < i < |rest| && rest[i] == ' '
          ensures rest[i - 1] != ' '
        {
          assert s[i + 1] == ' ';
        }
      }
      CollapseOfSingleSpaced(rest);
      if IsSpace(s[0]) {
        if |rest| > 0 {
          assert s[1] == rest[0];
          assert !IsSpace(rest[0]);
        }
        assert TrimStart(rest) == rest;
      }
      assert s == [s[0]] + rest;
    }
  }

  lemma CollapseIdempotent(s: string)
    ensures Collapse(Collapse(s)) == Collapse(s)
  {
    CollapseSingleSpaced(s);
    CollapseOfSingleSpaced(Collapse(s));
  }

  lemma SingleSpacedSuffix(s: string, k: nat)
    requires SingleSpaced(s) && k <= |s|
    ensures SingleSpaced(s[k..])
  {
    var r := s[k..];
    forall i | 0 < i < |r| && r[i] == ' '
      ensures r[i - 1] != ' '
    {
      assert r[i] == s[k + i] && r[i - 1] == s[k + i - 1];
    }
  }

  /** The dictated line starts with a non-space character and is single-spaced. */
  lemma LineShape(lastStaticText: string, finalBuffer: string, interim: string)
    ensures var line := Line(lastStaticText, finalBuffer, interim);
      SingleSpaced(line) && (line == "" || !IsSpace(line[0]))
  {
    var whole := Base(lastStaticText) + finalBuffer + (if interim != "" then " " + interim else "");
    var c := Collapse(whole);
    CollapseSingleSpaced(whole);
    SingleSpacedSuffix(c, |c| - |TrimStart(c)|);
  }

  lemma BaseWords(lastStaticText: string)
    ensures NonSpace(Base(lastStaticText)) == NonSpace(lastStaticText)
  {
    if lastStaticText != "" {
      NonSpaceAppend(TrimEnd(lastStaticText), " ");
      SpaceOnly(" ");
      NonSpaceTrimEnd(lastStaticText);
    } else {
      SpaceOnly("");
    }
  }

  lemma TailWords(interim: string)
    ensures NonSpace(if interim != "" then " " + interim else "") == NonSpace(interim)
  {
    if interim != "" {
      NonSpaceAppend(" ", interim);
      SpaceOnly(" ");
    }
  }

  /** The words of the dictated line are those of the earlier input, then of the final buffer,
      then of the interim results. */
  lemma LineKeepsWords(lastStaticText: string, finalBuffer: string, interim: string)
    ensures NonSpace(Line(lastStaticText, finalBuffer, interim))
         == NonSpace(lastStaticText) + NonSpace(finalBuffer) + NonSpace(interim)
  {
    var base, tail := Base(lastStaticText), if interim != "" then " " + interim else "";
    var whole := base + finalBuffer + tail;
    CollapseKeepsWords(whole);
    NonSpaceTrimStart(Collapse(whole));
    NonSpaceAppend(base + finalBuffer, tail);
    NonSpaceAppend(base, finalBuffer);
    BaseWords(lastStaticText);
    TailWords(interim);
  }

  /** The speech-recognition state of the current client. */
  class Recognizer {
    var listening: bool
    var finalBuffer: string
    var lastStaticText: string
    /** `userInput.value` */
    var input: string
    /** Whether the browser offers `SpeechRecognition`, so that `ensureRecognition` gives one. */
    const speechApi: bool

    ghost predicate Valid()
      reads this
    {
      Tidy(finalBuffer)
    }

    constructor (input: string, speechApi: bool)
      ensures Valid() && !listening && this.input == input && finalBuffer == "" && this.speechApi == speechApi
    {
      this.speechApi := speechApi;
      listening := false;
      finalBuffer := "";
      lastStaticText := "";
      this.input := input;
    }

    /** `startDictation`: does nothing while already listening, nor (after an alert) without a
        speech API; otherwise the buffer is emptied and the current input kept as the line's base. */
    method Start()
      requires Valid()
      modifies this
      ensures Valid() && input == old(input)
      ensures old(listening) || !speechApi ==> listening == old(listening) && finalBuffer == old(finalBuffer)
                                               && lastStaticText == old(lastStaticText)
      ensures !old(listening) && speechApi ==> listening && finalBuffer == "" && lastStaticText == old(input)
    {
      if listening {
        return;
      }
      if !speechApi {
        return;
      }
      listening := true;
      finalBuffer := "";
      lastStaticText := input;
    }

    /** `stopDictation`: does nothing unless listening; otherwise listening stops (the send it
        then starts is the chat widget's). */
    method Stop()
      requires Valid()
      modifies this
      ensures Valid() && !listening
      ensures finalBuffer == old(finalBuffer) && lastStaticText == old(lastStaticText) && input == old(input)
    {
      if !listening {
        return;
      }
      listening := false;
    }

    /** The microphone button: stops dictation while listening, else starts it (which without a
        speech API changes nothing). The send that stopping starts is the chat widget's. */
    method MicClick()
      requires Valid()
      modifies this
      ensures Valid() && listening == (!old(listening) && speechApi) && input == old(input)
      ensures old(listening) || !speechApi ==> finalBuffer == old(finalBuffer) && lastStaticText == old(lastStaticText)
      ensures !old(listening) && speechApi ==> finalBuffer == "" && lastStaticText == old(input)
    {
      if listening {
        Stop();
      } else {
        Start();
      }
    }

    /** The loop of `recognition.onresult`: the visited results in order, final ones appended to
        the buffer and interim ones collected. */
    static method Collect(buffer: string, visited: seq<SpeechResult>) returns (buffer': string, interim: string)
      requires Tidy(buffer)
      ensures buffer' == Finals(buffer, visited) && interim == Interim(visited) && Tidy(buffer')
    {
      buffer', interim := buffer, "";
      var i := 0;
      while i < |visited|
        invariant 0 <= i <= |visited|
        invariant buffer' == Finals(buffer, visited[..i]) && interim == Interim(visited[..i])
        invariant Tidy(buffer')
      {
        var res := visited[i];
        assert visited[..i + 1][..i] == visited[..i];
        if res.isFinal {
          AppendFinalTidy(buffer', res.transcript);
          buffer' := buffer' + Separator(buffer') + Trim(res.transcript);
        } else {
          interim := interim + res.transcript;
        }
        i := i + 1;
      }
      assert visited[..|visited|] == visited;
    }

    /** `recognition.onresult`: the visited results are walked in order, final ones appended to the
        buffer and interim ones collected; then the input box is rewritten. */
    method OnResult(results: seq<SpeechResult>, resultIndex: nat)
      requires Valid()
      modifies this
      ensures Valid()
      ensures finalBuffer == Finals(old(finalBuffer), Visited(results, resultIndex))
      ensures input == Line(lastStaticText, finalBuffer, Interim(Visited(results, resultIndex)))
      ensures listening == old(listening) && lastStaticText == old(lastStaticText)
    {
      var interim;
      finalBuffer, interim := Collect(finalBuffer, Visited(results, resultIndex));
      var base := if lastStaticText != "" then TrimEnd(lastStaticText) + " " else "";
      input := TrimStart(Collapse(base + finalBuffer + (if interim != "" then " " + interim else "")));
    }
  }
}

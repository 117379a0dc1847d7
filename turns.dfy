/** The chat transcript both clients keep in `context`, and what a send receives back. */
module Turns {
  datatype Role = User | Assistant

  /** One element of a user turn's content array. */
  datatype Part = InputText(text: string) | InputFile(fileUrl: string)

  /** A user turn holds an array of parts; an assistant turn holds plain text. */
  datatype Content = Parts(parts: seq<Part>) | Plain(text: string)

  datatype Turn = Turn(role: Role, content: Content)

  /** How the response to a send ends:
      - `EndOfStream`: the reader reported `done`;
      - `Aborted`: the request was cancelled through its abort controller (an `AbortError`);
      - `Failed(message)`: any other error (a non-ok response, a network error), with its message. */
  datatype Ending = EndOfStream | Aborted | Failed(message: string)

  /** The response to one send: the text chunks read, in order, then how it ended. A response that
      fails before its body is read has no chunks. */
  datatype Reply = Reply(chunks: seq<string>, ending: Ending)

  function Min(a: int, b: int): int {
    if a <= b then a else b
  }

  /** `context.slice(-n)`: the most recent `n` turns, or all of them when there are fewer. As in
      JavaScript, `slice(-0)` is the whole array. */
  function LastTurns(context: seq<Turn>, n: nat): (window: seq<Turn>)
    ensures n > 0 ==> |window| == Min(n, |context|)
    ensures n == 0 ==> window == context
    ensures window == context[|context| - |window|..]
  {
    if n == 0 || n >= |context| then context else context[|context| - n..]
  }

  /** The window keeps the newest turn: the last turn of the context is the last turn sent. */
  lemma WindowEndsWithNewest(context: seq<Turn>, n: nat)
    requires |context| > 0
    ensures |LastTurns(context, n)| > 0
    ensures LastTurns(context, n)[|LastTurns(context, n)| - 1] == context[|context| - 1]
  {
  }

  /** Appending a turn to a full window drops exactly the oldest turn of the old window. */
  lemma {:induction false} WindowSlides(context: seq<Turn>, t: Turn, n: nat)
    requires 0 < n <= |context|
    ensures LastTurns(context + [t], n) == LastTurns(context, n)[1..] + [t]
  {
    var c := context + [t];
    assert c[|c| - n..] == context[|context| - n + 1..] + [t];
    assert LastTurns(context, n)[1..] == context[|context| - n + 1..];
  }
}

/** The framing of the streamed chat reply: the text received so far is split on the blank line
    `"\n\n"` (JavaScript's `String.prototype.split`, which takes the leftmost match each time);
    every segment but the last is a complete frame, and the last segment is kept as the buffer
    for the next read. The frame handler is a parameter, so the current client and the
    deprecated one share this module. */
module Framing {
  import opened Wrappers

  /** The frame terminator: two consecutive newlines. */
  const Delimiter: string := "\n\n"

  predicate DelimiterAt(s: string, j: int) {
    0 <= j < |s| - 1 && s[j] == '\n' && s[j + 1] == '\n'
  }

  predicate HasDelimiter(s: string) {
    exists j :: 0 <= j < |s| - 1 && DelimiterAt(s, j)
  }

  predicate EndsWithNewline(p: string) {
    |p| > 0 && p[|p| - 1] == '\n'
  }

  /** The position of the leftmost `"\n\n"` in `s`, if there is one (see FindDelimiterCorrect). */
  function FindDelimiter(s: string): (r: Option<nat>)
    ensures r.Some? ==> DelimiterAt(s, r.value)
    decreases |s|
  {
    if |s| < 2 then None
    else if s[0] == '\n' && s[1] == '\n' then Some(0)
    else
      match FindDelimiter(s[1..])
      case None => None
      case Some(i) => Some(i + 1)
  }

  /** FindDelimiter finds a delimiter exactly when there is one, and the one it finds is leftmost. */
  lemma {:induction false} FindDelimiterCorrect(s: string)
    ensures FindDelimiter(s).Some? ==> forall j :: 0 <= j < FindDelimiter(s).value ==> !DelimiterAt(s, j)
    ensures FindDelimiter(s).None? <==> !HasDelimiter(s)
    decreases |s|
  {
    if |s| < 2 {
    } else if s[0] == '\n' && s[1] == '\n' {
      assert DelimiterAt(s, 0);
    } else {
      FindDelimiterCorrect(s[1..]);
      assert forall j :: DelimiterAt(s, j) && j != 0 ==> DelimiterAt(s[1..], j - 1);
      match FindDelimiter(s[1..])
      case None =>
      case Some(i) =>
        assert DelimiterAt(s, i + 1);
    }
  }

  /** `s.split("\n\n")`. */
  function Split(s: string): (parts: seq<string>)
    ensures |parts| >= 1
    decreases |s|
  {
    match FindDelimiter(s)
    case None => [s]
    case Some(i) => [s[..i]] + Split(s[i + 2..])
  }

  /** `parts.join("\n\n")`. */
  function Join(parts: seq<string>): string
    decreases |parts|
  {
    if |parts| == 0 then ""
    else if |parts| == 1 then parts[0]
    else parts[0] + Delimiter + Join(parts[1..])
  }

  /** Each frame followed by its terminator: `f1 + "\n\n" + ... + fn + "\n\n"`. */
  function Terminated(frames: seq<string>): string
    decreases |frames|
  {
    if |frames| == 0 then "" else frames[0] + Delimiter + Terminated(frames[1..])
  }

  function Init(parts: seq<string>): seq<string>
    requires |parts| >= 1
  {
    parts[..|parts| - 1]
  }

  function Last(parts: seq<string>): string
    requires |parts| >= 1
  {
    parts[|parts| - 1]
  }

  /** What leftmost-first splitting yields: at least one part, no part holding the delimiter, and
      no part but the last ending in a newline (else the delimiter would have started one
      character earlier). */
  predicate WellSplit(parts: seq<string>) {
    && |parts| >= 1
    && (forall k :: 0 <= k < |parts| ==> !HasDelimiter(parts[k]))
    && (forall k :: 0 <= k < |parts| - 1 ==> !EndsWithNewline(parts[k]))
  }

  lemma FindDelimiterIs(s: string, i: nat)
    requires DelimiterAt(s, i)
    requires forall j :: 0 <= j < i ==> !DelimiterAt(s, j)
    ensures FindDelimiter(s) == Some(i)
  {
    FindDelimiterCorrect(s);
    assert HasDelimiter(s);
  }

  /** Text appended after a delimiter does not move the leftmost delimiter. */
  lemma FindDelimiterExtends(s: string, t: string)
    requires FindDelimiter(s).Some?
    ensures FindDelimiter(s + t) == FindDelimiter(s)
  {
    FindDelimiterCorrect(s);
    var i := FindDelimiter(s).value;
    assert DelimiterAt(s + t, i);
    forall j | 0 <= j < i
      ensures !DelimiterAt(s + t, j)
    {
      assert !DelimiterAt(s, j);
    }
    FindDelimiterIs(s + t, i);
  }

  /** Joining the parts gives back the text: splitting loses nothing. */
  lemma {:induction false} SplitJoin(s: string)
    ensures Join(Split(s)) == s
    decreases |s|
  {
    if FindDelimiter(s).Some? {
      var i := FindDelimiter(s).value;
      SplitAt(s, i);
      SplitJoin(s[i + 2..]);
      JoinCons(s[..i], Split(s[i + 2..]));
      assert s == s[..i] + Delimiter + s[i + 2..];
    }
  }

  lemma JoinCons(p: string, rest: seq<string>)
    requires |rest| >= 1
    ensures Join([p] + rest) == p + Delimiter + Join(rest)
  {
    assert ([p] + rest)[1..] == rest;
  }

  /** The part in front of the leftmost delimiter is a clean frame. */
  lemma FrontIsClean(s: string, i: nat)
    requires FindDelimiter(s) == Some(i)
    ensures !HasDelimiter(s[..i]) && !EndsWithNewline(s[..i])
  {
    FindDelimiterCorrect(s);
    var p := s[..i];
    forall j | DelimiterAt(p, j)
      ensures false
    {
      assert DelimiterAt(s, j);
    }
    if EndsWithNewline(p) {
      assert DelimiterAt(s, i - 1);
    }
  }

  lemma WellSplitConsed(p: string, rest: seq<string>)
    requires !HasDelimiter(p) && !EndsWithNewline(p) && WellSplit(rest)
    ensures WellSplit([p] + rest)
  {
    var parts := [p] + rest;
    assert forall k :: 1 <= k < |parts| ==> parts[k] == rest[k - 1];
  }

  lemma {:induction false} SplitWellSplit(s: string)
    ensures WellSplit(Split(s))
    decreases |s|
  {
    if FindDelimiter(s).None? {
      FindDelimiterCorrect(s);
      assert Split(s) == [s];
    } else {
      var i := FindDelimiter(s).value;
      SplitAt(s, i);
      SplitWellSplit(s[i + 2..]);
      FrontIsClean(s, i);
      WellSplitConsed(s[..i], Split(s[i + 2..]));
    }
  }

  /** A clean frame followed by the delimiter: the leftmost delimiter is the one right after it. */
  lemma DelimiterAfterFrame(p: string, rest: string)
    requires !HasDelimiter(p) && !EndsWithNewline(p)
    ensures FindDelimiter(p + Delimiter + rest) == Some(|p|)
  {
    var s := p + Delimiter + rest;
    assert DelimiterAt(s, |p|);
    forall j | 0 <= j < |p|
      ensures !DelimiterAt(s, j)
    {
      if j < |p| - 1 {
        assert !DelimiterAt(p, j);
      }
    }
    FindDelimiterIs(s, |p|);
  }

  lemma WellSplitCons(parts: seq<string>)
    requires WellSplit(parts) && |parts| >= 2
    ensures WellSplit(parts[1..])
    ensures !HasDelimiter(parts[0]) && !EndsWithNewline(parts[0])
  {
    assert forall k :: 0 <= k < |parts| - 1 ==> parts[1..][k] == parts[k + 1];
  }

  /** Splitting a frame, its delimiter and the rest gives the frame and the rest split. */
  lemma SplitAfterFrame(p: string, rest: string)
    requires !HasDelimiter(p) && !EndsWithNewline(p)
    ensures Split(p + Delimiter + rest) == [p] + Split(rest)
  {
    var s := p + Delimiter + rest;
    DelimiterAfterFrame(p, rest);
    SplitAt(s, |p|);
    assert s[..|p|] == p;
    assert s[|p| + 2..] == rest;
  }

  lemma {:induction false} SplitOfWellSplit(parts: seq<string>)
    requires WellSplit(parts)
    ensures Split(Join(parts)) == parts
    decreases |parts|
  {
    if |parts| == 1 {
      assert Join(parts) == parts[0];
      FindDelimiterCorrect(parts[0]);
    } else {
      WellSplitCons(parts);
      SplitOfWellSplit(parts[1..]);
      SplitAfterFrame(parts[0], Join(parts[1..]));
      assert parts == [parts[0]] + parts[1..];
    }
  }

  /** Splitting is characterised by its three properties: `Split(s)` is the ONLY sequence of parts
      that joins back to `s`, holds no delimiter, and has no newline at the end of a non-final part. */
  lemma SplitCharacterised(s: string, parts: seq<string>)
    ensures Split(s) == parts <==> Join(parts) == s && WellSplit(parts)
  {
    if Split(s) == parts {
      SplitJoin(s);
      SplitWellSplit(s);
    }
    if Join(parts) == s && WellSplit(parts) {
      SplitOfWellSplit(parts);
    }
  }

  lemma SplitAt(s: string, i: nat)
    requires FindDelimiter(s) == Some(i)
    ensures Split(s) == [s[..i]] + Split(s[i + 2..])
  {
  }

  lemma InitLastCons(x: string, parts: seq<string>)
    requires |parts| >= 1
    ensures Init([x] + parts) == [x] + Init(parts)
    ensures Last([x] + parts) == Last(parts)
  {
  }

  lemma ConsSplitAssemble(x: string, parts: seq<string>, whole: seq<string>, longer: seq<string>, q: seq<string>)
    requires |parts| >= 1 && whole == [x] + parts
    requires longer == [x] + (Init(parts) + q)
    ensures longer == Init(whole) + q
  {
    InitLastCons(x, parts);
    assert [x] + (Init(parts) + q) == ([x] + Init(parts)) + q;
  }

  lemma SplitExtendsAt(r: string, t: string, i: nat)
    requires FindDelimiter(r) == Some(i)
    ensures Split(r + t) == [r[..i]] + Split(r[i + 2..] + t)
  {
    FindDelimiterExtends(r, t);
    SplitAt(r + t, i);
    assert (r + t)[..i] == r[..i];
    assert (r + t)[i + 2..] == r[i + 2..] + t;
  }

  /** Splitting a longer text re-splits only the last part: the complete frames of `r` stay
      complete frames of `r + t`. */
  lemma {:induction false} SplitAppend(r: string, t: string)
    ensures Split(r + t) == Init(Split(r)) + Split(Last(Split(r)) + t)
    decreases |r|
  {
    if FindDelimiter(r).None? {
      assert Split(r) == [r];
    } else {
      var i := FindDelimiter(r).value;
      var rest := r[i + 2..];
      SplitExtendsAt(r, t, i);
      SplitAppend(rest, t);
      SplitAt(r, i);
      InitLastCons(r[..i], Split(rest));
      ConsSplitAssemble(r[..i], Split(rest), Split(r), Split(r + t), Split(Last(Split(rest)) + t));
    }
  }

  lemma {:induction false} JoinIsTerminated(parts: seq<string>)
    requires |parts| >= 1
    ensures Join(parts) == Terminated(Init(parts)) + Last(parts)
    decreases |parts|
  {
    if |parts| > 1 {
      JoinIsTerminated(parts[1..]);
      assert Init(parts) == [parts[0]] + Init(parts[1..]);
    }
  }

  /** The buffer invariant of one read: the frames dispatched, each with its terminator, followed
      by the new buffer, are exactly the old buffer followed by the chunk; and the new buffer
      holds no delimiter. */
  lemma ReadKeepsBuffer(buffer: string, chunk: string)
    ensures Terminated(Init(Split(buffer + chunk))) + Last(Split(buffer + chunk)) == buffer + chunk
    ensures !HasDelimiter(Last(Split(buffer + chunk)))
  {
    SplitJoin(buffer + chunk);
    JoinIsTerminated(Split(buffer + chunk));
    SplitWellSplit(buffer + chunk);
  }

  /** The frames fed to `handle` in order, starting from state `s`. */
  function Dispatch<S>(handle: (S, string) -> S, s: S, frames: seq<string>): S
    decreases |frames|
  {
    if |frames| == 0 then s
    else handle(Dispatch(handle, s, frames[..|frames| - 1]), frames[|frames| - 1])
  }

  lemma {:induction false} DispatchAppend<S>(handle: (S, string) -> S, s: S, a: seq<string>, b: seq<string>)
    ensures Dispatch(handle, s, a + b) == Dispatch(handle, Dispatch(handle, s, a), b)
    decreases |b|
  {
    if |b| == 0 {
      assert a + b == a;
    } else {
      assert (a + b)[..|a + b| - 1] == a + b[..|b| - 1];
      DispatchAppend(handle, s, a, b[..|b| - 1]);
    }
  }

  /** The state of a read loop: what the handler has built, and the unterminated rest. */
  datatype Reader<S> = Reader(state: S, buffer: string)

  /** One iteration of the read loop: append the chunk, dispatch every segment but the last, and
      keep the last segment as the new buffer. */
  function Feed<S>(handle: (S, string) -> S, r: Reader<S>, chunk: string): Reader<S> {
    var parts := Split(r.buffer + chunk);
    Reader(Dispatch(handle, r.state, Init(parts)), Last(parts))
  }

  /** The read loop over a whole sequence of chunks. */
  function FeedAll<S>(handle: (S, string) -> S, r: Reader<S>, chunks: seq<string>): Reader<S>
    decreases |chunks|
  {
    if |chunks| == 0 then r
    else Feed(handle, FeedAll(handle, r, chunks[..|chunks| - 1]), chunks[|chunks| - 1])
  }

  function Concat(chunks: seq<string>): string
    decreases |chunks|
  {
    if |chunks| == 0 then "" else Concat(chunks[..|chunks| - 1]) + chunks[|chunks| - 1]
  }

  /** The reader as a function of the whole text received: every terminated segment dispatched,
      the unterminated rest kept. */
  function Decode<S>(handle: (S, string) -> S, s0: S, text: string): Reader<S> {
    var parts := Split(text);
    Reader(Dispatch(handle, s0, Init(parts)), Last(parts))
  }

  /** One more read takes the decoding of `text` to the decoding of `text + chunk`. */
  lemma DecodeStep<S>(handle: (S, string) -> S, s0: S, text: string, chunk: string)
    ensures Decode(handle, s0, text + chunk) == Feed(handle, Decode(handle, s0, text), chunk)
  {
    var parts := Split(text);
    var tail := Split(Last(parts) + chunk);
    SplitAppend(text, chunk);
    assert Init(Init(parts) + tail) == Init(parts) + Init(tail);
    assert Last(Init(parts) + tail) == Last(tail);
    DispatchAppend(handle, s0, Init(parts), Init(tail));
  }

  /** Whatever the chunking, the read loop ends where decoding the concatenated text does. */
  lemma {:induction false} FeedAllDecodes<S>(handle: (S, string) -> S, s0: S, chunks: seq<string>)
    ensures FeedAll(handle, Reader(s0, ""), chunks) == Decode(handle, s0, Concat(chunks))
    decreases |chunks|
  {
    if |chunks| == 0 {
      assert Split("") == [""];
    } else {
      FeedAllDecodes(handle, s0, chunks[..|chunks| - 1]);
      DecodeStep(handle, s0, Concat(chunks[..|chunks| - 1]), chunks[|chunks| - 1]);
    }
  }

  /** The frames dispatched, and so everything the handler builds, do not depend on where the
      chunk boundaries fall. */
  lemma ChunkingIrrelevant<S>(handle: (S, string) -> S, s0: S, a: seq<string>, b: seq<string>)
    requires Concat(a) == Concat(b)
    ensures FeedAll(handle, Reader(s0, ""), a) == FeedAll(handle, Reader(s0, ""), b)
  {
    FeedAllDecodes(handle, s0, a);
    FeedAllDecodes(handle, s0, b);
  }

  lemma WellSplitSnoc(frames: seq<string>, tail: string)
    requires forall k :: 0 <= k < |frames| ==> !HasDelimiter(frames[k]) && !EndsWithNewline(frames[k])
    requires !HasDelimiter(tail)
    ensures WellSplit(frames + [tail]) && Init(frames + [tail]) == frames && Last(frames + [tail]) == tail
  {
    var parts := frames + [tail];
    assert forall k :: 0 <= k < |frames| ==> parts[k] == frames[k];
  }

  /** A stream made of terminated frames and an unterminated tail dispatches exactly those frames,
      in order; the tail stays in the buffer and is never dispatched. A frame must not itself hold
      a delimiter or end in a newline: the delimiter would then be found inside or before it. */
  lemma UnterminatedTailDropped<S>(handle: (S, string) -> S, s0: S, frames: seq<string>, tail: string)
    requires forall k :: 0 <= k < |frames| ==> !HasDelimiter(frames[k]) && !EndsWithNewline(frames[k])
    requires !HasDelimiter(tail)
    ensures Decode(handle, s0, Terminated(frames) + tail) == Reader(Dispatch(handle, s0, frames), tail)
  {
    var parts := frames + [tail];
    WellSplitSnoc(frames, tail);
    JoinIsTerminated(parts);
    SplitOfWellSplit(parts);
    var text := Terminated(frames) + tail;
    assert Split(text) == parts;
    assert Init(parts) == frames && Last(parts) == tail;
  }
}

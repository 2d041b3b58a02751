/** The line-framing loop of ReadClient (Payload/Communication/CommandFramework.cpp:645-745). The pipe is a sequence of
    chunks and the dispatcher an arbitrary function of the frames it has been given so far. */
module FrameReader {
  const MAX_FRAME_BYTES := 64 * 1024
  const MAX_PROTOCOL_ERRORS := 3

  datatype FrameResult = Handled | ProtocolError | TransportError

  /** The answer to the last of the frames dispatched so far; it may depend on all of them. */
  type Dispatcher = seq<string> -> FrameResult

  /** Why reading stopped; Ended is the end of the input without any of the other reasons. */
  datatype Verdict = Ended | FrameTooLarge | TooManyErrors | TransportFailed

  /** The position of the first such character, or the length. */
  function Find(s: string, ch: char): (n: nat)
    ensures n <= |s| && (forall k :: 0 <= k < n ==> s[k] != ch) && (n < |s| ==> s[n] == ch)
  {
    if s == "" || s[0] == ch then 0 else 1 + Find(s[1..], ch)
  }

  lemma {:induction false} FindIsFirst(s: string, ch: char, n: nat)
    requires n < |s| && s[n] == ch && forall k :: 0 <= k < n ==> s[k] != ch
    ensures Find(s, ch) == n
  {
    if n > 0 {
      FindIsFirst(s[1..], ch, n - 1);
    }
  }

  function WithoutReturn(line: string): string {
    if line != "" && line[|line| - 1] == '\r' then line[..|line| - 1] else line
  }

  /** What the reader has done, and the incomplete line it still holds. */
  datatype Reading = Reading(frames: seq<string>, errors: nat, verdict: Verdict, rest: string)

  /** Dispatching one more frame. */
  function Dispatched(dispatch: Dispatcher, frames: seq<string>, errors: nat, line: string): Reading {
    var all := frames + [WithoutReturn(line)];
    match dispatch(all)
    case Handled => Reading(all, errors, Ended, "")
    case TransportError => Reading(all, errors, TransportFailed, "")
    case ProtocolError =>
      Reading(all, errors + 1, if errors + 1 >= MAX_PROTOCOL_ERRORS then TooManyErrors else Ended, "")
  }

  /** Reading a whole stream at once, after `frames` and `errors`. */
  function Read(dispatch: Dispatcher, frames: seq<string>, errors: nat, stream: string): Reading
    decreases |stream|
  {
    var n := Find(stream, '\n');
    if n >= MAX_FRAME_BYTES then Reading(frames, errors, FrameTooLarge, "")
    else if n == |stream| then Reading(frames, errors, Ended, stream)
    else
      var r := Dispatched(dispatch, frames, errors, stream[..n]);
      if r.verdict != Ended then r else Read(dispatch, r.frames, r.errors, stream[n + 1..])
  }

  lemma FindInConcat(a: string, b: string, ch: char)
    ensures Find(a, ch) < |a| ==> Find(a + b, ch) == Find(a, ch)
    ensures Find(a, ch) == |a| ==> Find(a + b, ch) >= |a|
  {
    var n := Find(a, ch);
    if n < |a| {
      FindIsFirst(a + b, ch, n);
    } else {
      forall k | 0 <= k < |a| ensures (a + b)[k] != ch {
      }
    }
  }

  /** Reading can pause anywhere: what was read of the first part decides, or the rest goes on with the second. */
  lemma {:induction false} ReadInParts(dispatch: Dispatcher, frames: seq<string>, errors: nat, a: string, b: string)
    ensures var r := Read(dispatch, frames, errors, a);
            Read(dispatch, frames, errors, a + b) ==
            if r.verdict != Ended then r else Read(dispatch, r.frames, r.errors, r.rest + b)
    decreases |a|
  {
    var n := Find(a, '\n');
    FindInConcat(a, b, '\n');
    if n < MAX_FRAME_BYTES && n < |a| {
      var r := Dispatched(dispatch, frames, errors, a[..n]);
      assert (a + b)[..n] == a[..n] && (a + b)[n + 1..] == a[n + 1..] + b;
      if r.verdict == Ended {
        ReadInParts(dispatch, r.frames, r.errors, a[n + 1..], b);
      }
    }
  }

  /** The bytes up to the first empty read, which ends the connection. */
  function Received(chunks: seq<string>): string {
    if chunks == [] || chunks[0] == "" then "" else chunks[0] + Received(chunks[1..])
  }

  function Flatten(chunks: seq<string>): string {
    if chunks == [] then "" else chunks[0] + Flatten(chunks[1..])
  }

  predicate NoneEmpty(chunks: seq<string>) {
    forall k :: 0 <= k < |chunks| ==> chunks[k] != ""
  }

  lemma {:induction false} AllIsReceived(chunks: seq<string>)
    requires NoneEmpty(chunks)
    ensures Received(chunks) == Flatten(chunks)
  {
    if chunks != [] {
      AllIsReceived(chunks[1..]);
    }
  }

  lemma ReceivedStep(chunks: seq<string>, i: nat, buffer: string)
    requires i < |chunks| && chunks[i] != ""
    ensures buffer + Received(chunks[i..]) == (buffer + chunks[i]) + Received(chunks[i + 1..])
  {
    assert chunks[i..][1..] == chunks[i + 1..];
  }

  /** An empty read ends the stream: what comes after it is not received. */
  lemma {:induction false} EmptyReadEnds(a: seq<string>, b: seq<string>)
    ensures Received(a + [""] + b) == Received(a)
  {
    if a != [] {
      EmptyReadEnds(a[1..], b);
      assert (a + [""] + b)[1..] == a[1..] + [""] + b;
    }
  }

  lemma WholeStream(dispatch: Dispatcher, chunks: seq<string>)
    ensures NoneEmpty(chunks) ==> Read(dispatch, [], 0, Received(chunks)) == Read(dispatch, [], 0, Flatten(chunks))
  {
    if NoneEmpty(chunks) {
      AllIsReceived(chunks);
    }
  }

  /** The read loop. The frames handed to the dispatcher and the verdict depend only on the bytes received, not on
      where the chunks are cut; without an empty read these are all bytes. */
  method ReadClient(chunks: seq<string>, dispatch: Dispatcher) returns (frames: seq<string>, verdict: Verdict)
    ensures var r := Read(dispatch, [], 0, Received(chunks)); frames == r.frames && verdict == r.verdict
    ensures NoneEmpty(chunks) ==>
              var r := Read(dispatch, [], 0, Flatten(chunks)); frames == r.frames && verdict == r.verdict
  {
    var lineBuffer, protocolErrors := "", 0;
    frames, verdict := [], Ended;
    ghost var left := Received(chunks);
    ghost var whole := Read(dispatch, [], 0, left);
    WholeStream(dispatch, chunks);
    NothingRead(chunks, left);
    for i := 0 to |chunks|
      invariant Find(lineBuffer, '\n') == |lineBuffer| < MAX_FRAME_BYTES
      invariant left == Received(chunks[i..]) && Read(dispatch, frames, protocolErrors, lineBuffer + left) == whole
      invariant verdict == Ended
    {
      if chunks[i] == "" {
        NothingToRead(dispatch, frames, protocolErrors, lineBuffer, left);
        return;
      }
      ReceivedStep(chunks, i, lineBuffer);
      left := Received(chunks[i + 1..]);
      lineBuffer := lineBuffer + chunks[i];
      frames, protocolErrors, lineBuffer, verdict := DrainLines(dispatch, frames, protocolErrors, lineBuffer, left);
      if verdict != Ended {
        return;
      }
    }
    NothingToRead(dispatch, frames, protocolErrors, lineBuffer, left);
  }

  lemma NothingRead(chunks: seq<string>, left: string)
    ensures chunks[0..] == chunks && "" + left == left
  {
  }

  lemma NothingToRead(dispatch: Dispatcher, frames: seq<string>, errors: nat, buffer: string, left: string)
    requires Find(buffer, '\n') == |buffer| < MAX_FRAME_BYTES && left == ""
    ensures Read(dispatch, frames, errors, buffer + left) == Reading(frames, errors, Ended, buffer)
  {
    assert buffer + left == buffer;
  }

  method ParseAndDispatch(dispatch: Dispatcher, frames: seq<string>, errors: nat, line: string)
    returns (frames': seq<string>, errors': nat, verdict: Verdict)
    ensures Reading(frames', errors', verdict, "") == Dispatched(dispatch, frames, errors, line)
  {
    frames', errors', verdict := frames + [WithoutReturn(line)], errors, Ended;
    var result := dispatch(frames');
    if result == TransportError {
      verdict := TransportFailed;
    } else if result == ProtocolError {
      errors' := errors' + 1;
      if errors' >= MAX_PROTOCOL_ERRORS {
        verdict := TooManyErrors;
      }
    }
  }

  lemma LineAndRest(buffer: string, remaining: string, newline: nat)
    requires newline < |buffer|
    ensures (buffer + remaining)[..newline] == buffer[..newline]
    ensures (buffer + remaining)[newline + 1..] == buffer[newline + 1..] + remaining
  {
  }

  /** The inner loop, which takes complete lines out of the buffer, and the size check after it. */
  method DrainLines(dispatch: Dispatcher, frames: seq<string>, errors: nat, buffer: string, ghost remaining: string)
    returns (frames': seq<string>, errors': nat, buffer': string, verdict: Verdict)
    ensures var whole := Read(dispatch, frames, errors, buffer + remaining);
            if verdict != Ended then frames' == whole.frames && verdict == whole.verdict
            else Read(dispatch, frames', errors', buffer' + remaining) == whole &&
                 Find(buffer', '\n') == |buffer'| < MAX_FRAME_BYTES
  {
    frames', errors', buffer' := frames, errors, buffer;
    ghost var whole := Read(dispatch, frames, errors, buffer + remaining);
    var newline := Find(buffer', '\n');
    while newline < |buffer'|
      invariant newline == Find(buffer', '\n')
      invariant Read(dispatch, frames', errors', buffer' + remaining) == whole
      decreases |buffer'|
    {
      FindInConcat(buffer', remaining, '\n');
      if newline >= MAX_FRAME_BYTES {
        return frames', errors', buffer', FrameTooLarge;
      }
      var line := buffer'[..newline];
      LineAndRest(buffer', remaining, newline);
      buffer' := buffer'[newline + 1..];
      frames', errors', verdict := ParseAndDispatch(dispatch, frames', errors', line);
      if verdict != Ended {
        return;
      }
      newline := Find(buffer', '\n');
    }
    FindInConcat(buffer', remaining, '\n');
    verdict := if |buffer'| >= MAX_FRAME_BYTES then FrameTooLarge else Ended;
  }

  // ---- Splitting at line feeds ----

  function Lines(lines: seq<string>): string {
    if lines == [] then "" else lines[0] + "\n" + Lines(lines[1..])
  }

  predicate NoFeed(s: string) {
    forall k :: 0 <= k < |s| ==> s[k] != '\n'
  }

  /** The reference: dispatch the lines one after the other, stop at the first that is too long. */
  function DispatchLines(dispatch: Dispatcher, frames: seq<string>, errors: nat, lines: seq<string>, tail: string)
    : Reading
    decreases |lines|
  {
    if lines == [] then
      if |tail| >= MAX_FRAME_BYTES then Reading(frames, errors, FrameTooLarge, "")
      else Reading(frames, errors, Ended, tail)
    else if |lines[0]| >= MAX_FRAME_BYTES then Reading(frames, errors, FrameTooLarge, "")
    else
      var r := Dispatched(dispatch, frames, errors, lines[0]);
      if r.verdict != Ended then r else DispatchLines(dispatch, r.frames, r.errors, lines[1..], tail)
  }

  /** Reading is splitting at line feeds: for all lines without one, and an unfinished tail. */
  lemma {:induction false} ReadSplitsLines(dispatch: Dispatcher, frames: seq<string>, errors: nat, lines: seq<string>,
                                           tail: string)
    requires NoFeed(tail) && forall k :: 0 <= k < |lines| ==> NoFeed(lines[k])
    ensures Read(dispatch, frames, errors, Lines(lines) + tail) == DispatchLines(dispatch, frames, errors, lines, tail)
    decreases |lines|
  {
    if lines == [] {
      assert Lines(lines) + tail == tail;
    } else {
      var first, rest := lines[0], Lines(lines[1..]) + tail;
      var stream := Lines(lines) + tail;
      assert stream == first + "\n" + rest;
      FindIsFirst(stream, '\n', |first|);
      assert stream[..|first|] == first && stream[|first| + 1..] == rest;
      var r := Dispatched(dispatch, frames, errors, first);
      ReadSplitsLines(dispatch, r.frames, r.errors, lines[1..], tail);
    }
  }

  /** Never more than three protocol errors are counted, and exactly three stop the reading. */
  lemma {:induction false} ErrorsAreBounded(dispatch: Dispatcher, frames: seq<string>, errors: nat, stream: string)
    requires errors < MAX_PROTOCOL_ERRORS
    ensures var r := Read(dispatch, frames, errors, stream);
            r.errors <= MAX_PROTOCOL_ERRORS && (r.verdict == TooManyErrors <==> r.errors == MAX_PROTOCOL_ERRORS) &&
            (r.verdict == Ended ==> NoFeed(r.rest) && |r.rest| < MAX_FRAME_BYTES)
    decreases |stream|
  {
    var n := Find(stream, '\n');
    if n < MAX_FRAME_BYTES && n < |stream| {
      var r := Dispatched(dispatch, frames, errors, stream[..n]);
      if r.verdict == Ended {
        ErrorsAreBounded(dispatch, r.frames, r.errors, stream[n + 1..]);
      }
    }
  }

  // ---- What reading hands on ----

  predicate EndsInReturn(s: string) {
    s != "" && s[|s| - 1] == '\r'
  }

  /** Texts of lines, each ended by a line feed with or without a return before it. A text without a return after it
      does not end in one itself. */
  predicate AreLines(texts: seq<string>, marks: seq<bool>) {
    |texts| == |marks| &&
    forall k :: 0 <= k < |texts| ==>
      NoFeed(texts[k]) && |texts[k]| + (if marks[k] then 1 else 0) < 65536 &&
      (!marks[k] ==> !EndsInReturn(texts[k]))
  }

  function Stream(texts: seq<string>, marks: seq<bool>): string
    requires |texts| == |marks|
  {
    if texts == [] then "" else texts[0] + (if marks[0] then "\r\n" else "\n") + Stream(texts[1..], marks[1..])
  }

  /** The protocol errors among the first n answers. */
  function Errors(dispatch: Dispatcher, frames: seq<string>, texts: seq<string>, n: nat): nat
    requires n <= |texts|
    decreases n
  {
    if n == 0 then 0
    else (if dispatch(frames + [texts[0]]) == ProtocolError then 1 else 0) +
         Errors(dispatch, frames + [texts[0]], texts[1..], n - 1)
  }

  lemma FirstLineRead(dispatch: Dispatcher, frames: seq<string>, errors: nat, text: string, returned: bool,
                      rest: string)
    requires NoFeed(text) && |text| + (if returned then 1 else 0) < 65536 && (!returned ==> !EndsInReturn(text))
    ensures Read(dispatch, frames, errors, text + (if returned then "\r\n" else "\n") + rest) ==
            var answer := dispatch(frames + [text]);
            if answer == TransportError then Reading(frames + [text], errors, TransportFailed, "")
            else if answer == Handled then Read(dispatch, frames + [text], errors, rest)
            else if errors >= 2 then Reading(frames + [text], errors + 1, TooManyErrors, "")
            else Read(dispatch, frames + [text], errors + 1, rest)
  {
    var line := if returned then text + "\r" else text;
    var stream := text + (if returned then "\r\n" else "\n") + rest;
    assert stream == line + "\n" + rest;
    FindIsFirst(stream, '\n', |line|);
    assert stream[..|line|] == line && stream[|line| + 1..] == rest;
    LineLosesOneReturn(text);
  }

  /** One return at the end of a line is dropped, and nothing else. */
  lemma LineLosesOneReturn(text: string)
    ensures WithoutReturn(text + "\r") == text
    ensures !EndsInReturn(text) ==> WithoutReturn(text) == text
  {
  }

  /** The reading handed on the first n texts: all of them, with the tail kept, or up to the first whose answer is a
      transport failure or the third protocol error. */
  predicate HandsOn(dispatch: Dispatcher, frames: seq<string>, errors: nat, texts: seq<string>, tail: string, n: nat,
                    r: Reading)
    requires n <= |texts|
  {
    r.frames == frames + texts[..n] && r.errors == errors + Errors(dispatch, frames, texts, n) <= 3 &&
    (forall k :: 0 < k < n ==> dispatch(frames + texts[..k]) != TransportError) &&
    (r.verdict == TransportFailed <==> n > 0 && dispatch(frames + texts[..n]) == TransportError) &&
    (r.verdict == TooManyErrors <==> r.errors == 3) && r.verdict != FrameTooLarge &&
    (r.verdict == Ended ==> n == |texts| && r.rest == tail)
  }

  /** Reading hands on the texts of the lines in order, up to the first whose answer stops it. */
  lemma ReadHandsOnLines(dispatch: Dispatcher, texts: seq<string>, marks: seq<bool>, tail: string) returns (n: nat)
    requires AreLines(texts, marks) && NoFeed(tail) && |tail| < 65536
    ensures n <= |texts|
    ensures HandsOn(dispatch, [], 0, texts, tail, n, Read(dispatch, [], 0, Stream(texts, marks) + tail))
  {
    n := LinesAreHandedOn(dispatch, [], 0, texts, marks, tail, Read(dispatch, [], 0, Stream(texts, marks) + tail));
  }

  lemma {:induction false} LinesAreHandedOn(dispatch: Dispatcher, frames: seq<string>, errors: nat, texts: seq<string>,
                                            marks: seq<bool>, tail: string, r: Reading) returns (n: nat)
    requires AreLines(texts, marks) && NoFeed(tail) && |tail| < 65536 && errors < 3
    requires r == Read(dispatch, frames, errors, Stream(texts, marks) + tail)
    ensures n <= |texts| && HandsOn(dispatch, frames, errors, texts, tail, n, r)
    decreases |texts|
  {
    if texts == [] {
      n := 0;
      HandsOnNothing(dispatch, frames, errors, texts, marks, tail);
    } else {
      var given := frames + [texts[0]];
      var after := errors + if dispatch(given) == ProtocolError then 1 else 0;
      FirstOfLines(dispatch, frames, errors, texts, marks, tail, given, after, r);
      if dispatch(given) == TransportError || after == 3 {
        n := 1;
        HandsOnFirst(dispatch, frames, errors, texts, tail, r);
      } else {
        var m := LinesAreHandedOn(dispatch, given, after, texts[1..], marks[1..], tail, r);
        n := m + 1;
        HandsOnLater(dispatch, frames, errors, texts, tail, m, r);
      }
    }
  }

  lemma FirstOfLines(dispatch: Dispatcher, frames: seq<string>, errors: nat, texts: seq<string>, marks: seq<bool>,
                     tail: string, given: seq<string>, after: nat, r: Reading)
    requires texts != [] && AreLines(texts, marks) && errors < 3 && given == frames + [texts[0]]
    requires after == errors + if dispatch(given) == ProtocolError then 1 else 0
    requires r == Read(dispatch, frames, errors, Stream(texts, marks) + tail)
    ensures r == if dispatch(given) == TransportError then Reading(given, errors, TransportFailed, "")
                 else if after == 3 then Reading(given, 3, TooManyErrors, "")
                 else Read(dispatch, given, after, Stream(texts[1..], marks[1..]) + tail)
    ensures AreLines(texts[1..], marks[1..])
  {
    StreamSplits(texts, marks, tail);
    FirstLineRead(dispatch, frames, errors, texts[0], marks[0], Stream(texts[1..], marks[1..]) + tail);
  }

  lemma HandsOnNothing(dispatch: Dispatcher, frames: seq<string>, errors: nat, texts: seq<string>, marks: seq<bool>,
                       tail: string)
    requires texts == [] && marks == [] && NoFeed(tail) && |tail| < 65536 && errors < 3
    ensures HandsOn(dispatch, frames, errors, texts, tail, 0,
                    Read(dispatch, frames, errors, Stream(texts, marks) + tail))
  {
    NoLineRead(dispatch, frames, errors, tail);
    NoTexts(frames, texts);
    assert Stream(texts, marks) + tail == tail;
  }

  lemma HandsOnFirst(dispatch: Dispatcher, frames: seq<string>, errors: nat, texts: seq<string>, tail: string,
                     r: Reading)
    requires texts != [] && errors < 3
    requires var answer, given := dispatch(frames + [texts[0]]), frames + [texts[0]];
             (answer == TransportError && r == Reading(given, errors, TransportFailed, "")) ||
             (answer == ProtocolError && errors == 2 && r == Reading(given, 3, TooManyErrors, ""))
    ensures HandsOn(dispatch, frames, errors, texts, tail, 1, r)
  {
    FirstText(frames, texts, 1);
    NoTexts(frames + [texts[0]], texts[1..]);
    OneError(dispatch, frames, texts);
  }

  lemma HandsOnLater(dispatch: Dispatcher, frames: seq<string>, errors: nat, texts: seq<string>, tail: string, m: nat,
                     r: Reading)
    requires texts != [] && m < |texts| && dispatch(frames + [texts[0]]) != TransportError
    requires var after := errors + if dispatch(frames + [texts[0]]) == ProtocolError then 1 else 0;
             after < 3 && HandsOn(dispatch, frames + [texts[0]], after, texts[1..], tail, m, r)
    ensures HandsOn(dispatch, frames, errors, texts, tail, m + 1, r)
  {
    FirstText(frames, texts, m + 1);
    NoTexts(frames + [texts[0]], texts[1..]);
    forall k | 0 < k < m + 1 ensures dispatch(frames + texts[..k]) != TransportError {
      FirstText(frames, texts, k);
      if k == 1 {
        NoTexts(frames + [texts[0]], texts[1..]);
      }
    }
    if m == 0 {
      NoTexts(frames + [texts[0]], texts[1..]);
    }
  }

  lemma NoTexts(frames: seq<string>, texts: seq<string>)
    ensures frames + texts[..0] == frames
  {
  }

  lemma OneError(dispatch: Dispatcher, frames: seq<string>, texts: seq<string>)
    requires texts != []
    ensures Errors(dispatch, frames, texts, 1) == if dispatch(frames + [texts[0]]) == ProtocolError then 1 else 0
  {
  }

  lemma StreamSplits(texts: seq<string>, marks: seq<bool>, tail: string)
    requires texts != [] && |texts| == |marks|
    ensures Stream(texts, marks) + tail ==
            texts[0] + (if marks[0] then "\r\n" else "\n") + (Stream(texts[1..], marks[1..]) + tail)
  {
  }

  lemma NoLineRead(dispatch: Dispatcher, frames: seq<string>, errors: nat, tail: string)
    requires NoFeed(tail) && |tail| < 65536
    ensures Read(dispatch, frames, errors, tail) == Reading(frames, errors, Ended, tail)
  {
  }

  lemma FirstText(frames: seq<string>, texts: seq<string>, k: nat)
    requires 0 < k <= |texts|
    ensures frames + texts[..k] == (frames + [texts[0]]) + texts[1..][..k - 1]
  {
  }

  /** A line of 65536 bytes or more is never handed on: it stops the reading, complete or not. */
  lemma LongLineStops(dispatch: Dispatcher, frames: seq<string>, errors: nat, line: string, rest: string)
    requires NoFeed(line) && |line| >= 65536
    ensures Read(dispatch, frames, errors, line + rest) == Reading(frames, errors, FrameTooLarge, "")
  {
    FindInConcat(line, rest, '\n');
  }
}

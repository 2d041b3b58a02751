/** Frames of the command protocol (Payload/Communication/CommandProtocol.cpp:61-127, 197-247) over any JSON library. */
module CommandProtocol {
  import opened Basics
  import opened FrameReader

  const MAX_COMMAND_BYTES := 32
  const MAX_REQUEST_ID_BYTES := 128

  datatype IdField = Absent | NotAString | Text(id: string)

  /** The operations of a JSON library that the protocol uses. */
  datatype Library<!Json> = Library(
    parse: string -> Option<Json>, dump: Json -> string, isObject: Json -> bool, requestId: Json -> IdField,
    wrapped: Json -> Json, withId: (Json, string) -> Json)

  /** Parsing undoes dumping, and a dumped object has no line feed and ends with a brace. */
  ghost predicate Lawful<Json(!new)>(lib: Library<Json>) {
    (forall j :: lib.isObject(j) ==>
      lib.parse(lib.dump(j)) == Some(j) && NoFeed(lib.dump(j)) && lib.dump(j) != "" &&
      lib.dump(j)[|lib.dump(j)| - 1] == '}') &&
    (forall j :: lib.isObject(lib.wrapped(j)) && lib.requestId(lib.wrapped(j)) == Absent) &&
    (forall j, id :: lib.isObject(j) ==>
     lib.isObject(lib.withId(j, id)) && lib.requestId(lib.withId(j, id)) == Text(id))
  }

  datatype FrameError =
    | EmptyFrame
    | OverlongFrame
    | MissingDelimiter
    | InvalidCommand
    | MissingJson
    | InvalidJson
    | InvalidJsonType
    | InvalidRequestId

  datatype Parsed<!Json> =
    | Request(command: string, arguments: Json, requestId: Option<string>)
    | Failure(error: FrameError)

  predicate CommandCharacter(ch: char) {
    'a' <= ch <= 'z' || '0' <= ch <= '9' || ch == '_' || ch == '-'
  }

  predicate CommandText(s: string) {
    0 < |s| <= MAX_COMMAND_BYTES && forall k :: 0 <= k < |s| ==> CommandCharacter(s[k])
  }

  predicate ValidId(id: IdField) {
    id.Absent? || (id.Text? && 0 < |id.id| <= MAX_REQUEST_ID_BYTES)
  }

  function ParseFrame<Json(!new)>(lib: Library<Json>, frame: string): Parsed<Json> {
    if frame == "" then Failure(EmptyFrame)
    else if |frame| >= MAX_FRAME_BYTES then Failure(OverlongFrame)
    else
      var delimiter := Find(frame, '\t');
      if delimiter == |frame| then Failure(MissingDelimiter)
      else if !CommandText(frame[..delimiter]) then Failure(InvalidCommand)
      else if frame[delimiter + 1..] == "" then Failure(MissingJson)
      else
        var arguments := lib.parse(frame[delimiter + 1..]);
        if arguments.None? then Failure(InvalidJson)
        else if !lib.isObject(arguments.value) then Failure(InvalidJsonType)
        else
          var id := lib.requestId(arguments.value);
          if !ValidId(id) then Failure(InvalidRequestId)
          else Request(frame[..delimiter], arguments.value, if id.Text? then Some(id.id) else None)
  }

  /** A frame splits into a command and the text of an acceptable object. */
  ghost predicate IsRequestFrame<Json(!new)>(lib: Library<Json>, frame: string, command: string, json: string,
                                             arguments: Json)
  {
    frame == command + "\t" + json && |frame| < MAX_FRAME_BYTES && CommandText(command) && json != "" &&
    lib.parse(json) == Some(arguments) && lib.isObject(arguments) && ValidId(lib.requestId(arguments))
  }

  /** A frame is parsed as a request exactly when it is a command, a tab and an acceptable object, and then as that. */
  lemma ParseSucceedsExactly<Json(!new)>(lib: Library<Json>, frame: string)
    ensures ParseFrame(lib, frame).Request? <==>
            exists command, json, arguments :: IsRequestFrame(lib, frame, command, json, arguments)
    ensures forall command, json, arguments :: IsRequestFrame(lib, frame, command, json, arguments) ==>
              var p := ParseFrame(lib, frame); p.Request? && p.command == command && p.arguments == arguments
  {
    if ParseFrame(lib, frame).Request? {
      var n := Find(frame, '\t');
      assert frame == frame[..n] + "\t" + frame[n + 1..];
      assert IsRequestFrame(lib, frame, frame[..n], frame[n + 1..], ParseFrame(lib, frame).arguments);
    }
    forall command, json, arguments | IsRequestFrame(lib, frame, command, json, arguments)
      ensures var p := ParseFrame(lib, frame); p.Request? && p.command == command && p.arguments == arguments
    {
      RequestFrameIsParsed(lib, frame, command, json, arguments);
    }
  }

  lemma RequestFrameIsParsed<Json(!new)>(lib: Library<Json>, frame: string, command: string, json: string,
                                          arguments: Json)
    requires IsRequestFrame(lib, frame, command, json, arguments)
    ensures var p := ParseFrame(lib, frame); p.Request? && p.command == command && p.arguments == arguments
  {
    forall k | 0 <= k < |command| ensures frame[k] != '\t' {
      assert CommandCharacter(command[k]);
    }
    FindIsFirst(frame, '\t', |command|);
    assert frame[..|command|] == command && frame[|command| + 1..] == json;
  }

  /** A command: 1 to 32 lower-case letters, digits, underscores and hyphens. */
  predicate IsCommand(s: string) {
    1 <= |s| <= 32 &&
    forall k :: 0 <= k < |s| ==> 'a' <= s[k] <= 'z' || '0' <= s[k] <= '9' || s[k] == '_' || s[k] == '-'
  }

  lemma CommandsAgree(s: string)
    ensures CommandText(s) <==> IsCommand(s)
  {
    if CommandText(s) {
      assert forall k :: 0 <= k < |s| ==> CommandCharacter(s[k]);
    }
  }

  /** The error of a refused frame names the first thing that is wrong with it; n is the place of its first tab. */
  lemma ParseFailureNamesReason<Json(!new)>(lib: Library<Json>, frame: string, n: nat)
    requires n <= |frame| && (n < |frame| ==> frame[n] == '\t') && forall k :: 0 <= k < n ==> frame[k] != '\t'
    ensures ParseFrame(lib, frame) ==
            if frame == "" then Failure(EmptyFrame)
            else if |frame| >= 65536 then Failure(OverlongFrame)
            else if n == |frame| then Failure(MissingDelimiter)
            else if !IsCommand(frame[..n]) then Failure(InvalidCommand)
            else if n + 1 == |frame| then Failure(MissingJson) else
            var json := lib.parse(frame[n + 1..]);
            if json.None? then Failure(InvalidJson)
            else if !lib.isObject(json.value) then Failure(InvalidJsonType)
            else match lib.requestId(json.value)
                 case Absent => Request(frame[..n], json.value, None)
                 case NotAString => Failure(InvalidRequestId)
                 case Text(id) =>
                   if 1 <= |id| <= 128 then Request(frame[..n], json.value, Some(id)) else Failure(InvalidRequestId)
  {
    if n < |frame| {
      FindIsFirst(frame, '\t', n);
      CommandsAgree(frame[..n]);
    }
  }

  datatype Encoded = Frame(text: string) | InvalidArgument | LengthError

  function EncodeFrame<Json(!new)>(lib: Library<Json>, command: string, payload: Json): Encoded {
    if !CommandText(command) || !lib.isObject(payload) then InvalidArgument
    else
      var text := command + "\t" + lib.dump(payload) + "\n";
      if |text| > MAX_FRAME_BYTES then LengthError else Frame(text)
  }

  /** A frame is made exactly from a command and an object whose line fits, and it is that line. */
  lemma EncodesExactly<Json(!new)>(lib: Library<Json>, command: string, payload: Json)
    ensures EncodeFrame(lib, command, payload) ==
            if !IsCommand(command) || !lib.isObject(payload) then InvalidArgument
            else if |command| + 1 + |lib.dump(payload)| + 1 > 65536 then LengthError
            else Frame(command + "\t" + lib.dump(payload) + "\n")
  {
    CommandsAgree(command);
  }

  function WithRequestId<Json(!new)>(lib: Library<Json>, payload: Json, id: Option<string>): Json {
    var body := if lib.isObject(payload) then payload else lib.wrapped(payload);
    if id.Some? then lib.withId(body, id.value) else body
  }

  /** The line of an encoded frame, without its line feed. */
  function LineOf<Json(!new)>(lib: Library<Json>, command: string, payload: Json): string {
    command + "\t" + lib.dump(payload)
  }

  lemma EncodedLine<Json(!new)>(lib: Library<Json>, command: string, payload: Json)
    requires Lawful(lib) && EncodeFrame(lib, command, payload).Frame?
    ensures var line := LineOf(lib, command, payload);
            EncodeFrame(lib, command, payload).text == line + "\n" && NoFeed(line) && |line| < MAX_FRAME_BYTES &&
            WithoutReturn(line) == line
  {
    var line, dump := LineOf(lib, command, payload), lib.dump(payload);
    assert line + "\n" == command + "\t" + dump + "\n";
    assert line[|line| - 1] == dump[|dump| - 1];
    forall k | 0 <= k < |line| ensures line[k] != '\n' {
      if k < |command| {
        assert CommandCharacter(command[k]);
      } else if k > |command| {
        assert line[k] == dump[k - |command| - 1];
      }
    }
  }

  /** Parsing an encoded line gives the command and the payload back exactly when its request id is absent or valid. */
  lemma ParseInvertsEncode<Json(!new)>(lib: Library<Json>, command: string, payload: Json)
    requires Lawful(lib) && EncodeFrame(lib, command, payload).Frame?
    ensures var id, parsed := lib.requestId(payload), ParseFrame(lib, LineOf(lib, command, payload));
            if ValidId(id) then parsed == Request(command, payload, if id.Text? then Some(id.id) else None)
            else parsed == Failure(InvalidRequestId)
  {
    var line := LineOf(lib, command, payload);
    EncodedLine(lib, command, payload);
    forall k | 0 <= k < |command| ensures line[k] != '\t' {
      assert CommandCharacter(command[k]);
    }
    FindIsFirst(line, '\t', |command|);
    assert line[..|command|] == command && line[|command| + 1..] == lib.dump(payload);
  }

  /** A payload that is an object is sent as it is, any other is wrapped; a request id is added if there is one. */
  lemma ResponseBody<Json(!new)>(lib: Library<Json>, payload: Json, id: Option<string>)
    ensures WithRequestId(lib, payload, id) ==
            match id
            case None => if lib.isObject(payload) then payload else lib.wrapped(payload)
            case Some(text) => if lib.isObject(payload) then lib.withId(payload, text)
                               else lib.withId(lib.wrapped(payload), text)
  {
  }

  /** A response made from a payload and a request id comes back with that id. */
  lemma ResponseCarriesRequestId<Json(!new)>(lib: Library<Json>, command: string, payload: Json, id: string)
    requires Lawful(lib) && 0 < |id| <= MAX_REQUEST_ID_BYTES
    requires EncodeFrame(lib, command, WithRequestId(lib, payload, Some(id))).Frame?
    ensures ParseFrame(lib, LineOf(lib, command, WithRequestId(lib, payload, Some(id)))) ==
            Request(command, WithRequestId(lib, payload, Some(id)), Some(id))
  {
    ParseInvertsEncode(lib, command, WithRequestId(lib, payload, Some(id)));
  }

  /** A message to be sent. */
  datatype Message<!Json> = Message(command: string, payload: Json)

  ghost predicate Sendable<Json(!new)>(lib: Library<Json>, m: Message<Json>) {
    EncodeFrame(lib, m.command, m.payload).Frame? && ValidId(lib.requestId(m.payload))
  }

  function Sent<Json(!new)>(lib: Library<Json>, messages: seq<Message<Json>>): seq<string> {
    seq(|messages|, k requires 0 <= k < |messages| => LineOf(lib, messages[k].command, messages[k].payload))
  }

  /** The encoded frames, one after the other. */
  function Wire<Json(!new)>(lib: Library<Json>, messages: seq<Message<Json>>): string {
    if messages == [] then "" else
    var e := EncodeFrame(lib, messages[0].command, messages[0].payload);
    (if e.Frame? then e.text else "") + Wire(lib, messages[1..])
  }

  /** A line that comes through the reader as it is. */
  predicate PlainLine(line: string) {
    NoFeed(line) && |line| < MAX_FRAME_BYTES && WithoutReturn(line) == line
  }

  lemma {:induction false} WireIsLines<Json(!new)>(lib: Library<Json>, messages: seq<Message<Json>>)
    requires Lawful(lib) && forall m :: m in messages ==> Sendable(lib, m)
    ensures Wire(lib, messages) == Lines(Sent(lib, messages))
    ensures forall k :: 0 <= k < |messages| ==> PlainLine(Sent(lib, messages)[k])
  {
    forall k | 0 <= k < |messages|
      ensures PlainLine(Sent(lib, messages)[k])
    {
      assert Sendable(lib, messages[k]);
      EncodedLine(lib, messages[k].command, messages[k].payload);
    }
    if messages != [] {
      assert Sendable(lib, messages[0]);
      EncodedLine(lib, messages[0].command, messages[0].payload);
      WireIsLines(lib, messages[1..]);
      assert Sent(lib, messages)[1..] == Sent(lib, messages[1..]);
    }
  }

  /** The dispatcher handles these lines, one after the other, without an error. */
  predicate HandlesAll(dispatch: Dispatcher, frames: seq<string>, lines: seq<string>)
    decreases |lines|
  {
    lines == [] || (dispatch(frames + [lines[0]]) == Handled && HandlesAll(dispatch, frames + [lines[0]], lines[1..]))
  }

  lemma {:induction false} HandledLinesAreDispatched(dispatch: Dispatcher, frames: seq<string>, errors: nat,
                                                     lines: seq<string>)
    requires (forall k :: 0 <= k < |lines| ==> PlainLine(lines[k])) && HandlesAll(dispatch, frames, lines)
    ensures DispatchLines(dispatch, frames, errors, lines, "") == Reading(frames + lines, errors, Ended, "")
    decreases |lines|
  {
    if lines == [] {
      assert frames + lines == frames;
    } else {
      assert PlainLine(lines[0]);
      HandledLinesAreDispatched(dispatch, frames + [lines[0]], errors, lines[1..]);
      assert (frames + [lines[0]]) + lines[1..] == frames + lines;
    }
  }

  /** Whatever the chunks, the frames read from a wire of encoded messages parse back to exactly those messages, in
      order. */
  lemma MessagesComeBack<Json(!new)>(lib: Library<Json>, messages: seq<Message<Json>>, dispatch: Dispatcher,
                                     chunks: seq<string>)
    requires Lawful(lib) && (forall m :: m in messages ==> Sendable(lib, m)) && Received(chunks) == Wire(lib, messages)
    requires HandlesAll(dispatch, [], Sent(lib, messages))
    ensures var r := Read(dispatch, [], 0, Received(chunks));
            r.verdict == Ended && r.rest == "" && |r.frames| == |messages| &&
            forall k :: 0 <= k < |messages| ==>
              var p := ParseFrame(lib, r.frames[k]);
              p.Request? && p.command == messages[k].command && p.arguments == messages[k].payload
  {
    var lines := Sent(lib, messages);
    WireIsLines(lib, messages);
    ReadSplitsLines(dispatch, [], 0, lines, "");
    assert Lines(lines) + "" == Lines(lines);
    HandledLinesAreDispatched(dispatch, [], 0, lines);
    assert [] + lines == lines;
    forall k | 0 <= k < |messages|
      ensures var p := ParseFrame(lib, lines[k]);
              p.Request? && p.command == messages[k].command && p.arguments == messages[k].payload
    {
      assert Sendable(lib, messages[k]);
      ParseInvertsEncode(lib, messages[k].command, messages[k].payload);
    }
  }
}

/**
 * The dispatcher of the static-file server: `read_content_from_file`, `sendResponse`,
 * `handleGET` and the `handle_message` loop. The content directory is a map from a path
 * to the characters of the file stored there; a path that is not in the map is a file
 * `fopen` cannot open. Every `fopen`, `send` and `close` is recorded as an event.
 */
module HttpServer {
  import opened Wrappers
  import opened CStrings
  import opened Io
  import opened Messages
  import opened MessageQueue

  type FileSystem = map<string, string>

  const Response200: string := "HTTP/1.1 200 OK\r\nContent-Type: text/html\r\n\r\n"
  const Response400: string := "HTTP/1.1 400 BAD REQUEST\r\n\r\n"
  const Response404: string := "HTTP/1.1 404 NOT FOUND\r\n\r\n"
  const Crlf: string := "\r\n"

  /** The file served for the target "/". */
  const HomepagePath: string := "content/homepage.html"
  /** The prefix put in front of every other target. */
  const ContentRoot: string := "content"
  /** `char file[1024]`: the buffer the path of a non-root target is printed into. */
  const FilePathSize: nat := 1024

  const GetMarker: string := "GET"
  const Http10: string := "HTTP/1.0\r\n"
  const Http11: string := "HTTP/1.1\r\n"
  const Http20: string := "HTTP/2.0\r\n"

  /** The version token names one of the three supported versions, each followed by CRLF. */
  predicate SupportedVersion(header: string)
  {
    Contains(header, Http10) || Contains(header, Http11) || Contains(header, Http20)
  }

  /**
   * `read_content_from_file`: open the file, then grow a NUL-terminated buffer one
   * character at a time until the end of the file. The buffer holds the whole file
   * followed by a NUL; a file that cannot be opened gives NULL.
   */
  method ReadContentFromFile(fs: FileSystem, path: string) returns (openEvent: Event, content: Option<seq<char>>)
    ensures openEvent == Open(path)
    ensures path !in fs ==> content == None
    ensures path in fs ==> content == Some(fs[path] + [NUL])
  {
    openEvent := Open(path);
    if path !in fs {
      return openEvent, None;
    }
    var file := fs[path];
    var contentSize := 1;
    var buffer := [NUL];
    var pos := 0;
    while pos < |file|
      invariant pos <= |file|
      invariant contentSize == pos + 1 == |buffer|
      invariant buffer == file[..pos] + [NUL]
    {
      var ch := file[pos];
      pos := pos + 1;
      contentSize := contentSize + 1;
      buffer := buffer + [NUL];  // realloc to contentSize characters
      buffer := buffer[contentSize - 2 := ch];
      buffer := buffer[contentSize - 1 := NUL];
      assert buffer == file[..pos] + [NUL];
    }
    assert file[..pos] == file;
    content := Some(buffer);
  }

  /**
   * `sendResponse`: the status line, the content up to its first NUL, then CRLF. The
   * status line is always one of the literals above, none of which holds a NUL, so its
   * `strlen` is its whole length (`Response200IsPlain`, `Response400IsPlain`).
   */
  function SendResponse(caller: int, response: string, content: seq<char>): seq<Event>
  {
    [Send(caller, response), Send(caller, CString(content)), Send(caller, Crlf)]
  }

  /** The 200 status line holds no NUL, so `strlen` in `sendResponse` sends it whole. */
  lemma Response200IsPlain()
    ensures CString(Response200) == Response200
  {
    CStringOfPlain(Response200);
  }

  /** The 400 status line holds no NUL, so `strlen` sends it whole. */
  lemma Response400IsPlain()
    ensures CString(Response400) == Response400
  {
    CStringOfPlain(Response400);
  }

  /** The path a target other than "/" is read from: the content root and the target, cut to fit the buffer. */
  function TargetPath(target: string): (path: string)
    ensures |path| < FilePathSize
    ensures path <= ContentRoot + target
    ensures |ContentRoot + target| < FilePathSize ==> path == ContentRoot + target
    ensures |ContentRoot + target| >= FilePathSize ==> |path| == FilePathSize - 1
  {
    Truncate(ContentRoot + target, FilePathSize)
  }

  /**
   * What `handleGET` does on the connection `caller`, given the space-separated tokens of
   * the request (`ts[1]` is the target `handle_message` passes in, `ts[2]` the version
   * token it reads itself) and the content directory.
   */
  function GetEvents(caller: int, ts: seq<string>, fs: FileSystem): seq<Event>
  {
    if |ts| < 3 || !SupportedVersion(ts[2]) then
      [Send(caller, Response400)]
    else if ts[1] == "/" then
      [Open(HomepagePath)] +
      (if HomepagePath in fs then SendResponse(caller, Response200, fs[HomepagePath] + [NUL])
       else [Send(caller, Response404 + [NUL])])
    else
      var path := TargetPath(ts[1]);
      [Open(path)] +
      (if path in fs then SendResponse(caller, Response200, fs[path] + [NUL])
       else [Send(caller, Response400)])
  }

  /** `handleGET`, reading files through `ReadContentFromFile`. */
  method HandleGet(caller: int, ts: seq<string>, fs: FileSystem) returns (events: seq<Event>)
    ensures events == GetEvents(caller, ts, fs)
  {
    if |ts| < 3 || !(Contains(ts[2], Http10) || Contains(ts[2], Http11) || Contains(ts[2], Http20)) {
      return [Send(caller, Response400)];
    }
    var token := ts[1];
    if token == "/" {
      var openEvent, content := ReadContentFromFile(fs, HomepagePath);
      events := [openEvent];
      if content.None? {
        events := events + [Send(caller, Response404 + [NUL])];
      } else {
        events := events + SendResponse(caller, Response200, content.value);
      }
    } else {
      var file := Truncate(ContentRoot + token, FilePathSize);
      var openEvent, content := ReadContentFromFile(fs, file);
      events := [openEvent];
      if content.Some? {
        events := events + SendResponse(caller, Response200, content.value);
      } else {
        events := events + [Send(caller, Response400)];
      }
    }
  }

  /**
   * What `handle_message` does with one message it has taken out of the queue: a
   * sentinel is only closed; otherwise a text holding "GET" anywhere goes to `handleGET`
   * and, whatever happened, the connection is closed.
   */
  function MessageEvents(m: Message, fs: FileSystem): seq<Event>
  {
    if IsStop(m) then [Close(m.caller)]
    else (if Contains(m.text, GetMarker) then GetEvents(m.caller, Tokens(m.text), fs) else []) + [Close(m.caller)]
  }

  /** The events of handling a run of messages one after the other, in queue order. */
  function DispatchEvents(ms: seq<Message>, fs: FileSystem): seq<Event>
  {
    if ms == [] then [] else DispatchEvents(ms[..|ms| - 1], fs) + MessageEvents(ms[|ms| - 1], fs)
  }

  /**
   * `handle_message`: poll messages and handle them in queue order until the sentinel
   * has been handled (`stopped`) or the queue is empty. The queue is left holding
   * exactly the messages behind the sentinel.
   */
  method HandleMessage(q: Queue, fs: FileSystem) returns (events: seq<Event>, stopped: bool)
    requires q.Valid()
    modifies q
    ensures q.Valid() && q.Repr == old(q.Repr)
    ensures stopped == (FirstStop(old(q.Contents)) < |old(q.Contents)|)
    ensures q.Contents == Remaining(old(q.Contents))
    ensures events == DispatchEvents(Processed(old(q.Contents)), fs)
  {
    ghost var ms := q.Contents;
    ghost var k := 0;
    events, stopped := [], false;
    var polled := q.Poll();
    while polled.Some?
      invariant q.Valid() && q.Repr == old(q.Repr)
      invariant k <= FirstStop(ms) && k <= |ms|
      invariant polled.Some? ==> k < |ms| && polled.value == ms[k] && q.Contents == ms[k + 1..]
      invariant polled.None? ==> k == |ms| && q.Contents == []
      invariant events == DispatchEvents(ms[..k], fs)
      decreases |q.Contents| + (if polled.Some? then 1 else 0)
    {
      var m := polled.value;
      DispatchStep(ms, k, fs);
      if IsStop(m) {
        StopIsFirst(ms, k);
        events := events + [Close(m.caller)];
        stopped := true;
        return;
      }
      assert k < FirstStop(ms);
      var handled := HandleRequest(m, fs);
      events := events + handled;
      k := k + 1;
      polled := q.Poll();
    }
    assert ms[..k] == ms == Processed(ms);
  }

  /** The body of the `handle_message` loop for a message that is not the sentinel. */
  method HandleRequest(m: Message, fs: FileSystem) returns (handled: seq<Event>)
    requires !IsStop(m)
    ensures handled == MessageEvents(m, fs)
  {
    handled := [];
    if Contains(m.text, GetMarker) {
      handled := HandleGet(m.caller, Tokens(m.text), fs);
    }
    handled := handled + [Close(m.caller)];
  }

  /** Handling one more message appends its events. */
  lemma DispatchStep(ms: seq<Message>, k: nat, fs: FileSystem)
    requires k < |ms|
    ensures DispatchEvents(ms[..k + 1], fs) == DispatchEvents(ms[..k], fs) + MessageEvents(ms[k], fs)
  {
    assert ms[..k + 1][..k] == ms[..k];
  }

  // ----- Properties of the handler -----

  /** A request line without a version token naming a supported version gets the 400 line and nothing is opened. */
  lemma BadRequestLine(caller: int, ts: seq<string>, fs: FileSystem)
    requires |ts| < 3 || !SupportedVersion(ts[2])
    ensures GetEvents(caller, ts, fs) == [Send(caller, Response400)]
    ensures OpenedPaths(GetEvents(caller, ts, fs)) == []
  {
    OneEvent(Send(caller, Response400));
  }

  /** A response sends the status line, the file up to its first NUL and CRLF, and neither opens nor closes anything. */
  lemma SendResponseBytes(caller: int, response: string, file: string)
    ensures SentBytes(SendResponse(caller, response, file + [NUL])) == response + CString(file) + Crlf
    ensures ClosedFds(SendResponse(caller, response, file + [NUL])) == []
    ensures OpenedPaths(SendResponse(caller, response, file + [NUL])) == []
  {
    CStringTerminated(file);
    var a, b, c := Send(caller, response), Send(caller, CString(file + [NUL])), Send(caller, Crlf);
    assert SendResponse(caller, response, file + [NUL]) == [a] + [b] + [c];
    OneEvent(a);
    OneEvent(b);
    OneEvent(c);
    SentBytesAppend([a] + [b], [c]);
    SentBytesAppend([a], [b]);
    ClosedFdsAppend([a] + [b], [c]);
    ClosedFdsAppend([a], [b]);
    OpenedPathsAppend([a] + [b], [c]);
    OpenedPathsAppend([a], [b]);
  }

  /** Opening `path` and then sending `rest`: the one file opened is `path`, the bytes sent are those of `rest`. */
  lemma OpenThen(path: string, rest: seq<Event>)
    requires OpenedPaths(rest) == []
    ensures OpenedPaths([Open(path)] + rest) == [path]
    ensures SentBytes([Open(path)] + rest) == SentBytes(rest)
    ensures ClosedFds([Open(path)] + rest) == ClosedFds(rest)
  {
    OneEvent(Open(path));
    OpenedPathsAppend([Open(path)], rest);
    SentBytesAppend([Open(path)], rest);
    ClosedFdsAppend([Open(path)], rest);
  }

  /** Target "/" with the homepage present: it is opened and served with a 200 response. */
  lemma RootFound(caller: int, ts: seq<string>, fs: FileSystem)
    requires |ts| >= 3 && SupportedVersion(ts[2]) && ts[1] == "/"
    requires HomepagePath in fs
    ensures GetEvents(caller, ts, fs) == [Open(HomepagePath)] + SendResponse(caller, Response200, fs[HomepagePath] + [NUL])
    ensures OpenedPaths(GetEvents(caller, ts, fs)) == [HomepagePath]
    ensures SentBytes(GetEvents(caller, ts, fs)) == Response200 + CString(fs[HomepagePath]) + Crlf
  {
    SendResponseBytes(caller, Response200, fs[HomepagePath]);
    OpenThen(HomepagePath, SendResponse(caller, Response200, fs[HomepagePath] + [NUL]));
  }

  /** Target "/" with no homepage: the 404 line is sent with its terminating NUL, 27 bytes in all. */
  lemma RootMissing(caller: int, ts: seq<string>, fs: FileSystem)
    requires |ts| >= 3 && SupportedVersion(ts[2]) && ts[1] == "/"
    requires HomepagePath !in fs
    ensures GetEvents(caller, ts, fs) == [Open(HomepagePath), Send(caller, Response404 + [NUL])]
    ensures SentBytes(GetEvents(caller, ts, fs)) == Response404 + [NUL]
    ensures |SentBytes(GetEvents(caller, ts, fs))| == 27
  {
    OneEvent(Send(caller, Response404 + [NUL]));
    OpenThen(HomepagePath, [Send(caller, Response404 + [NUL])]);
  }

  /**
   * Any other target: the file under the content root is opened; if it exists it is
   * served with a 200 response, otherwise only the 400 line is sent.
   */
  lemma OtherTarget(caller: int, ts: seq<string>, fs: FileSystem)
    requires |ts| >= 3 && SupportedVersion(ts[2]) && ts[1] != "/"
    ensures OpenedPaths(GetEvents(caller, ts, fs)) == [TargetPath(ts[1])]
    ensures TargetPath(ts[1]) in fs ==>
              GetEvents(caller, ts, fs) ==
              [Open(TargetPath(ts[1]))] + SendResponse(caller, Response200, fs[TargetPath(ts[1])] + [NUL])
    ensures TargetPath(ts[1]) in fs ==>
              SentBytes(GetEvents(caller, ts, fs)) == Response200 + CString(fs[TargetPath(ts[1])]) + Crlf
    ensures TargetPath(ts[1]) !in fs ==>
              GetEvents(caller, ts, fs) == [Open(TargetPath(ts[1])), Send(caller, Response400)]
  {
    var path := TargetPath(ts[1]);
    if path in fs {
      SendResponseBytes(caller, Response200, fs[path]);
      OpenThen(path, SendResponse(caller, Response200, fs[path] + [NUL]));
    } else {
      OneEvent(Send(caller, Response400));
      OpenThen(path, [Send(caller, Response400)]);
    }
  }

  /** Everything `handleGET` sends goes to the connection it was given. */
  lemma GetEventsSendToCaller(caller: int, ts: seq<string>, fs: FileSystem)
    ensures forall e | e in GetEvents(caller, ts, fs) && e.Send? :: e.fd == caller
  {
  }

  /** `handleGET` never closes the connection itself. */
  lemma GetEventsCloseNothing(caller: int, ts: seq<string>, fs: FileSystem)
    ensures ClosedFds(GetEvents(caller, ts, fs)) == []
  {
    if |ts| < 3 || !SupportedVersion(ts[2]) {
      OneEvent(Send(caller, Response400));
    } else {
      var path := if ts[1] == "/" then HomepagePath else TargetPath(ts[1]);
      if path in fs {
        SendResponseBytes(caller, Response200, fs[path]);
        OpenThen(path, SendResponse(caller, Response200, fs[path] + [NUL]));
      } else {
        var reply := if ts[1] == "/" then Response404 + [NUL] else Response400;
        OneEvent(Send(caller, reply));
        OpenThen(path, [Send(caller, reply)]);
      }
    }
  }

  // ----- Properties of the dispatcher -----

  /** The sentinel gets no byte sent: its connection is only closed. */
  lemma StopGetsNoResponse(m: Message, fs: FileSystem)
    requires IsStop(m)
    ensures MessageEvents(m, fs) == [Close(m.caller)]
    ensures SentBytes(MessageEvents(m, fs)) == []
  {
    OneEvent(Close(m.caller));
  }

  /** A message holding neither the sentinel nor "GET" anywhere gets no response, only the close. */
  lemma NoGetNoResponse(m: Message, fs: FileSystem)
    requires !IsStop(m) && !Contains(m.text, GetMarker)
    ensures MessageEvents(m, fs) == [Close(m.caller)]
  {
  }

  /** Every handled message has its connection closed exactly once, as the last thing done with it. */
  lemma MessageClosesCallerOnce(m: Message, fs: FileSystem)
    ensures ClosedFds(MessageEvents(m, fs)) == [m.caller]
    ensures MessageEvents(m, fs)[|MessageEvents(m, fs)| - 1] == Close(m.caller)
  {
    if !IsStop(m) {
      var get := if Contains(m.text, GetMarker) then GetEvents(m.caller, Tokens(m.text), fs) else [];
      if Contains(m.text, GetMarker) {
        GetEventsCloseNothing(m.caller, Tokens(m.text), fs);
      }
      ClosedFdsAppend(get, [Close(m.caller)]);
    }
  }

  /** Handling two runs of messages one after the other is handling their concatenation: queue order is kept. */
  lemma {:induction false} DispatchEventsAppend(a: seq<Message>, b: seq<Message>, fs: FileSystem)
    ensures DispatchEvents(a + b, fs) == DispatchEvents(a, fs) + DispatchEvents(b, fs)
    decreases |b|
  {
    if b == [] {
      assert a + b == a;
    } else {
      var b' := b[..|b| - 1];
      assert (a + b)[..|a + b| - 1] == a + b';
      DispatchEventsAppend(a, b', fs);
    }
  }

  /** The dispatcher closes the callers of the messages it handles, each exactly once, in queue order. */
  lemma {:induction false} DispatchClosesEachCaller(ms: seq<Message>, fs: FileSystem)
    ensures ClosedFds(DispatchEvents(ms, fs)) == Callers(ms)
    decreases |ms|
  {
    if ms != [] {
      var init, last := ms[..|ms| - 1], ms[|ms| - 1];
      DispatchClosesEachCaller(init, fs);
      MessageClosesCallerOnce(last, fs);
      ClosedFdsAppend(DispatchEvents(init, fs), MessageEvents(last, fs));
      assert ms == init + [last];
      CallersAppend(init, [last]);
    }
  }

  /**
   * A request line of three single-space-separated words (method, target, version
   * token) is tokenised into exactly those words, so its target and version reach
   * `handleGET`.
   */
  lemma RequestLineTokens(method_: string, target: string, version: string)
    requires method_ != [] && target != [] && version != []
    requires ' ' !in method_ && ' ' !in target && ' ' !in version
    ensures Tokens(method_ + " " + target + " " + version) == [method_, target, version]
  {
    var ws := [method_, target, version];
    assert JoinSpaced(ws[2..]) == version;
    assert JoinSpaced(ws[1..]) == target + " " + version;
    assert JoinSpaced(ws) == method_ + " " + (target + " " + version);
    assert method_ + " " + target + " " + version == method_ + " " + (target + " " + version);
    TokensOfJoinSpaced(ws);
  }
}

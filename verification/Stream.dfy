/**
  The streamed chat reply: the generators of `api_chat_stream` in `boddos/api/server.py` and the
  reader of `sendMessage` in `boddos/ui/app.js`.

  The stream is what the generators write after `json.dumps`, which is ASCII, so a `char` is at
  once a byte and a decoded character, and any cut of the bytes is a cut of the characters.
*/
module Stream {
  import opened Wrappers
  import opened JsonText

  // ------------------------------------------------------------------ messages

  datatype Message = Chunk(t: Text) | Done(servedBy: Option<Text>)

  /** The two fields the browser looks at; an absent one is empty. */
  datatype Object = Object(t: Text, servedBy: Text)

  const CHUNK_HEAD := "{\"t\": \""
  const DONE := "{\"done\": true}"
  const SERVED_HEAD := "{\"done\": true, \"served_by\": \""

  function Dumps(m: Message): string {
    match m
    case Chunk(t) => CHUNK_HEAD + EscapeAll(t) + "\"}"
    case Done(None) => DONE
    case Done(Some(id)) => SERVED_HEAD + EscapeAll(id) + "\"}"
  }

  function ObjectOf(m: Message): Object {
    match m
    case Chunk(t) => Object(t, [])
    case Done(None) => Object([], [])
    case Done(Some(id)) => Object([], id)
  }

  function Inside(s: string): Option<Text> {
    match ReadRest(s)
    case Some((t, "}")) => Some(t)
    case _ => None
  }

  /** A parser for the objects the server writes; anything else counts as a syntax error. */
  function Parse(s: string): Option<Object> {
    if CHUNK_HEAD <= s then
      match Inside(s[|CHUNK_HEAD|..]) case Some(t) => Some(Object(t, [])) case None => None
    else if SERVED_HEAD <= s then
      match Inside(s[|SERVED_HEAD|..]) case Some(id) => Some(Object([], id)) case None => None
    else if s == DONE then Some(Object([], []))
    else None
  }

  /** A parser that makes of the objects written here what JSON means by them. */
  ghost predicate ReadsObjects(parse: string -> Option<Object>) {
    && (forall t :: parse("{\"t\": \"" + EscapeAll(t) + "\"}") == Some(Object(t, [])))
    && (forall id :: parse("{\"done\": true, \"served_by\": \"" + EscapeAll(id) + "\"}") == Some(Object([], id)))
    && parse("{\"done\": true}") == Some(Object([], []))
  }

  /** Such a parser reads back what the server writes. */
  lemma DumpsAreRead(parse: string -> Option<Object>, m: Message)
    requires ReadsObjects(parse)
    ensures parse(Dumps(m)) == Some(ObjectOf(m))
  {
    match m
    case Chunk(t) => assert Dumps(m) == "{\"t\": \"" + EscapeAll(t) + "\"}";
    case Done(None) =>
    case Done(Some(id)) => assert Dumps(m) == "{\"done\": true, \"served_by\": \"" + EscapeAll(id) + "\"}";
  }

  lemma HeadAndInside(head: string, t: Text)
    ensures var s := head + EscapeAll(t) + "\"}";
            head <= s && Inside(s[|head|..]) == Some(t)
  {
    var s := head + EscapeAll(t) + "\"}";
    TextReadsBack(t, "}");
    assert s == head + (EscapeAll(t) + "\"" + "}");
    assert s[|head|..] == EscapeAll(t) + "\"" + "}";
  }

  lemma ParseReadsChunk(t: Text)
    ensures Parse(Dumps(Chunk(t))) == Some(Object(t, []))
  {
    HeadAndInside(CHUNK_HEAD, t);
  }

  lemma HeadsDiffer(s: string)
    requires SERVED_HEAD <= s
    ensures !(CHUNK_HEAD <= s)
  {
    assert s[2] == SERVED_HEAD[2] == 'd' && CHUNK_HEAD[2] == 't';
  }

  lemma ParseReadsDone(id: Text)
    ensures Parse(Dumps(Done(Some(id)))) == Some(Object([], id))
  {
    HeadAndInside(SERVED_HEAD, id);
    HeadsDiffer(Dumps(Done(Some(id))));
  }

  /** There is such a parser. */
  lemma ParseReadsObjects()
    ensures ReadsObjects(Parse)
  {
    forall t ensures Parse("{\"t\": \"" + EscapeAll(t) + "\"}") == Some(Object(t, [])) {
      ParseReadsChunk(t);
      assert Dumps(Chunk(t)) == "{\"t\": \"" + EscapeAll(t) + "\"}";
    }
    forall id ensures Parse("{\"done\": true, \"served_by\": \"" + EscapeAll(id) + "\"}") == Some(Object([], id)) {
      ParseReadsDone(id);
      assert Dumps(Done(Some(id))) == "{\"done\": true, \"served_by\": \"" + EscapeAll(id) + "\"}";
    }
    assert DONE[2] == 'd' && CHUNK_HEAD[2] == 't' && |SERVED_HEAD| > |DONE|;
  }

  lemma DumpsIsPrintable(m: Message)
    ensures Printable(Dumps(m)) && |Dumps(m)| >= 2
    ensures Dumps(m)[0] == '{' && Dumps(m)[|Dumps(m)| - 1] == '}'
  {
    match m
    case Chunk(t) => EscapedIsPrintable(t);
    case Done(None) =>
    case Done(Some(id)) => EscapedIsPrintable(id);
  }

  // ------------------------------------------------------------------ lines

  /** The complete lines of a text and the unfinished line after them. */
  datatype Lines = Lines(complete: seq<string>, rest: string)

  function Cut(s: string): Lines {
    if s == "" then Lines([], "")
    else
      var before, c := Cut(s[..|s| - 1]), s[|s| - 1];
      if c == '\n' then Lines(before.complete + [before.rest], "") else Lines(before.complete, before.rest + [c])
  }

  lemma CutLast(s: string, c: char)
    ensures Cut(s + [c]) ==
            if c == '\n' then Lines(Cut(s).complete + [Cut(s).rest], "") else Lines(Cut(s).complete, Cut(s).rest + [c])
  {
    assert (s + [c])[..|s|] == s;
  }

  lemma {:induction false} NoBreakIsRest(s: string)
    requires '\n' !in s
    ensures Cut(s) == Lines([], s)
  {
    if s != "" {
      NoBreakIsRest(s[..|s| - 1]);
      assert s == s[..|s| - 1] + [s[|s| - 1]];
    }
  }

  lemma {:induction false} RestHasNoBreak(s: string)
    ensures '\n' !in Cut(s).rest
  {
    if s != "" {
      RestHasNoBreak(s[..|s| - 1]);
    }
  }

  /** Cutting on the fly: the unfinished line is carried over to the next piece. */
  lemma {:induction false} CutConcat(a: string, b: string)
    ensures Cut(a + b) == Lines(Cut(a).complete + Cut(Cut(a).rest + b).complete, Cut(Cut(a).rest + b).rest)
  {
    if b == "" {
      RestHasNoBreak(a);
      NoBreakIsRest(Cut(a).rest);
      assert a + b == a && Cut(a).rest + b == Cut(a).rest;
    } else {
      var b', c := b[..|b| - 1], b[|b| - 1];
      CutConcat(a, b');
      CutLast(a + b', c);
      CutLast(Cut(a).rest + b', c);
      assert a + b == a + b' + [c] && Cut(a).rest + b == Cut(a).rest + b' + [c];
    }
  }

  /** A text after whole lines is cut by itself. */
  lemma CutAfter(before: string, part: string)
    requires Cut(before).rest == ""
    ensures Cut(before + part) == Lines(Cut(before).complete + Cut(part).complete, Cut(part).rest)
  {
    CutConcat(before, part);
    assert Cut(before).rest + part == part;
  }

  // ------------------------------------------------------------------ the reader

  predicate IsSpace(c: char) {
    || 9 as char <= c <= 13 as char || c == ' ' || c == 0xA0 as char || c == 0xFEFF as char
    || c == 0x1680 as char || 0x2000 as char <= c <= 0x200A as char || c == 0x2028 as char || c == 0x2029 as char
    || c == 0x202F as char || c == 0x205F as char || c == 0x3000 as char
  }

  function Trim(s: string): string
    decreases |s|
  {
    if s != "" && IsSpace(s[0]) then Trim(s[1..])
    else if s != "" && IsSpace(s[|s| - 1]) then Trim(s[..|s| - 1])
    else s
  }

  /** The reply so far, and whether a line failed to parse, which ends the reading. */
  datatype Reply = Reply(full: Text, failed: bool)

  function ReadLine(parse: string -> Option<Object>, r: Reply, line: string): Reply {
    if r.failed || !("data:" <= line) then r
    else match parse(Trim(line[5..]))
      case None => Reply(r.full, true)
      case Some(obj) => Reply(r.full + obj.t, false)
  }

  function ReadLines(parse: string -> Option<Object>, r: Reply, lines: seq<string>): Reply {
    if lines == [] then r else ReadLine(parse, ReadLines(parse, r, lines[..|lines| - 1]), lines[|lines| - 1])
  }

  /** A line that does not begin with `data:` changes nothing; one that does is parsed without that and its margins. */
  lemma ReadLineInPlain(parse: string -> Option<Object>, full: Text, line: string, inside: string)
    ensures !("data:" <= line) ==> ReadLine(parse, Reply(full, false), line) == Reply(full, false)
    ensures line == "data: " + inside && inside != "" && !IsSpace(inside[0]) && !IsSpace(inside[|inside| - 1]) ==>
              ReadLine(parse, Reply(full, false), line) ==
              if parse(inside).Some? then Reply(full + parse(inside).value.t, false) else Reply(full, true)
  {
    if line == "data: " + inside {
      assert line[5..] == " " + inside && "data:" <= line;
      assert (" " + inside)[1..] == inside && (" " + inside)[0] == ' ';
      assert inside != "" && !IsSpace(inside[0]) && !IsSpace(inside[|inside| - 1]) ==> Trim(inside) == inside;
      assert Trim(" " + inside) == Trim(inside);
    }
  }

  lemma ReadLinesLast(parse: string -> Option<Object>, r: Reply, lines: seq<string>, l: string)
    ensures ReadLines(parse, r, lines + [l]) == ReadLine(parse, ReadLines(parse, r, lines), l)
  {
    assert (lines + [l])[..|lines|] == lines;
  }

  /** What the reader makes of a whole text: its complete lines, up to the first that does not parse. */
  function Assembled(parse: string -> Option<Object>, text: string): Reply {
    ReadLines(parse, Reply([], false), Cut(text).complete)
  }

  function Concat(pieces: seq<string>): string {
    if pieces == [] then "" else Concat(pieces[..|pieces| - 1]) + pieces[|pieces| - 1]
  }

  lemma {:induction false} ReadLinesConcat(parse: string -> Option<Object>, r: Reply, a: seq<string>, b: seq<string>)
    ensures ReadLines(parse, r, a + b) == ReadLines(parse, ReadLines(parse, r, a), b)
  {
    if b == [] {
      assert a + b == a;
    } else {
      ReadLinesConcat(parse, r, a, b[..|b| - 1]);
      assert (a + b)[..|a + b| - 1] == a + b[..|b| - 1];
    }
  }

  lemma {:induction false} FailedStays(parse: string -> Option<Object>, r: Reply, lines: seq<string>)
    requires r.failed
    ensures ReadLines(parse, r, lines) == r
  {
    if lines != [] {
      FailedStays(parse, r, lines[..|lines| - 1]);
    }
  }

  lemma ConcatUpTo(pieces: seq<string>, i: nat)
    requires i < |pieces|
    ensures Concat(pieces[..i + 1]) == Concat(pieces[..i]) + pieces[i]
  {
    assert pieces[..i + 1][..i] == pieces[..i];
  }

  lemma {:induction false} ConcatSplit(pieces: seq<string>, i: nat)
    requires i <= |pieces|
    ensures Concat(pieces) == Concat(pieces[..i]) + Concat(pieces[i..])
    decreases |pieces|
  {
    if i == |pieces| {
      assert pieces[..i] == pieces;
      assert pieces[i..] == [];
    } else {
      var init := pieces[..|pieces| - 1];
      ConcatSplit(init, i);
      assert init[..i] == pieces[..i] && pieces[i..][..|pieces[i..]| - 1] == init[i..];
    }
  }

  /** Reading on after the pieces so far cannot change a reply that has failed. */
  lemma FailureIsFinal(parse: string -> Option<Object>, a: string, b: string)
    requires Assembled(parse, a).failed
    ensures Assembled(parse, a + b) == Assembled(parse, a)
  {
    CutConcat(a, b);
    ReadLinesConcat(parse, Reply([], false), Cut(a).complete, Cut(Cut(a).rest + b).complete);
    FailedStays(parse, Assembled(parse, a), Cut(Cut(a).rest + b).complete);
  }

  /** The inner loop of `sendMessage`, which an unparsable line leaves by an exception. */
  method ReadCompleteLines(parse: string -> Option<Object>, start: Reply, lines: seq<string>) returns (reply: Reply)
    ensures reply == ReadLines(parse, start, lines)
  {
    reply := start;
    var j := 0;
    while j < |lines| && !reply.failed
      invariant 0 <= j <= |lines|
      invariant reply == ReadLines(parse, start, lines[..j])
    {
      assert lines[..j + 1] == lines[..j] + [lines[j]];
      ReadLinesLast(parse, start, lines[..j], lines[j]);
      reply := ReadLine(parse, reply, lines[j]);
      j := j + 1;
    }
    assert lines == lines[..j] + lines[j..];
    ReadLinesConcat(parse, start, lines[..j], lines[j..]);
    if reply.failed {
      FailedStays(parse, reply, lines[j..]);
    }
  }

  /** One more piece: its lines are read with the unfinished line before it. */
  lemma PieceReadsOn(parse: string -> Option<Object>, before: string, piece: string)
    ensures var cut := Cut(Cut(before).rest + piece);
            && Assembled(parse, before + piece) == ReadLines(parse, Assembled(parse, before), cut.complete)
            && Cut(before + piece).rest == cut.rest
  {
    CutConcat(before, piece);
    ReadLinesConcat(parse, Reply([], false), Cut(before).complete, Cut(Cut(before).rest + piece).complete);
  }

  /** The loop of `sendMessage`. However the stream is cut into pieces, the reply is that of the whole text. */
  method ReadStream(parse: string -> Option<Object>, pieces: seq<string>) returns (reply: Reply)
    ensures reply == Assembled(parse, Concat(pieces))
  {
    var buf := "";
    reply := Reply([], false);
    var i := 0;
    while i < |pieces| && !reply.failed
      invariant 0 <= i <= |pieces|
      invariant reply == Assembled(parse, Concat(pieces[..i]))
      invariant !reply.failed ==> buf == Cut(Concat(pieces[..i])).rest
    {
      ConcatUpTo(pieces, i);
      PieceReadsOn(parse, Concat(pieces[..i]), pieces[i]);
      var cut := Cut(buf + pieces[i]);
      buf := cut.rest;
      reply := ReadCompleteLines(parse, reply, cut.complete);
      i := i + 1;
    }
    ConcatSplit(pieces, i);
    if reply.failed {
      FailureIsFinal(parse, Concat(pieces[..i]), Concat(pieces[i..]));
    } else {
      assert pieces[..i] == pieces;
    }
  }

  // ------------------------------------------------------------------ the writers

  function LineOf(m: Message): string {
    "data: " + Dumps(m)
  }

  function EventOf(m: Message): string {
    LineOf(m) + "\n\n"
  }

  lemma Associate<T>(a: seq<T>, b: seq<T>, c: seq<T>)
    ensures a + b + c == a + (b + c)
  {
  }

  function Encoded(ms: seq<Message>): string {
    if ms == [] then "" else Encoded(ms[..|ms| - 1]) + EventOf(ms[|ms| - 1])
  }

  /** The bytes of a chunk event. */
  function ChunkBytes(t: Text): string {
    "data: {\"t\": \"" + EscapeAll(t) + "\"}\n\n"
  }

  /** The bytes of the closing event of a node, and of a reply that fell back. */
  function ServedBytes(id: Text): string {
    "data: {\"done\": true, \"served_by\": \"" + EscapeAll(id) + "\"}\n\n"
  }

  const DONE_BYTES := "data: {\"done\": true}\n\n"

  lemma Glue(a: string, head: string, inside: string, tail: string, z: string)
    ensures a + (head + inside + tail) + z == (a + head) + inside + (tail + z)
  {
  }

  lemma ChunkEventBytes(t: Text)
    ensures EventOf(Chunk(t)) == ChunkBytes(t)
  {
    Glue("data: ", CHUNK_HEAD, EscapeAll(t), "\"}", "\n\n");
    assert "data: " + CHUNK_HEAD == "data: {\"t\": \"";
    assert "\"}" + "\n\n" == "\"}\n\n";
  }

  lemma ServedEventBytes(id: Text)
    ensures EventOf(Done(Some(id))) == ServedBytes(id)
  {
    Glue("data: ", SERVED_HEAD, EscapeAll(id), "\"}", "\n\n");
    assert "data: " + SERVED_HEAD == "data: {\"done\": true, \"served_by\": \"";
    assert "\"}" + "\n\n" == "\"}\n\n";
  }

  lemma DoneEventBytes()
    ensures EventOf(Done(None)) == DONE_BYTES
  {
  }

  function AllBytes(chunks: seq<Text>): string {
    Concat(seq(|chunks|, i requires 0 <= i < |chunks| => ChunkBytes(chunks[i])))
  }

  function Events(ms: seq<Message>): seq<string> {
    seq(|ms|, i requires 0 <= i < |ms| => EventOf(ms[i]))
  }

  lemma {:induction false} EncodedIsConcat(ms: seq<Message>)
    ensures Encoded(ms) == Concat(Events(ms))
  {
    if ms == [] {
      assert Events(ms) == [];
    } else {
      EncodedIsConcat(ms[..|ms| - 1]);
      assert Events(ms)[..|ms| - 1] == Events(ms[..|ms| - 1]);
    }
  }

  lemma EncodedOneMore(ms: seq<Message>, m: Message)
    ensures Encoded(ms + [m]) == Encoded(ms) + EventOf(m)
  {
    assert (ms + [m])[..|ms|] == ms;
  }

  lemma EncodedIsBytes(chunks: seq<Text>)
    ensures Encoded(Chunks(chunks)) == AllBytes(chunks)
  {
    EncodedIsConcat(Chunks(chunks));
    var bytes := seq(|chunks|, i requires 0 <= i < |chunks| => ChunkBytes(chunks[i]));
    forall i | 0 <= i < |chunks| ensures Events(Chunks(chunks))[i] == bytes[i] {
      ChunkEventBytes(chunks[i]);
    }
    assert Events(Chunks(chunks)) == bytes;
  }

  function TextOf(ms: seq<Message>): Text {
    if ms == [] then [] else TextOf(ms[..|ms| - 1]) + ObjectOf(ms[|ms| - 1]).t
  }

  function Chunks(chunks: seq<Text>): seq<Message> {
    seq(|chunks|, i requires 0 <= i < |chunks| => Chunk(chunks[i]))
  }

  function Joined(chunks: seq<Text>): Text {
    if chunks == [] then [] else Joined(chunks[..|chunks| - 1]) + chunks[|chunks| - 1]
  }

  /** The loop that both generators have: one event per provider chunk. */
  method EncodeChunks(chunks: seq<Text>) returns (out: string)
    ensures out == Encoded(Chunks(chunks))
  {
    out := "";
    for i := 0 to |chunks|
      invariant out == Encoded(Chunks(chunks[..i]))
    {
      assert Chunks(chunks[..i + 1])[..i] == Chunks(chunks[..i]);
      out := out + EventOf(Chunk(chunks[i]));
    }
    assert chunks[..|chunks|] == chunks;
  }

  /** `gen_local`: one event per provider chunk and a closing one. */
  method GenLocal(chunks: seq<Text>, id: Text) returns (out: string)
    ensures out == Encoded(Chunks(chunks) + [Done(Some(id))])
    ensures out == AllBytes(chunks) + ServedBytes(id)
  {
    out := EncodeChunks(chunks);
    EncodedOneMore(Chunks(chunks), Done(Some(id)));
    EncodedIsBytes(chunks);
    ServedEventBytes(id);
    out := out + EventOf(Done(Some(id)));
  }

  /** The line breaks that a text decoder splits at besides the newline. */
  predicate IsBreak(c: char) {
    c == '\n' || c == '\r' || 11 as char <= c <= 12 as char || 28 as char <= c <= 30 as char
    || c == 133 as char || c == 0x2028 as char || c == 0x2029 as char
  }

  function Newlines(s: string): string {
    seq(|s|, i requires 0 <= i < |s| => if IsBreak(s[i]) then '\n' else s[i])
  }

  /** The non-blank lines of a text, its unfinished last line among them. */
  function NonBlank(lines: seq<string>): seq<string> {
    if lines == [] then []
    else NonBlank(lines[..|lines| - 1]) + (if lines[|lines| - 1] == "" then [] else [lines[|lines| - 1]])
  }

  function Terminated(lines: seq<string>): string {
    if lines == [] then "" else Terminated(lines[..|lines| - 1]) + lines[|lines| - 1] + "\n"
  }

  lemma NonBlankLast(lines: seq<string>, l: string)
    ensures NonBlank(lines + [l]) == if l == "" then NonBlank(lines) else NonBlank(lines) + [l]
  {
    assert (lines + [l])[..|lines|] == lines;
  }

  /** Only blank lines are dropped, and all of them. */
  lemma {:induction false} NonBlankKeeps(lines: seq<string>)
    requires "" !in lines
    ensures NonBlank(lines) == lines
  {
    if lines != [] {
      var init, last := lines[..|lines| - 1], lines[|lines| - 1];
      assert lines == init + [last];
      NonBlankKeeps(init);
    }
  }

  lemma {:induction false} NonBlankDrops(a: seq<string>, b: seq<string>)
    ensures NonBlank(a + [""] + b) == NonBlank(a + b)
  {
    if b == [] {
      assert a + [""] + b == a + [""] && a + b == a;
      NonBlankLast(a, "");
    } else {
      var init, last := b[..|b| - 1], b[|b| - 1];
      NonBlankDrops(a, init);
      assert a + [""] + b == a + [""] + init + [last] && a + b == a + init + [last];
      NonBlankLast(a + [""] + init, last);
      NonBlankLast(a + init, last);
    }
  }

  lemma TerminatedLast(lines: seq<string>, l: string)
    ensures Terminated(lines + [l]) == Terminated(lines) + l + "\n"
  {
    assert (lines + [l])[..|lines|] == lines;
  }

  /** `gen_peer` on a peer that answers in full: every non-blank line, each with one newline. */
  function Relayed(text: string): string {
    var cut := Cut(Newlines(text));
    Terminated(NonBlank(cut.complete + [cut.rest]))
  }

  /** What the relay has handed on when the peer breaks off: the decoder never gets to flush an unfinished line. */
  function RelayedBefore(text: string): string {
    Terminated(NonBlank(Cut(Newlines(text)).complete))
  }

  /** The exception of a peer that breaks off or was never reached, and the local chunks that follow it. */
  datatype Failure = Failure(notice: Text, local: seq<Text>)

  function Fallback(f: Failure): seq<Message> {
    Chunks([f.notice] + f.local) + [Done(None)]
  }

  function PeerReply(text: string, failure: Option<Failure>): string {
    match failure
    case None => Relayed(text)
    case Some(f) => RelayedBefore(text) + Encoded(Fallback(f))
  }

  /** `gen_peer` on the text it got from the peer and what ended it. */
  method GenPeer(text: string, failure: Option<Failure>) returns (out: string)
    ensures out == PeerReply(text, failure)
    ensures failure.Some? ==>
              out == RelayedBefore(text) + (AllBytes([failure.value.notice] + failure.value.local) + DONE_BYTES)
  {
    var cut := Cut(Newlines(text));
    if failure.None? {
      out := RelayLines(cut.complete + [cut.rest]);
    } else {
      var f := failure.value;
      out := RelayLines(cut.complete);
      var tail := EncodeChunks([f.notice] + f.local);
      EncodedOneMore(Chunks([f.notice] + f.local), Done(None));
      EncodedIsBytes([f.notice] + f.local);
      DoneEventBytes();
      out := out + (tail + EventOf(Done(None)));
    }
  }

  method RelayLines(lines: seq<string>) returns (out: string)
    ensures out == Terminated(NonBlank(lines))
  {
    out := "";
    for i := 0 to |lines|
      invariant out == Terminated(NonBlank(lines[..i]))
    {
      assert lines[..i + 1] == lines[..i] + [lines[i]];
      NonBlankLast(lines[..i], lines[i]);
      if lines[i] != "" {
        TerminatedLast(NonBlank(lines[..i]), lines[i]);
        out := out + lines[i] + "\n";
      }
    }
    assert lines[..|lines|] == lines;
  }

  // ------------------------------------------------------------------ the relay is invisible

  lemma CutOneLine(l: string)
    requires '\n' !in l
    ensures Cut(l + "\n") == Lines([l], "")
  {
    NoBreakIsRest(l);
    CutLast(l, '\n');
    assert [] + [l] == [l];
  }

  lemma TerminatedOneMore(init: seq<string>, last: string)
    requires '\n' !in last && Cut(Terminated(init)) == Lines(init, "")
    ensures Cut(Terminated(init + [last])) == Lines(init + [last], "")
  {
    TerminatedLast(init, last);
    Associate(Terminated(init), last, "\n");
    CutAfter(Terminated(init), last + "\n");
    CutOneLine(last);
  }

  lemma {:induction false} CutTerminated(lines: seq<string>)
    requires forall l :: l in lines ==> '\n' !in l
    ensures Cut(Terminated(lines)) == Lines(lines, "")
  {
    if lines != [] {
      var init, last := lines[..|lines| - 1], lines[|lines| - 1];
      CutTerminated(init);
      TerminatedOneMore(init, last);
      assert init + [last] == lines;
    }
  }

  lemma {:induction false} LinesHaveNoBreak(s: string)
    ensures forall l :: l in Cut(s).complete ==> '\n' !in l
  {
    if s != "" {
      LinesHaveNoBreak(s[..|s| - 1]);
      RestHasNoBreak(s[..|s| - 1]);
    }
  }

  lemma {:induction false} NonBlankIsSubset(lines: seq<string>)
    ensures forall l :: l in NonBlank(lines) ==> l in lines
  {
    if lines != [] {
      NonBlankIsSubset(lines[..|lines| - 1]);
    }
  }

  lemma {:induction false} BlankLinesAreSkipped(parse: string -> Option<Object>, r: Reply, lines: seq<string>)
    ensures ReadLines(parse, r, NonBlank(lines)) == ReadLines(parse, r, lines)
  {
    if lines != [] {
      var init, last := lines[..|lines| - 1], lines[|lines| - 1];
      BlankLinesAreSkipped(parse, r, init);
      ReadLinesLast(parse, r, NonBlank(init), last);
      assert lines == init + [last];
      NonBlankLast(init, last);
      assert !("data:" <= "");
    }
  }

  lemma CutRelayed(text: string)
    ensures var cut := Cut(Newlines(text)); Cut(Relayed(text)) == Lines(NonBlank(cut.complete + [cut.rest]), "")
  {
    var cut := Cut(Newlines(text));
    LinesHaveNoBreak(Newlines(text));
    RestHasNoBreak(Newlines(text));
    NonBlankIsSubset(cut.complete + [cut.rest]);
    CutTerminated(NonBlank(cut.complete + [cut.rest]));
  }

  /** On a text whose only line breaks are newlines and that ends in one, the relay changes nothing for the reader. */
  lemma RelayIsInvisible(parse: string -> Option<Object>, text: string)
    requires Newlines(text) == text && Cut(text).rest == ""
    ensures Assembled(parse, Relayed(text)) == Assembled(parse, text)
  {
    var lines := Cut(text).complete;
    CutRelayed(text);
    assert (lines + [""])[..|lines|] == lines;
    assert NonBlank(lines + [""]) == NonBlank(lines);
    BlankLinesAreSkipped(parse, Reply([], false), lines);
  }

  // ------------------------------------------------------------------ round trip

  lemma TrimDumps(m: Message)
    ensures Trim((" " + Dumps(m))) == Dumps(m)
  {
    DumpsIsPrintable(m);
    assert (" " + Dumps(m))[1..] == Dumps(m);
  }

  lemma LineIsPrintable(m: Message)
    ensures Printable(LineOf(m)) && '\n' !in LineOf(m) && LineOf(m)[5..] == " " + Dumps(m) && "data:" <= LineOf(m)
  {
    DumpsIsPrintable(m);
    forall i | 0 <= i < |LineOf(m)| ensures ' ' <= LineOf(m)[i] <= '~' {
      assert i >= 6 ==> LineOf(m)[i] == Dumps(m)[i - 6];
    }
  }

  lemma CutEvent(m: Message)
    ensures Cut(EventOf(m)) == Lines([LineOf(m), ""], "")
  {
    LineIsPrintable(m);
    CutOneLine(LineOf(m));
    CutLast(LineOf(m) + "\n", '\n');
    assert EventOf(m) == LineOf(m) + "\n" + ['\n'];
  }

  lemma EventHasOnlyNewlines(m: Message)
    ensures Newlines(EventOf(m)) == EventOf(m)
  {
    LineIsPrintable(m);
    var e := EventOf(m);
    assert e == LineOf(m) + "\n\n";
    forall i | 0 <= i < |e| ensures Newlines(e)[i] == e[i] {
      assert i < |LineOf(m)| ==> e[i] == LineOf(m)[i];
    }
  }

  lemma ReadEvent(parse: string -> Option<Object>, r: Reply, m: Message)
    requires ReadsObjects(parse) && !r.failed
    ensures ReadLines(parse, r, [LineOf(m), ""]) == Reply(r.full + ObjectOf(m).t, false)
  {
    TrimDumps(m);
    DumpsAreRead(parse, m);
    LineIsPrintable(m);
    ReadLinesLast(parse, r, [], LineOf(m));
    ReadLinesLast(parse, r, [LineOf(m)], "");
    assert [] + [LineOf(m)] == [LineOf(m)] && [LineOf(m)] + [""] == [LineOf(m), ""];
    assert !("data:" <= "");
  }

  /** Reading one more event appends its text. */
  lemma ReadOneMore(parse: string -> Option<Object>, before: string, m: Message)
    requires ReadsObjects(parse) && Cut(before).rest == "" && !Assembled(parse, before).failed
    ensures Assembled(parse, before + EventOf(m)) == Reply(Assembled(parse, before).full + ObjectOf(m).t, false)
    ensures Cut(before + EventOf(m)).rest == ""
  {
    PieceReadsOn(parse, before, EventOf(m));
    assert Cut(Cut(before).rest + EventOf(m)) == Lines([LineOf(m), ""], "") by {
      assert Cut(before).rest + EventOf(m) == EventOf(m);
      CutEvent(m);
    }
    ReadEvent(parse, Assembled(parse, before), m);
  }

  /** Reading a text and then whole events appends their texts. */
  lemma {:induction false} ReadEvents(parse: string -> Option<Object>, before: string, ms: seq<Message>)
    requires ReadsObjects(parse) && Cut(before).rest == "" && !Assembled(parse, before).failed
    ensures Assembled(parse, before + Encoded(ms)) == Reply(Assembled(parse, before).full + TextOf(ms), false)
    ensures Cut(before + Encoded(ms)).rest == ""
  {
    if ms == [] {
      assert before + Encoded(ms) == before;
    } else {
      var init, m := ms[..|ms| - 1], ms[|ms| - 1];
      ReadEvents(parse, before, init);
      ReadOneMore(parse, before + Encoded(init), m);
      Associate(before, Encoded(init), EventOf(m));
      Associate(Assembled(parse, before).full, TextOf(init), ObjectOf(m).t);
    }
  }

  lemma {:induction false} EncodedHasOnlyNewlines(ms: seq<Message>)
    ensures Newlines(Encoded(ms)) == Encoded(ms)
  {
    if ms != [] {
      EncodedHasOnlyNewlines(ms[..|ms| - 1]);
      EventHasOnlyNewlines(ms[|ms| - 1]);
      var a, b := Encoded(ms[..|ms| - 1]), EventOf(ms[|ms| - 1]);
      assert Newlines(a + b) == Newlines(a) + Newlines(b);
    }
  }

  lemma {:induction false} TextOfChunks(chunks: seq<Text>, last: Message)
    requires ObjectOf(last).t == []
    ensures TextOf(Chunks(chunks)) == Joined(chunks) == TextOf(Chunks(chunks) + [last])
  {
    assert (Chunks(chunks) + [last])[..|chunks|] == Chunks(chunks);
    if chunks != [] {
      TextOfChunks(chunks[..|chunks| - 1], last);
      assert Chunks(chunks)[..|chunks| - 1] == Chunks(chunks[..|chunks| - 1]);
    }
  }

  /** A whole encoded reply, direct or relayed. */
  lemma ReadEncoded(parse: string -> Option<Object>, ms: seq<Message>)
    requires ReadsObjects(parse)
    ensures Assembled(parse, Encoded(ms)) == Assembled(parse, Relayed(Encoded(ms))) == Reply(TextOf(ms), false)
    ensures Cut(Relayed(Encoded(ms))).rest == ""
  {
    ReadEvents(parse, "", ms);
    assert "" + Encoded(ms) == Encoded(ms);
    assert [] + TextOf(ms) == TextOf(ms);
    EncodedHasOnlyNewlines(ms);
    RelayIsInvisible(parse, Encoded(ms));
    CutRelayed(Encoded(ms));
  }

  /**
    Round trip: the text the browser assembles from a local reply, or from one relayed over one hop,
    is the provider's chunks put together.
  */
  lemma StreamRoundTrip(parse: string -> Option<Object>, chunks: seq<Text>, id: Text)
    requires ReadsObjects(parse)
    ensures var out := Encoded(Chunks(chunks) + [Done(Some(id))]);
            Assembled(parse, out) == Assembled(parse, Relayed(out)) == Reply(Joined(chunks), false)
  {
    ReadEncoded(parse, Chunks(chunks) + [Done(Some(id))]);
    TextOfChunks(chunks, Done(Some(id)));
  }

  lemma {:induction false} JoinedCons(t: Text, chunks: seq<Text>)
    ensures Joined([t] + chunks) == t + Joined(chunks)
  {
    if chunks != [] {
      JoinedCons(t, chunks[..|chunks| - 1]);
      assert ([t] + chunks)[..|chunks|] == [t] + chunks[..|chunks| - 1];
    } else {
      assert ([t] + chunks)[..0] == [] && [t] + chunks == [t];
    }
  }
}

/** A peer that breaks off anywhere in its streamed reply: what `gen_peer` and the browser make of it. */
module BrokenPeer {
  import opened JsonText
  import opened Stream
  import opened Wrappers

  /** Lines with a blank line after each. */
  function Spaced(lines: seq<string>): string {
    if lines == [] then "" else Spaced(lines[..|lines| - 1]) + (lines[|lines| - 1] + "\n\n")
  }

  /** How many lines a reader of the first `k` characters has got: those whose first newline is among them. */
  function Heard(lines: seq<string>, k: nat): (j: nat)
    ensures j <= |lines|
  {
    if lines == [] then 0 else if |Spaced(lines)| <= k + 1 then |lines| else Heard(lines[..|lines| - 1], k)
  }

  ghost predicate AreLines(lines: seq<string>) {
    forall i :: 0 <= i < |lines| ==> lines[i] != "" && '\n' !in lines[i]
  }

  /** The reader lacks at most the last newline of what was heard, and more than that of the next line. */
  lemma {:induction false} HeardIsExact(lines: seq<string>, k: nat)
    ensures var j := Heard(lines, k);
            && (j > 0 ==> |Spaced(lines[..j])| <= k + 1)
            && (j < |lines| ==> k + 1 < |Spaced(lines[..j + 1])|)
  {
    assert lines[..|lines|] == lines;
    if lines == [] {
      assert Heard(lines, k) == 0;
    } else if |Spaced(lines)| > k + 1 {
      var init, j := lines[..|lines| - 1], Heard(lines, k);
      HeardIsExact(init, k);
      assert init[..j] == lines[..j];
      assert j < |init| ==> init[..j + 1] == lines[..j + 1];
    }
  }

  // ------------------------------------------------------------------ the lines of a prefix

  lemma CutOneSpaced(line: string)
    requires '\n' !in line
    ensures Cut(line + "\n\n") == Lines([line, ""], "")
  {
    CutOneLine(line);
    CutLast(line + "\n", '\n');
    assert line + "\n\n" == line + "\n" + ['\n'];
  }

  lemma NonBlankTwo(lines: seq<string>, line: string)
    requires line != ""
    ensures NonBlank(lines + [line]) == NonBlank(lines + [line, ""]) == NonBlank(lines) + [line]
  {
    NonBlankLast(lines, line);
    NonBlankLast(lines + [line], "");
    assert lines + [line, ""] == lines + [line] + [""];
  }

  lemma CutSpaced(before: string, line: string)
    requires Cut(before).rest == "" && line != "" && '\n' !in line
    ensures Cut(before + (line + "\n\n")).rest == ""
    ensures NonBlank(Cut(before + (line + "\n\n")).complete) == NonBlank(Cut(before).complete) + [line]
  {
    CutAfter(before, line + "\n\n");
    CutOneSpaced(line);
    NonBlankTwo(Cut(before).complete, line);
  }

  lemma SpacedLast(init: seq<string>, line: string)
    ensures Spaced(init + [line]) == Spaced(init) + (line + "\n\n")
  {
    assert (init + [line])[..|init|] == init;
  }

  /** A line cut short is complete when only the blank line is missing. */
  lemma CutShort(before: string, line: string, k: nat)
    requires Cut(before).rest == "" && line != "" && '\n' !in line && k <= |line| + 1
    ensures NonBlank(Cut(before + (line + "\n\n")[..k]).complete) ==
            if k == |line| + 1 then NonBlank(Cut(before).complete) + [line] else NonBlank(Cut(before).complete)
  {
    var lines, part := Cut(before).complete, (line + "\n\n")[..k];
    CutAfter(before, part);
    if k == |line| + 1 {
      assert part == line + "\n";
      CutOneLine(line);
      NonBlankLast(lines, line);
    } else {
      assert part == line[..k];
      NoBreakIsRest(part);
      assert lines + [] == lines;
    }
  }

  lemma TakeOfConcat(a: string, b: string, k: nat)
    requires k <= |a| + |b|
    ensures (a + b)[..k] == if k <= |a| then a[..k] else a + b[..k - |a|]
  {
  }

  ghost predicate SpacedOk(lines: seq<string>) {
    Cut(Spaced(lines)).rest == "" && NonBlank(Cut(Spaced(lines)).complete) == lines
  }

  lemma SpacedOkLast(init: seq<string>, line: string)
    requires SpacedOk(init) && line != "" && '\n' !in line
    ensures SpacedOk(init + [line])
  {
    SpacedLast(init, line);
    CutSpaced(Spaced(init), line);
  }

  lemma {:induction false} LinesOfSpaced(lines: seq<string>)
    requires AreLines(lines)
    ensures Cut(Spaced(lines)).rest == "" && NonBlank(Cut(Spaced(lines)).complete) == lines
  {
    if lines == [] {
      assert Cut("") == Lines([], "");
    } else {
      LinesOfSpaced(lines[..|lines| - 1]);
      SpacedOkLast(lines[..|lines| - 1], lines[|lines| - 1]);
      assert lines == lines[..|lines| - 1] + [lines[|lines| - 1]];
    }
  }

  /** A reader who is in the last line. */
  lemma LinesOfLongPrefix(init: seq<string>, line: string, k: nat)
    requires AreLines(init) && line != "" && '\n' !in line && k <= |line| + 1
    ensures NonBlank(Cut(Spaced(init) + (line + "\n\n")[..k]).complete) ==
            if k == |line| + 1 then init + [line] else init
  {
    LinesOfSpaced(init);
    CutShort(Spaced(init), line, k);
  }

  lemma HeardAll(lines: seq<string>, k: nat)
    requires |Spaced(lines)| <= k + 1
    ensures Heard(lines, k) == |lines|
  {
  }

  lemma HeardOfLast(init: seq<string>, line: string, k: nat)
    requires |Spaced(init)| <= k + 1
    ensures (init + [line])[..Heard(init + [line], k)] ==
            if |Spaced(init + [line])| <= k + 1 then init + [line] else init
  {
    var lines := init + [line];
    assert lines[..|lines| - 1] == init;
    HeardAll(init, k);
  }

  lemma TextOfLast(init: seq<string>, line: string, k: nat)
    requires |Spaced(init)| < k <= |Spaced(init + [line])|
    ensures |Spaced(init + [line])| == |Spaced(init)| + |line| + 2
    ensures Spaced(init + [line])[..k] == Spaced(init) + (line + "\n\n")[..k - |Spaced(init)|]
  {
    SpacedLast(init, line);
    TakeOfConcat(Spaced(init), line + "\n\n", k);
  }

  lemma AreLinesLast(init: seq<string>, line: string)
    requires AreLines(init + [line])
    ensures AreLines(init) && line != "" && '\n' !in line
  {
    assert (init + [line])[|init|] == line;
    assert forall i :: 0 <= i < |init| ==> (init + [line])[i] == init[i];
  }

  /** A reader who is past all lines but the last. */
  lemma LinesOfLastPrefix(init: seq<string>, line: string, k: nat)
    requires AreLines(init + [line]) && |Spaced(init)| < k < |Spaced(init + [line])|
    ensures NonBlank(Cut(Spaced(init + [line])[..k]).complete) == (init + [line])[..Heard(init + [line], k)]
  {
    AreLinesLast(init, line);
    HeardOfLast(init, line, k);
    TextOfLast(init, line, k);
    LinesOfLongPrefix(init, line, k - |Spaced(init)|);
  }

  lemma LinesOfWhole(lines: seq<string>)
    requires AreLines(lines)
    ensures NonBlank(Cut(Spaced(lines)[..|Spaced(lines)|]).complete) == lines[..Heard(lines, |Spaced(lines)|)]
  {
    LinesOfSpaced(lines);
    HeardAll(lines, |Spaced(lines)|);
    assert Spaced(lines)[..|Spaced(lines)|] == Spaced(lines) && lines[..|lines|] == lines;
  }

  /** The lines complete in the first `k` characters are those heard. */
  lemma {:induction false} LinesOfPrefix(lines: seq<string>, k: nat)
    requires AreLines(lines) && k <= |Spaced(lines)|
    ensures NonBlank(Cut(Spaced(lines)[..k]).complete) == lines[..Heard(lines, k)]
  {
    if k == |Spaced(lines)| {
      LinesOfWhole(lines);
    } else {
      var init, line := lines[..|lines| - 1], lines[|lines| - 1];
      assert lines == init + [line];
      if k <= |Spaced(init)| {
        LinesOfPrefix(init, k);
        TakeOfConcat(Spaced(init), line + "\n\n", k);
      } else {
        LinesOfLastPrefix(init, line, k);
      }
    }
  }

  // ------------------------------------------------------------------ the reply of a peer that breaks off

  function LinesOf(ms: seq<Message>): seq<string> {
    seq(|ms|, i requires 0 <= i < |ms| => LineOf(ms[i]))
  }

  lemma LinesOfAreLines(ms: seq<Message>)
    ensures AreLines(LinesOf(ms))
  {
    forall i | 0 <= i < |ms| ensures LinesOf(ms)[i] != "" && '\n' !in LinesOf(ms)[i] {
      LineIsPrintable(ms[i]);
    }
  }

  lemma {:induction false} EncodedIsSpaced(ms: seq<Message>)
    ensures Encoded(ms) == Spaced(LinesOf(ms))
  {
    if ms != [] {
      EncodedIsSpaced(ms[..|ms| - 1]);
      assert LinesOf(ms)[..|ms| - 1] == LinesOf(ms[..|ms| - 1]);
    }
  }

  /** The events of which a reader of the first `k` characters has got the whole line. */
  function EventsHeard(ms: seq<Message>, k: nat): seq<Message> {
    ms[..Heard(LinesOf(ms), k)]
  }

  /** On a text of its own line breaks only, the relay has handed on the complete lines that are not blank. */
  lemma RelayedLines(ms: seq<Message>, k: nat)
    requires k <= |Encoded(ms)|
    ensures RelayedBefore(Encoded(ms)[..k]) == Terminated(LinesOf(EventsHeard(ms, k)))
  {
    EncodedHasOnlyNewlines(ms);
    assert Newlines(Encoded(ms)[..k]) == Newlines(Encoded(ms))[..k];
    EncodedIsSpaced(ms);
    LinesOfAreLines(ms);
    LinesOfPrefix(LinesOf(ms), k);
    assert LinesOf(ms)[..Heard(LinesOf(ms), k)] == LinesOf(EventsHeard(ms, k));
  }

  lemma RelayedWhole(ms: seq<Message>)
    ensures Relayed(Encoded(ms)) == Terminated(LinesOf(ms))
  {
    EncodedHasOnlyNewlines(ms);
    EncodedIsSpaced(ms);
    LinesOfAreLines(ms);
    LinesOfSpaced(LinesOf(ms));
    NonBlankLast(Cut(Encoded(ms)).complete, "");
  }

  /** Wherever a peer breaks off, the relay has handed on what it does of the events heard. */
  lemma RelayedBeforeIsHeard(ms: seq<Message>, k: nat)
    requires k <= |Encoded(ms)|
    ensures RelayedBefore(Encoded(ms)[..k]) == Relayed(Encoded(EventsHeard(ms, k)))
  {
    RelayedLines(ms, k);
    RelayedWhole(EventsHeard(ms, k));
  }

  /**
    A peer that breaks off anywhere in its reply, or before it: the browser assembles the text of the events whose
    lines were complete, the notice, and then the whole local answer from its beginning.
  */
  lemma BrokenPeerRepeats(parse: string -> Option<Object>, ms: seq<Message>, k: nat, f: Failure)
    requires ReadsObjects(parse) && k <= |Encoded(ms)|
    ensures Assembled(parse, PeerReply(Encoded(ms)[..k], Some(f)))
            == Reply(TextOf(EventsHeard(ms, k)) + f.notice + Joined(f.local), false)
  {
    var heard := EventsHeard(ms, k);
    RelayedBeforeIsHeard(ms, k);
    ReadEncoded(parse, heard);
    ReadEvents(parse, Relayed(Encoded(heard)), Fallback(f));
    TextOfChunks([f.notice] + f.local, Done(None));
    JoinedCons(f.notice, f.local);
    Associate(TextOf(heard), f.notice, Joined(f.local));
  }
}

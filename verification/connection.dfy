/** The debugger connection: how the lines read from the debugger's standard
    output are gathered into chunks, each parsed once it ends with the
    `(gdb)` prompt, and the exact text written to its standard input for a
    command. Spawning the process and the streams themselves are not part
    of this model: a line arrives as a parameter and a write is returned as
    the text written. */
module Connection {
  import opened Base
  import opened Text
  import opened Syntax
  import opened Parser

  const Prompt: string := "(gdb)"
  const LineEnd: string := "\r\n"

  // ---------------------------------------------------------------------
  // Framing
  // ---------------------------------------------------------------------

  /** The line callback: the line is appended to the buffer with no
      separator; when the buffer then ends with the prompt, the whole buffer
      is the chunk handed to the parser and the buffer is emptied. */
  function OnLine(buffer: string, line: string): (r: (string, Option<string>))
    ensures var text := buffer + line;
      && (EndsWith(text, Prompt) ==> r == ("", Some(text)))
      && (!EndsWith(text, Prompt) ==> r == (text, None))
    ensures !EndsWith(r.0, Prompt)
  {
    var text := buffer + line;
    if EndsWith(text, Prompt) then ("", Some(text)) else (text, None)
  }

  /** What the callback hands to the output handler for one line: the units
      of the chunk, one at a time in the order the parser returned them. */
  function Dispatch(chunk: Option<string>): (outs: seq<Output>)
    ensures chunk.None? ==> outs == []
    ensures forall k :: 0 <= k < |outs| ==> IsNotEmpty(outs[k])
  {
    match chunk
    case None => []
    case Some(text) => FromOutput(text)
  }

  /** The callback run over successive lines: the final buffer and the
      chunks parsed, in order. */
  function Feed(buffer: string, lines: seq<string>): (r: (string, seq<string>))
    ensures |lines| == 0 ==> r == (buffer, [])
    ensures |lines| > 0 ==> !EndsWith(r.0, Prompt)
    decreases |lines|
  {
    if |lines| == 0 then (buffer, [])
    else
      var step := OnLine(buffer, lines[0]);
      var rest := Feed(step.0, lines[1..]);
      (rest.0, (if step.1.Some? then [step.1.value] else []) + rest.1)
  }

  /** All parts, in order, with nothing between them. */
  function Concat(parts: seq<string>): string
    decreases |parts|
  {
    if |parts| == 0 then "" else parts[0] + Concat(parts[1..])
  }

  /** The concatenation of parts after one more part in front. */
  lemma ConcatCons(first: string, parts: seq<string>)
    ensures Concat([first] + parts) == first + Concat(parts)
  {
    assert ([first] + parts)[1..] == parts;
  }

  /** One line of `Feed`. */
  lemma FeedStep(buffer: string, lines: seq<string>)
    requires |lines| > 0
    ensures var text := buffer + lines[0];
      && (EndsWith(text, Prompt) ==>
            Feed(buffer, lines) == (Feed("", lines[1..]).0, [text] + Feed("", lines[1..]).1))
      && (!EndsWith(text, Prompt) ==> Feed(buffer, lines) == Feed(text, lines[1..]))
  {
    var text := buffer + lines[0];
    var step := OnLine(buffer, lines[0]);
    var rest := Feed(step.0, lines[1..]);
    if EndsWith(text, Prompt) {
      assert step == ("", Some(text));
    } else {
      assert step == (text, None);
      assert Feed(buffer, lines).1 == [] + rest.1 == rest.1;
      assert Feed(buffer, lines).0 == rest.0;
    }
  }

  /** Framing loses and reorders no text: the chunks parsed followed by the
      text still buffered are exactly the old buffer followed by every line. */
  lemma {:induction false} FeedKeepsText(buffer: string, lines: seq<string>)
    ensures Concat(Feed(buffer, lines).1) + Feed(buffer, lines).0 == buffer + Concat(lines)
    decreases |lines|
  {
    if |lines| > 0 {
      var text := buffer + lines[0];
      var rest := lines[1..];
      FeedStep(buffer, lines);
      assert [lines[0]] + rest == lines;
      ConcatCons(lines[0], rest);
      assert buffer + Concat(lines) == text + Concat(rest);
      if EndsWith(text, Prompt) {
        FeedKeepsText("", rest);
        ChunkFirst(text, Feed("", rest), Concat(rest));
      } else {
        FeedKeepsText(text, rest);
      }
    }
  }

  /** A chunk in front of what the rest of the lines leave keeps the text
      in order. */
  lemma ChunkFirst(text: string, tail: (string, seq<string>), restText: string)
    requires Concat(tail.1) + tail.0 == "" + restText
    ensures Concat([text] + tail.1) + tail.0 == text + restText
  {
    ConcatCons(text, tail.1);
    Assoc(text, Concat(tail.1), tail.0);
    assert "" + restText == restText;
  }

  /** Every chunk handed to the parser ends with the prompt. */
  lemma {:induction false} FeedChunksEnd(buffer: string, lines: seq<string>)
    ensures forall k :: 0 <= k < |Feed(buffer, lines).1| ==> EndsWith(Feed(buffer, lines).1[k], Prompt)
    decreases |lines|
  {
    if |lines| > 0 {
      var text := buffer + lines[0];
      var rest := lines[1..];
      FeedStep(buffer, lines);
      if EndsWith(text, Prompt) {
        FeedChunksEnd("", rest);
        var cs := Feed("", rest).1;
        var all := Feed(buffer, lines).1;
        assert all == [text] + cs;
        forall k | 0 <= k < |all|
          ensures EndsWith(all[k], Prompt)
        {
          if k > 0 {
            assert all[k] == cs[k - 1];
          }
        }
      } else {
        FeedChunksEnd(text, rest);
      }
    }
  }

  /** A line that does not complete the prompt parses nothing and only
      grows the buffer. */
  lemma PartialLine(buffer: string, line: string)
    requires !EndsWith(buffer + line, Prompt)
    ensures Feed(buffer, [line]) == (buffer + line, [])
  {
    FeedStep(buffer, [line]);
    assert [line][1..] == [];
  }

  /** The prompt split over two lines still completes a chunk: the lines
      are joined without a separator before the test. */
  lemma PromptAcrossLines(before: string)
    ensures Feed(before, ["(gd", "b)"]) == ("", [before + "(gdb)"])
  {
    var lines := ["(gd", "b)"];
    var first := before + "(gd";
    assert first[|first| - 1] == 'd';
    assert !EndsWith(first, Prompt);
    FeedStep(before, lines);
    var text := first + "b)";
    assert text == before + "(gdb)";
    assert text[|text| - 5..] == Prompt;
    assert lines[1..] == ["b)"];
    FeedStep(first, ["b)"]);
    assert ["b)"][1..] == [];
    assert Feed("", []) == ("", []);
    assert Feed(first, ["b)"]) == ("", [text] + []);
    assert [text] + [] == [text];
  }

  // ---------------------------------------------------------------------
  // Commands
  // ---------------------------------------------------------------------

  /** What a write carries: the text before the line end. */
  function CommandOf(w: string): string
    requires |w| >= 2
  {
    w[..|w| - 2]
  }

  /** `sendRaw`: the text written for `data`, which is `data` followed by
      one CR LF. */
  function SendRaw(data: string): (w: string)
    ensures |w| == |data| + 2 && CommandOf(w) == data && EndsWith(w, LineEnd)
  {
    data + LineEnd
  }

  /** `execute`: the command is sent as it is, with no token in front. */
  function Execute(command: string): (w: string)
    ensures |w| >= 2 && CommandOf(w) == command && EndsWith(w, LineEnd)
  {
    SendRaw(command)
  }

  /** `fetchFeatures`. */
  function FetchFeatures(): (w: string)
    ensures |w| >= 2 && CommandOf(w) == "-list-features" && EndsWith(w, LineEnd)
  {
    Execute("-list-features")
  }

  const LoadCommand: string := "-file-exec-and-symbols "

  /** `loadExecutable`: the path follows the command name and one space. */
  function LoadExecutable(path: string): (w: string)
    ensures |w| >= 2 && CommandOf(w) == LoadCommand + path && EndsWith(w, LineEnd)
  {
    Execute(LoadCommand + path)
  }

  /** `run`. */
  function Run(): (w: string)
    ensures |w| >= 2 && CommandOf(w) == "-exec-run" && EndsWith(w, LineEnd)
  {
    Execute("-exec-run")
  }

  /** A written command is read back whole, so two different commands are
      never written the same way. */
  lemma ExecuteRecovers(command: string, other: string)
    ensures CommandOf(Execute(command)) == command
    ensures command != other ==> Execute(command) != Execute(other)
  {
    assert CommandOf(Execute(command)) == command;
    if Execute(command) == Execute(other) {
      assert CommandOf(Execute(other)) == other;
    }
  }

  /** The path given to `loadExecutable` is written verbatim after the
      command name and before the line end. */
  lemma LoadExecutableRecovers(path: string)
    ensures var w := LoadExecutable(path);
      && w[..|LoadCommand|] == LoadCommand
      && w[|LoadCommand|..|w| - 2] == path
  {
    var w := LoadExecutable(path);
    assert w == LoadCommand + path + LineEnd;
  }
}

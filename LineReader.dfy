/**
 * The reader the parser pulls records from: it reads physical lines and
 * splits each at ':' so that several records on one line come out one by
 * one, each with its ':' put back in front.
 */
module LineReader {
  import opened Wrappers

  /** The runtime exceptions readLine can raise. */
  datatype ReadError =
    | NullPointer    // the line consists of ':' only: split gives no pieces and peek() is null
    | NoSuchElement  // the line is empty: its only piece is dropped and remove() finds nothing

  datatype ReadResult = Line(text: string) | EndOfInput | Failure(error: ReadError)

  /** The pieces of `s` between its colons, all of them (n colons give n + 1 pieces). */
  function SplitAll(s: string): (pieces: seq<string>)
    ensures |pieces| >= 1
    ensures forall k :: 0 <= k < |pieces| ==> ':' !in pieces[k]
  {
    if |s| == 0 then [""]
    else if s[0] == ':' then [""] + SplitAll(s[1..])
    else
      var rest := SplitAll(s[1..]);
      [[s[0]] + rest[0]] + rest[1..]
  }

  /** The pieces joined again with ':' between them. */
  function Join(pieces: seq<string>): string
  {
    if |pieces| == 0 then ""
    else if |pieces| == 1 then pieces[0]
    else pieces[0] + ":" + Join(pieces[1..])
  }

  /** Splitting at every colon loses nothing: joining the pieces gives the line back. */
  lemma {:induction false} JoinSplitAll(s: string)
    ensures Join(SplitAll(s)) == s
  {
    if |s| > 0 {
      JoinSplitAll(s[1..]);
      var rest := SplitAll(s[1..]);
      if s[0] == ':' {
        assert s == [s[0]] + s[1..];
      } else if |rest| == 1 {
        assert s == [s[0]] + s[1..];
      } else {
        assert s == [s[0]] + s[1..];
        assert [s[0]] + rest[0] + ":" + Join(rest[1..]) == [s[0]] + (rest[0] + ":" + Join(rest[1..]));
      }
    }
  }

  /** The pieces without the empty ones at the end. */
  function DropTrailingEmpty(pieces: seq<string>): (r: seq<string>)
    ensures |r| <= |pieces| && r == pieces[..|r|]
    ensures |r| > 0 ==> r[|r| - 1] != ""
    ensures forall k :: |r| <= k < |pieces| ==> pieces[k] == ""
  {
    if |pieces| > 0 && pieces[|pieces| - 1] == "" then DropTrailingEmpty(pieces[..|pieces| - 1])
    else pieces
  }

  /**
   * String.split(":"): a line without a colon is its own only piece;
   * otherwise the pieces between the colons with the trailing empty ones
   * removed.
   */
  function JavaSplit(s: string): (pieces: seq<string>)
    ensures forall k :: 0 <= k < |pieces| ==> ':' !in pieces[k]
  {
    if ':' !in s then [s] else DropTrailingEmpty(SplitAll(s))
  }

  /** A line's pieces with one leading empty piece removed. */
  function DropLeadingEmpty(pieces: seq<string>): seq<string>
  {
    if |pieces| > 0 && pieces[0] == "" then pieces[1..] else pieces
  }

  /** A line put in front of the lines of a successful read. */
  function Prepend(line: string, rest: Result<seq<string>, ReadError>): Result<seq<string>, ReadError>
  {
    match rest
    case Ok(lines) => Ok([line] + lines)
    case Err(e) => Err(e)
  }

  /** The lines `done`, already delivered, in front of what is still to come. */
  function After(done: seq<string>, rest: Result<seq<string>, ReadError>): (all: Result<seq<string>, ReadError>)
    ensures all.Ok? <==> rest.Ok?
    ensures all.Ok? ==> all.value == done + rest.value
    ensures all.Err? ==> all.error == rest.error
  {
    match rest
    case Ok(lines) => Ok(done + lines)
    case Err(e) => Err(e)
  }

  /** Before anything is delivered, everything is still to come. */
  lemma AfterNothing(rest: Result<seq<string>, ReadError>)
    ensures After([], rest) == rest
  {
    if rest.Ok? {
      assert [] + rest.value == rest.value;
    }
  }

  /** A delivered line moves from what is to come to what is done. */
  lemma AfterPrepend(done: seq<string>, line: string, rest: Result<seq<string>, ReadError>)
    ensures After(done, Prepend(line, rest)) == After(done + [line], rest)
  {
    if rest.Ok? {
      assert done + ([line] + rest.value) == done + [line] + rest.value;
    }
  }

  /**
   * Everything readLine delivers from here on: the lines it returns until
   * the input is exhausted, or the exception it eventually raises.
   */
  function Output(buffer: seq<string>, input: seq<string>): Result<seq<string>, ReadError>
    decreases |input|, |buffer|
  {
    if |buffer| > 0 then Prepend(":" + buffer[0], Output(buffer[1..], input))
    else if |input| == 0 then Ok([])
    else
      var pieces := JavaSplit(input[0]);
      if |pieces| == 0 then Err(NullPointer)
      else
        var queue := DropLeadingEmpty(pieces);
        if |queue| == 0 then Err(NoSuchElement)
        else Prepend(":" + queue[0], Output(queue[1..], input[1..]))
  }

  /** Every line the reader delivers starts with ':'. */
  lemma {:induction false} OutputStartsWithColon(buffer: seq<string>, input: seq<string>)
    requires Output(buffer, input).Ok?
    ensures forall k :: 0 <= k < |Output(buffer, input).value| ==>
      |Output(buffer, input).value[k]| > 0 && Output(buffer, input).value[k][0] == ':'
    decreases |input|, |buffer|
  {
    if |buffer| > 0 {
      OutputStartsWithColon(buffer[1..], input);
    } else if |input| > 0 {
      var queue := DropLeadingEmpty(JavaSplit(input[0]));
      OutputStartsWithColon(queue[1..], input[1..]);
    }
  }

  /**
   * A line holding one record (a ':' and then text without colons) is
   * delivered as it is.
   */
  lemma OneRecordLine(text: string, input: seq<string>)
    requires text != "" && ':' !in text
    ensures Output([], [":" + text] + input) == Prepend(":" + text, Output([], input))
  {
    var line := ":" + text;
    assert line[0] == ':';
    assert line[1..] == text;
    assert SplitAll(text) == [text] by {
      NoColonSplit(text);
    }
    assert SplitAll(line) == ["", text];
    assert ([line] + input)[1..] == input;
  }

  lemma {:induction false} NoColonSplit(s: string)
    requires ':' !in s
    ensures SplitAll(s) == [s]
  {
    if |s| > 0 {
      assert ':' !in s[1..] by {
        assert forall k :: 0 <= k < |s[1..]| ==> s[1..][k] == s[k + 1];
      }
      NoColonSplit(s[1..]);
      assert s == [s[0]] + s[1..];
    }
  }

  /** Two records on one line come out one after the other. */
  lemma TwoRecordsOnOneLine()
    ensures Output([], [":A:B"]) == Ok([":A", ":B"])
  {
    NoColonSplit("B");
    assert ":B"[1..] == "B";
    assert SplitAll(":B") == ["", "B"];
    assert "A:B"[1..] == ":B";
    assert ['A'] + "" == "A";
    assert SplitAll("A:B") == ["A", "B"];
    assert ":A:B"[1..] == "A:B";
    assert SplitAll(":A:B") == ["", "A", "B"];
    assert DropTrailingEmpty(["", "A", "B"]) == ["", "A", "B"];
    assert ":A:B"[0] == ':';
    assert JavaSplit(":A:B") == ["", "A", "B"];
    assert DropLeadingEmpty(["", "A", "B"]) == ["A", "B"];
    assert ["A", "B"][1..] == ["B"];
    assert ["B"][1..] == [] && ":" + "B" == ":B" && ":" + "A" == ":A";
    assert Output([], []) == Ok([]);
    assert Output(["B"], []) == Prepend(":B", Output([], []));
    assert [":B"] + [] == [":B"];
    assert Output(["B"], []) == Ok([":B"]);
    assert Output([], [":A:B"]) == Prepend(":A", Output(["B"], []));
    assert [":A"] + [":B"] == [":A", ":B"];
    assert [":A:B"][1..] == [];
  }

  /** An empty line and a line of colons only make readLine throw. */
  lemma BadLines()
    ensures Output([], [""]) == Err(NoSuchElement)
    ensures Output([], [":"]) == Err(NullPointer)
  {
    assert SplitAll(":") == ["", ""];
    assert DropTrailingEmpty(["", ""]) == [];
  }

  /**
   * BufferedReaderHexLines: a line reader over the physical lines `input`
   * that hands out the records of a line one at a time, keeping the rest
   * in the queue `hexLineBuffer`.
   */
  class BufferedReaderHexLines {
    /** The physical lines not read yet. */
    var input: seq<string>
    var hexLineBuffer: seq<string>

    constructor (lines: seq<string>)
      ensures input == lines && hexLineBuffer == []
    {
      input := lines;
      hexLineBuffer := [];
    }

    /**
     * readLine: the next queued piece if there is one; otherwise null at
     * the end of the input, or else the first piece of the next physical
     * line, whose other pieces are queued.
     */
    method ReadLine() returns (r: ReadResult)
      modifies this
      ensures old(hexLineBuffer) != [] ==>
        r == Line(":" + old(hexLineBuffer)[0]) && hexLineBuffer == old(hexLineBuffer)[1..] && input == old(input)
      ensures old(hexLineBuffer) == [] && old(input) == [] ==> r == EndOfInput && unchanged(this)
      ensures old(hexLineBuffer) == [] && old(input) != [] ==> input == old(input)[1..]
      ensures r.Line? ==> Output(old(hexLineBuffer), old(input)) == Prepend(r.text, Output(hexLineBuffer, input))
      ensures r.EndOfInput? <==> Output(old(hexLineBuffer), old(input)) == Ok([])
      ensures r.Failure? ==> Output(old(hexLineBuffer), old(input)) == Err(r.error)
      ensures r.Line? ==> |input| < |old(input)| || (input == old(input) && |hexLineBuffer| < |old(hexLineBuffer)|)
    {
      if hexLineBuffer != [] {
        r := Line(":" + hexLineBuffer[0]);
        hexLineBuffer := hexLineBuffer[1..];
        return;
      }
      if input == [] {
        return EndOfInput;
      }
      var line := input[0];
      input := input[1..];
      var splitted := JavaSplit(line);
      hexLineBuffer := hexLineBuffer + splitted;
      assert hexLineBuffer == splitted;
      if hexLineBuffer == [] {
        return Failure(NullPointer);  // peek() gives null
      }
      if hexLineBuffer[0] == "" {
        hexLineBuffer := hexLineBuffer[1..];
      }
      if hexLineBuffer == [] {
        return Failure(NoSuchElement);
      }
      assert hexLineBuffer == DropLeadingEmpty(splitted);
      r := Line(":" + hexLineBuffer[0]);
      hexLineBuffer := hexLineBuffer[1..];
    }
  }
}

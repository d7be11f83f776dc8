/** Command dispatch: an input line is split on single spaces and its first
    token chooses the command; the other tokens are its arguments. */
module Parser {
  import opened Errors
  import opened JavaStrings

  /** The commands the parser builds, with the constructor arguments the
      parser supplies to each. */
  datatype Command =
    | Delete(index: int)          // the second token, read as an integer
    | Find(keyword: string)       // the raw second token; the search trims it
    | Done(index: int)            // the second token, read as an integer
    | List                        // no argument
    | Exit                        // no argument
    | Add(tokens: seq<string>)    // every token, the keyword included

  const UnknownCommandMessage := "Oops! I'm sorry, but I don't know what that means :("

  /** The keywords that make an `Add` command. */
  predicate IsAddKeyword(key: string) {
    key == "todo" || key == "deadline" || key == "event"
  }

  /** Every first token the parser understands (matched case-sensitively). */
  predicate IsKeyword(key: string) {
    key == "delete" || key == "find" || key == "done" || key == "list" || key == "bye"
    || IsAddKeyword(key)
  }

  /** The integer argument of `delete` and `done`: the second token, read by
      Integer.parseInt; a missing token is an index fault. */
  function IndexArgument(comm: seq<string>): (r: Result<int>)
    ensures r.Ok? <==> |comm| >= 2 && ParseInt(comm[1]).Some?
    ensures r.Ok? ==> r.value == ParseInt(comm[1]).value
    ensures r.Err? ==> r.error == (if |comm| < 2 then IndexOutOfBoundsFault else NumberFormatFault)
  {
    if |comm| < 2 then Err(IndexOutOfBoundsFault) else ParseIntOrThrow(comm[1])
  }

  /** parse: the command named by the first token of the line. A line of
      spaces only has no first token (an index fault); an unknown first
      token raises DukeException. */
  function Parse(line: string): (r: Result<Command>)
    ensures r.Err? ==> r.error == DukeException(UnknownCommandMessage) || r.error.IsRuntimeFault()
  {
    var comm := Split(line, ' ');
    if |comm| == 0 then Err(IndexOutOfBoundsFault)
    else
      var key := comm[0];
      if key == "delete" then
        var n :- IndexArgument(comm);
        Ok(Delete(n))
      else if key == "find" then
        if |comm| < 2 then Err(IndexOutOfBoundsFault) else Ok(Find(comm[1]))
      else if key == "done" then
        var n :- IndexArgument(comm);
        Ok(Done(n))
      else if key == "list" then Ok(List)
      else if key == "bye" then Ok(Exit)
      else if IsAddKeyword(key) then Ok(Add(comm))
      else Err(DukeException(UnknownCommandMessage))
  }

  // ---------------------------------------------------------------------
  // Properties of the dispatch
  // ---------------------------------------------------------------------

  /** The line is rejected as unknown exactly when it has a first token and
      that token is none of the keywords; in particular "" (whose only token
      is "") and differently-cased keywords such as "List" are unknown. */
  lemma UnknownCommand(line: string)
    ensures Parse(line) == Err(DukeException(UnknownCommandMessage))
        <==> |Split(line, ' ')| >= 1 && !IsKeyword(Split(line, ' ')[0])
  {
  }

  /** A line of spaces only has no tokens, so reading the keyword faults. */
  lemma BlankLine(line: string)
    requires line != [] && AllSep(line, ' ')
    ensures Parse(line) == Err(IndexOutOfBoundsFault)
  {
    SplitSeparatorsOnly(line, ' ');
  }

  /** Which command comes out is decided by the first token alone. */
  lemma CommandOfKeyword(line: string)
    requires Parse(line).Ok?
    ensures var comm := Split(line, ' ');
      var c := Parse(line).value;
      |comm| >= 1
      && (c.Delete? <==> comm[0] == "delete")
      && (c.Find? <==> comm[0] == "find")
      && (c.Done? <==> comm[0] == "done")
      && (c.List? <==> comm[0] == "list")
      && (c.Exit? <==> comm[0] == "bye")
      && (c.Add? <==> IsAddKeyword(comm[0]))
  {
  }

  /** "delete" and "done" carry the integer parse of the second token; they
      fail with a runtime fault, never DukeException, when that token is
      missing or not a number. */
  lemma IndexCommands(line: string)
    requires var comm := Split(line, ' ');
      |comm| >= 1 && (comm[0] == "delete" || comm[0] == "done")
    ensures var comm := Split(line, ' ');
      && (Parse(line).Ok? <==> |comm| >= 2 && ParseInt(comm[1]).Some?)
      && (Parse(line).Ok? ==>
            Parse(line).value == (if comm[0] == "delete" then Delete(ParseInt(comm[1]).value)
                                  else Done(ParseInt(comm[1]).value)))
      && (Parse(line).Err? ==> Parse(line).error.IsRuntimeFault())
  {
  }

  /** "delete n" and "done n", written with the decimal digits of n and any
      further tokens, give back n. */
  lemma DeleteRoundTrip(n: nat, rest: string)
    requires n <= IntMax
    requires rest == [] || rest[0] == ' '
    ensures Parse("delete" + [' '] + Decimal(n) + rest) == Ok(Delete(n))
  {
    SplitLeadingTwo("delete", Decimal(n), rest, ' ');
    ParseDecimal(n);
  }

  lemma DoneRoundTrip(n: nat, rest: string)
    requires n <= IntMax
    requires rest == [] || rest[0] == ' '
    ensures Parse("done" + [' '] + Decimal(n) + rest) == Ok(Done(n))
  {
    SplitLeadingTwo("done", Decimal(n), rest, ' ');
    ParseDecimal(n);
  }

  /** A command keyword that needs an argument, followed by nothing but
      spaces, faults on the missing second token. */
  lemma MissingArgument(key: string, spaces: string)
    requires key == "delete" || key == "find" || key == "done"
    requires AllSep(spaces, ' ')
    ensures Parse(key + spaces) == Err(IndexOutOfBoundsFault)
  {
    SplitWordThenSeparators(key, spaces, ' ');
  }

  /** "find w" carries the second token only; later tokens are dropped. */
  lemma FindKeepsSecondToken(w: string, rest: string)
    requires w != [] && ' ' !in w
    requires rest == [] || rest[0] == ' '
    ensures Parse("find" + [' '] + w + rest) == Ok(Find(w))
  {
    SplitLeadingTwo("find", w, rest, ' ');
  }

  /** A line whose first token is "find" and which has a second token
      searches for that token exactly as split, empty or not. */
  lemma FindCarriesSecondToken(line: string)
    requires var comm := Split(line, ' ');
      |comm| >= 2 && comm[0] == "find"
    ensures Parse(line) == Ok(Find(Split(line, ' ')[1]))
  {
  }

  /** A doubled space after "find" makes the keyword the empty token. */
  lemma FindDoubledSpace(w: string)
    requires w != [] && ' ' !in w
    ensures Parse("find" + [' '] + [' '] + w) == Ok(Find(""))
  {
    SplitDoubledSeparator("find", w, ' ');
  }

  lemma FindDoubledSpaceExample()
    ensures Parse("find  cat") == Ok(Find(""))
  {
    assert "find  cat" == "find" + [' '] + [' '] + "cat";
    FindDoubledSpace("cat");
  }

  /** "list" and "bye" ignore whatever follows them. */
  lemma ListIgnoresArguments(rest: string)
    requires rest == [] || rest[0] == ' '
    ensures Parse("list" + rest) == Ok(List)
  {
    SplitLeading("list", rest, ' ');
  }

  lemma ByeIgnoresArguments(rest: string)
    requires rest == [] || rest[0] == ' '
    ensures Parse("bye" + rest) == Ok(Exit)
  {
    SplitLeading("bye", rest, ' ');
  }

  /** The line makes an add command exactly when its first token is "todo",
      "deadline" or "event"; the command then carries the whole token array,
      keyword included, and those tokens joined by single spaces give back
      the line up to its trailing spaces. */
  lemma AddCarriesLine(line: string)
    ensures (Parse(line).Ok? && Parse(line).value.Add?)
        <==> |Split(line, ' ')| >= 1 && IsAddKeyword(Split(line, ' ')[0])
    ensures Parse(line).Ok? && Parse(line).value.Add? ==>
      var tokens := Parse(line).value.tokens;
      && tokens == Split(line, ' ')
      && Join(tokens, ' ') <= line
      && AllSep(line[|Join(tokens, ' ')|..], ' ')
  {
    SplitJoin(line, ' ');
  }

  // ---------------------------------------------------------------------
  // Examples
  // ---------------------------------------------------------------------

  /** The empty line has the one token "", an unknown command, not a fault. */
  lemma EmptyLineExample()
    ensures Parse("") == Err(DukeException(UnknownCommandMessage))
  {
  }

  /** Keywords are case-sensitive. */
  lemma CapitalisedKeywordExample()
    ensures Parse("List") == Err(DukeException(UnknownCommandMessage))
  {
    assert ' ' !in "List";
  }

  /** A line of spaces has no keyword to read. */
  lemma BlankLineExample()
    ensures Parse("   ") == Err(IndexOutOfBoundsFault)
  {
    BlankLine("   ");
  }

  /** A doubled space before the index makes the second token empty, which
      parseInt rejects: a runtime fault, not DukeException. */
  lemma DoubledSpaceBeforeIndex(key: string, w: string)
    requires key == "delete" || key == "done"
    requires w != [] && ' ' !in w
    ensures Parse(key + [' '] + [' '] + w) == Err(NumberFormatFault)
  {
    SplitDoubledSeparator(key, w, ' ');
  }

  lemma DoubledSpaceExample()
    ensures Parse("done  3") == Err(NumberFormatFault)
  {
    assert "done  3" == "done" + [' '] + [' '] + "3";
    DoubledSpaceBeforeIndex("done", "3");
  }
}

/** The `find` command: it scans the task list in order, collects every task
    whose description has a word equal to the keyword, and renders the
    collected tasks as a numbered list. */
module Commands {
  import opened JavaStrings

  /** A task as the find command sees it: its description, and the text its
      `toString()` renders (status marker, kind, dates), both opaque here. */
  datatype Task = Task(description: string, text: string)

  /** The session's ordered task list; the find command only reads it. */
  class TaskList {
    var items: seq<Task>

    constructor (items: seq<Task>)
      ensures this.items == items
    {
      this.items := items;
    }
  }

  const MatchesHeader := "Here are the matching tasks in your list:"
  const NoMatchesMessage := "Oops, there are no tasks with that keyword!"

  // ---------------------------------------------------------------------
  // Specification of the search
  // ---------------------------------------------------------------------

  /** Some word of the description, split on single spaces and trimmed, is
      exactly the keyword (case-sensitive). */
  predicate HasWord(description: string, keyword: string) {
    var words := Split(description, ' ');
    exists j :: 0 <= j < |words| && Trim(words[j]) == keyword
  }

  /** The tasks that match the keyword, in list order. */
  function Matches(tasks: seq<Task>, keyword: string): seq<Task>
  {
    if tasks == [] then []
    else
      var last := tasks[|tasks| - 1];
      Matches(tasks[..|tasks| - 1], keyword) + (if HasWord(last.description, keyword) then [last] else [])
  }

  /** One more task is collected exactly when it matches. */
  lemma MatchesStep(tasks: seq<Task>, i: nat, keyword: string)
    requires i < |tasks|
    ensures Matches(tasks[..i + 1], keyword)
         == Matches(tasks[..i], keyword) + (if HasWord(tasks[i].description, keyword) then [tasks[i]] else [])
  {
    assert tasks[..i + 1][..i] == tasks[..i];
  }

  /** The search distributes over a split of the list, so the matches of
      an earlier task come before those of a later one. */
  lemma {:induction false} MatchesAppend(a: seq<Task>, b: seq<Task>, keyword: string)
    ensures Matches(a + b, keyword) == Matches(a, keyword) + Matches(b, keyword)
  {
    if b != [] {
      var b' := b[..|b| - 1];
      assert (a + b)[..|a + b| - 1] == a + b';
      MatchesAppend(a, b', keyword);
    } else {
      assert a + b == a;
    }
  }

  /** A task is among the matches exactly when it is in the list and its
      description has the keyword as a word. */
  lemma {:induction false} MatchesMembership(tasks: seq<Task>, keyword: string, t: Task)
    ensures t in Matches(tasks, keyword) <==> t in tasks && HasWord(t.description, keyword)
  {
    if tasks != [] {
      var init := tasks[..|tasks| - 1];
      MatchesMembership(init, keyword, t);
      assert tasks == init + [tasks[|tasks| - 1]];
    }
  }

  /** Each occurrence of a matching task is collected once and only once;
      a task that does not match is never collected. */
  lemma {:induction false} MatchesCount(tasks: seq<Task>, keyword: string, t: Task)
    ensures multiset(Matches(tasks, keyword))[t]
         == if HasWord(t.description, keyword) then multiset(tasks)[t] else 0
  {
    if tasks != [] {
      var init := tasks[..|tasks| - 1];
      MatchesCount(init, keyword, t);
      assert tasks == init + [tasks[|tasks| - 1]];
    }
  }

  /** A word of `description` at position `i`: the keyword, with a space or
      an end of the text on either side. */
  predicate WordAt(description: string, keyword: string, i: int) {
    0 <= i && i + |keyword| <= |description|
    && description[i..i + |keyword|] == keyword
    && (i == 0 || description[i - 1] == ' ')
    && (i + |keyword| == |description| || description[i + |keyword|] == ' ')
  }

  /** The keyword stands somewhere in `description` as a whole word. */
  predicate ContainsWord(description: string, keyword: string) {
    exists i :: 0 <= i <= |description| && WordAt(description, keyword, i)
  }

  /** Text whose only white-space character is the plain space. */
  predicate PlainText(s: string) {
    forall i :: 0 <= i < |s| ==> s[i] == ' ' || !IsSpace(s[i])
  }

  /** In a space-free text, the only whole word is the text itself. */
  lemma WordAtSingle(p: string, k: string, i: int)
    requires ' ' !in p && k != [] && ' ' !in k
    ensures WordAt(p, k, i) <==> i == 0 && k == p
  {
    if WordAt(p, k, i) {
      assert forall j :: 0 <= j < |p| ==> p[j] in p;
      assert p[0..|p|] == p;
    }
    if i == 0 && k == p {
      assert p[0..|p|] == p;
    }
  }

  /** A whole word that starts inside the first piece of `p + " " + J` is
      that piece. */
  lemma WordAtHead(p: string, J: string, k: string, i: int)
    requires ' ' !in p && k != [] && ' ' !in k
    requires i <= |p|
    ensures WordAt(p + [' '] + J, k, i) <==> i == 0 && k == p
  {
    var s := p + [' '] + J;
    if WordAt(s, k, i) {
      assert s[|p|] == ' ';
      assert forall j :: 0 <= j < |p| ==> s[j] == p[j] && p[j] in p;
      assert forall j :: i <= j < i + |k| ==> s[j] == k[j - i] && k[j - i] in k;
      assert k == s[0..|p|] == p;
    }
    if i == 0 && k == p {
      assert s[0..|p|] == p;
    }
  }

  /** A whole word after the first space of `p + " " + J` is a whole word
      of `J`, shifted. */
  lemma WordAtTail(p: string, J: string, k: string, i: int)
    requires i > |p|
    ensures WordAt(p + [' '] + J, k, i) <==> WordAt(J, k, i - |p| - 1)
  {
    var s := p + [' '] + J;
    var i' := i - |p| - 1;
    if i' + |k| <= |J| {
      assert s[i..i + |k|] == J[i'..i' + |k|];
      assert i' > 0 ==> s[i - 1] == J[i' - 1];
      assert i' == 0 ==> s[i - 1] == ' ';
      assert i' + |k| < |J| ==> s[i + |k|] == J[i' + |k|];
    }
  }

  /** A space-free text holds the keyword as a whole word exactly when it
      is the keyword. */
  lemma WordInSingle(p: string, k: string)
    requires ' ' !in p && k != [] && ' ' !in k
    ensures ContainsWord(p, k) <==> k == p
  {
    if k == p {
      WordAtSingle(p, k, 0);
    } else {
      forall i ensures !WordAt(p, k, i) {
        WordAtSingle(p, k, i);
      }
    }
  }

  /** A whole word of `p + " " + J` is the first piece or a whole word of
      `J`. */
  lemma WordInCons(s: string, p: string, J: string, k: string)
    requires s == p + [' '] + J
    requires ' ' !in p && k != [] && ' ' !in k
    ensures ContainsWord(s, k) <==> k == p || ContainsWord(J, k)
  {
    if k == p {
      WordAtHead(p, J, k, 0);
    } else if i' :| WordAt(J, k, i') {
      WordAtTail(p, J, k, i' + |p| + 1);
    } else {
      forall i ensures !WordAt(s, k, i) {
        if i <= |p| {
          WordAtHead(p, J, k, i);
        } else {
          WordAtTail(p, J, k, i);
        }
      }
    }
  }

  /** A space-free word is a token of space-joined space-free pieces
      exactly when it stands as a whole word in the joined text. */
  lemma {:induction false} WordInJoin(ps: seq<string>, k: string)
    requires |ps| >= 1
    requires forall j :: 0 <= j < |ps| ==> ' ' !in ps[j]
    requires k != [] && ' ' !in k
    ensures k in ps <==> ContainsWord(Join(ps, ' '), k)
  {
    var p := ps[0];
    if |ps| == 1 {
      assert ps == [p] && Join(ps, ' ') == p;
      WordInSingle(Join(ps, ' '), k);
      assert k in ps <==> k == p;
    } else {
      var rest := ps[1..];
      assert forall j :: 0 <= j < |rest| ==> ' ' !in rest[j] by {
        forall j | 0 <= j < |rest| ensures ' ' !in rest[j] {
          assert rest[j] == ps[j + 1];
        }
      }
      WordInJoin(rest, k);
      WordInCons(Join(ps, ' '), p, Join(rest, ' '), k);
      assert ps == [p] + rest;
      assert k in ps <==> k == p || k in rest;
    }
  }

  /** A piece of plain text joined by spaces is itself plain text. */
  lemma {:induction false} PlainPieces(ps: seq<string>, j: nat)
    requires j < |ps| && PlainText(Join(ps, ' '))
    ensures PlainText(ps[j])
  {
    if |ps| >= 2 {
      var s := Join(ps, ' ');
      assert s == ps[0] + [' '] + Join(ps[1..], ' ');
      if j == 0 {
        forall i | 0 <= i < |ps[0]| ensures ps[0][i] == ' ' || !IsSpace(ps[0][i]) {
          assert ps[0][i] == s[i];
        }
      } else {
        var J := Join(ps[1..], ' ');
        forall i | 0 <= i < |J| ensures J[i] == ' ' || !IsSpace(J[i]) {
          assert J[i] == s[|ps[0]| + 1 + i];
        }
        PlainPieces(ps[1..], j - 1);
      }
    }
  }

  /** Whole-word matching: in plain text, a space-free keyword matches a
      description exactly when it occurs there with a space or the end of the
      text on each side; a keyword inside a longer word does not match. */
  lemma WholeWordMatch(description: string, keyword: string)
    requires PlainText(description)
    requires keyword != [] && ' ' !in keyword
    ensures HasWord(description, keyword) <==> ContainsWord(description, keyword)
  {
    var ps := Pieces(description, ' ');
    JoinPieces(description, ' ');
    WordInJoin(ps, keyword);
    var words := Split(description, ' ');
    if ' ' !in description {
      PiecesOfWord(description, ' ');
    }
    assert words <= ps;
    forall j | 0 <= j < |words| ensures Trim(words[j]) == words[j] {
      PlainPieces(ps, j);
      assert words[j] == ps[j];
      TrimOfTrimmed(words[j]);
    }
    if keyword in ps {
      var j :| 0 <= j < |ps| && ps[j] == keyword;
      assert j < |words|;
      assert Trim(words[j]) == keyword;
    }
  }

  /** A description of two words matches exactly the keywords equal to one
      of them. */
  lemma TwoWordDescription(a: string, b: string, keyword: string)
    requires a != [] && ' ' !in a && !IsSpace(a[0]) && !IsSpace(a[|a| - 1])
    requires b != [] && ' ' !in b && !IsSpace(b[0]) && !IsSpace(b[|b| - 1])
    ensures HasWord(a + [' '] + b, keyword) <==> keyword == a || keyword == b
  {
    SplitTwoWords(a, b, ' ');
    TrimOfTrimmed(a);
    TrimOfTrimmed(b);
    var words := Split(a + [' '] + b, ' ');
    assert words[0] == a && words[1] == b;
  }

  /** A keyword found only inside a longer word is not a match. */
  lemma NoPartialWordExample()
    ensures !HasWord("buy cats", "cat")
    ensures HasWord("feed cat", "cat")
  {
    assert "buy cats" == "buy" + [' '] + "cats";
    TwoWordDescription("buy", "cats", "cat");
    assert "feed cat" == "feed" + [' '] + "cat";
    TwoWordDescription("feed", "cat", "cat");
  }

  /** execute's inner loop: the words of the description, split on single
      spaces, are trimmed and compared with the keyword in order, stopping at
      the first that is equal. */
  method ScanWords(description: string, keyword: string) returns (found: bool)
    ensures found <==> HasWord(description, keyword)
  {
    var splitWords := Split(description, ' ');
    var j := 0;
    while j < |splitWords|
      invariant 0 <= j <= |splitWords|
      invariant forall k :: 0 <= k < j ==> Trim(splitWords[k]) != keyword
    {
      if Trim(splitWords[j]) == keyword {
        return true;
      }
      j := j + 1;
    }
    return false;
  }

  // ---------------------------------------------------------------------
  // The command object
  // ---------------------------------------------------------------------

  class FindCommand {
    /** The search word, trimmed once when the command is made. */
    const keyword: string
    /** The tasks found so far; never cleared. */
    var matchedTasks: seq<Task>

    constructor (keyword: string)
      ensures this.keyword == Trim(keyword)
      ensures matchedTasks == []
    {
      this.keyword := Trim(keyword);
      matchedTasks := [];
    }

    /** execute: append the matching tasks, in list order, to the tasks
        found so far, and answer with all of them. The task list is only
        read. */
    method Execute(tasks: TaskList) returns (response: string)
      modifies this
      ensures tasks.items == old(tasks.items)
      ensures matchedTasks == old(matchedTasks) + Matches(tasks.items, keyword)
      ensures response == Render(matchedTasks)
    {
      var allTasks := tasks.items;
      var i := 0;
      while i < |allTasks|
        invariant 0 <= i <= |allTasks|
        invariant matchedTasks == old(matchedTasks) + Matches(allTasks[..i], keyword)
      {
        var task := allTasks[i];
        var found := ScanWords(task.description, keyword);
        if found {
          matchedTasks := matchedTasks + [task];
        }
        MatchesStep(allTasks, i, keyword);
        i := i + 1;
      }
      assert allTasks[..i] == allTasks;
      response := PrintAllMatches();
    }

    /** printAllMatches: the header and one numbered line per found task,
        or the no-match message when nothing was found. */
    method PrintAllMatches() returns (response: string)
      ensures response == Render(matchedTasks)
    {
      if |matchedTasks| > 0 {
        var printedLines := MatchesHeader + "\n";
        var index := 1;
        var k := 0;
        while k < |matchedTasks|
          invariant 0 <= k <= |matchedTasks| && index == k + 1
          invariant printedLines == MatchesHeader + "\n" + NumberedLines(matchedTasks[..k], 1)
        {
          var task := matchedTasks[k];
          NextLine(MatchesHeader + "\n", matchedTasks, k);
          printedLines := printedLines + (Decimal(index) + "." + task.text + "\n");
          index := index + 1;
          k := k + 1;
        }
        assert matchedTasks[..k] == matchedTasks;
        response := Trim(printedLines);
      } else {
        response := NoMatchesMessage;
      }
    }

    /** isExit: a search never ends the session. */
    function IsExit(): (exit: bool)
      ensures !exit
    {
      false
    }
  }

  /** The found tasks are never cleared: running the same command twice
      over the same list answers with every match listed twice, the first
      run's matches first. */
  method ExecuteTwice(command: FindCommand, tasks: TaskList) returns (first: string, second: string)
    requires command.matchedTasks == []
    modifies command
    ensures var found := Matches(tasks.items, command.keyword);
      && first == Render(found)
      && second == Render(found + found)
      && command.matchedTasks == found + found
  {
    ghost var found := Matches(tasks.items, command.keyword);
    first := command.Execute(tasks);
    assert command.matchedTasks == [] + found == found;
    second := command.Execute(tasks);
  }

  // ---------------------------------------------------------------------
  // Specification of the response
  // ---------------------------------------------------------------------

  /** One line of the answer: the number, a dot, the task's text. */
  function Line(number: nat, t: Task): string
  {
    Decimal(number) + "." + t.text + "\n"
  }

  /** The lines of `tasks`, numbered consecutively from `first`. */
  function Lines(tasks: seq<Task>, first: nat): (r: seq<string>)
    ensures |r| == |tasks|
  {
    seq(|tasks|, i requires 0 <= i < |tasks| => Line(first + i, tasks[i]))
  }

  /** The strings of `ls`, one after another. */
  function Concat(ls: seq<string>): string
  {
    if ls == [] then "" else Concat(ls[..|ls| - 1]) + ls[|ls| - 1]
  }

  /** The text of the numbered lines of `tasks`. */
  function NumberedLines(tasks: seq<Task>, first: nat): string
  {
    Concat(Lines(tasks, first))
  }

  /** The answer for the found tasks, trimmed as a whole. */
  function Render(found: seq<Task>): string
  {
    if |found| > 0 then Trim(MatchesHeader + "\n" + NumberedLines(found, 1))
    else NoMatchesMessage
  }

  /** Concatenation distributes over a split of the strings. */
  lemma {:induction false} ConcatAppend(a: seq<string>, b: seq<string>)
    ensures Concat(a + b) == Concat(a) + Concat(b)
  {
    if b == [] {
      assert a + b == a;
    } else {
      var b', x := b[..|b| - 1], b[|b| - 1];
      assert (a + b)[..|a + b| - 1] == a + b' && (a + b)[|a + b| - 1] == x;
      ConcatAppend(a, b');
    }
  }

  /** Numbering continues across a split of the list. */
  lemma NumberedLinesAppend(a: seq<Task>, b: seq<Task>, first: nat)
    ensures NumberedLines(a + b, first) == NumberedLines(a, first) + NumberedLines(b, first + |a|)
  {
    assert Lines(a + b, first) == Lines(a, first) + Lines(b, first + |a|);
    ConcatAppend(Lines(a, first), Lines(b, first + |a|));
  }

  /** A single task is one line. */
  lemma NumberedSingle(t: Task, number: nat)
    ensures NumberedLines([t], number) == Line(number, t)
  {
    var line := Line(number, t);
    assert Lines([t], number) == [line];
    assert [line][..0] == [];
    assert Concat([line]) == Concat([]) + line == line;
  }

  /** One more task adds its line, numbered one past the previous lines. */
  lemma NextLine(head: string, tasks: seq<Task>, k: nat)
    requires k < |tasks|
    ensures head + NumberedLines(tasks[..k + 1], 1)
         == head + NumberedLines(tasks[..k], 1) + (Decimal(k + 1) + "." + tasks[k].text + "\n")
  {
    assert tasks[..k + 1] == tasks[..k] + [tasks[k]];
    NumberedLinesAppend(tasks[..k], [tasks[k]], 1);
    NumberedSingle(tasks[k], k + 1);
  }

  /** The task at position `i` is on the line numbered `i + 1`, between the
      lines of the tasks before it and those after it. */
  lemma NumberedLineOf(tasks: seq<Task>, i: nat)
    requires i < |tasks|
    ensures NumberedLines(tasks, 1)
         == NumberedLines(tasks[..i], 1) + (Line(i + 1, tasks[i]) + NumberedLines(tasks[i + 1..], i + 2))
  {
    var before, t, after := tasks[..i], tasks[i], tasks[i + 1..];
    assert tasks == before + ([t] + after);
    NumberedLinesAppend(before, [t] + after, 1);
    NumberedLinesAppend([t], after, i + 1);
    NumberedSingle(t, i + 1);
  }

  /** With matches, the answer is the header, a newline and the numbered
      lines; the trim removes nothing but the white space at the very end. */
  lemma RenderShape(found: seq<Task>)
    requires |found| > 0
    ensures Render(found) == MatchesHeader + "\n" + TrimTrailing(NumberedLines(found, 1))
  {
    var n := |found|;
    var init := NumberedLines(found[..n - 1], 1);
    var digits := Decimal(n);
    var line := Line(n, found[n - 1]);
    assert line[|digits|] == '.';
    var k := |init| + |digits|;
    assert found == found[..n - 1] + [found[n - 1]];
    NumberedLinesAppend(found[..n - 1], [found[n - 1]], 1);
    NumberedSingle(found[n - 1], n);
    assert NumberedLines(found, 1) == init + line;
    assert NumberedLines(found, 1)[k] == '.';
    TrimAfterHead(MatchesHeader + "\n", NumberedLines(found, 1), k);
  }
}

# Duke command core in Dafny

This project models three pieces of the Duke task assistant's command core
and proves properties of them:

- **Date and time rendering** (`DateTime.dfy`, module `DateTime`). A
  `d/m/y` date string becomes text such as `"3rd of June 2019, "`, and a
  four-character 24-hour time becomes text such as `"6pm"` or `"0.30pm"`.
  Each Java method is a total function returning `Result<string>`. The result
  is the text, a `DateException` with the source's message, or the runtime
  fault Java would raise: `NumberFormatFault` for `Integer.parseInt`, and
  `IndexOutOfBoundsFault` for a missing array element or a short `substring`.
  The faults are raised in the order the Java evaluates them, with the
  character-counting caveat under "Left out".
- **Keyword search** (`FindCommand.dfy`, module `Commands`). `FindCommand` is
  a class:
  - the keyword is trimmed once in the constructor;
  - `matchedTasks` is a `seq<Task>` field that `Execute` appends to in place
    and never clears;
  - `Execute` and `PrintAllMatches` are methods with loop invariants, proved
    against the specification functions `Matches` (the matching tasks in list
    order) and `Render` (the answer text).

  A task is a value with a description and the text its `toString()`
  renders.
- **Command dispatch** (`Parser.dfy`, module `Parser`). `Parse` splits a line
  on single spaces and maps the first token to a `Command` datatype value:
  `Delete`, `Find`, `Done`, `List`, `Exit` or `Add`. An unknown keyword raises
  `DukeException`.

Two shared modules hold what the three pieces rely on:
- `Errors.dfy` holds the `Result` and `Error` types.
- `JavaStrings.dfy` states the `java.lang` operations the code uses:
  - `String.split` with a one-character separator. Consecutive separators
    give empty tokens, trailing empty tokens are dropped, `""` gives `[""]`,
    and a string of separators only gives no token.
  - `String.trim`, as Java's two index scans over characters up to U+0020.
  - `Integer.parseInt`: an optional sign, ASCII digits and the 32-bit range.
  - `Integer.toString` of a non-negative value.

Behaviour of the code worth knowing, which the model reproduces:
- `matchedTasks` is a field that is never cleared, so a second `execute`
  on the same command lists the earlier matches again
  (`Commands.ExecuteTwice`).
- The minutes are characters 2 and 3 of the time; anything after the fourth
  character is ignored (`DateTime.GetTimeReadsFourCharacters`).
- The parser passes the raw second token to `FindCommand`, and the
  constructor trims it. A doubled space after `find` makes that token empty,
  so the search is for the empty keyword (`Parser.FindDoubledSpaceExample`).
- Hours 12 and 24 render as `"0"` (`12 % 12`, `24 % 12`), so `"1230"` is
  `"0.30pm"` (`DateTime.HalfPastNoonExample`, `DateTime.Hour24Example`).
- The days 21, 22, 23 and 31 get `"th"`. `DateTime.DaySuffixAgainstEnglish`
  proves that these are exactly the days of a month on which the code
  differs from English usage.

## Model

| member | source | states |
|---|---|---|
| DateTime.DaySuffix | src/main/java/duke/managers/DateTime.java:47-55 | the suffix is "st", "nd", "rd" exactly for 1, 2, 3, and "th" exactly for every other number, 11-13, 21-23 and 31 included |
| DateTime.DaySuffixAgainstEnglish | src/main/java/duke/managers/DateTime.java:47-55 | on days 1..31 the suffix agrees with the English ordinal suffix if and only if the day is not 21, 22, 23 or 31 |
| DateTime.AddDaySuffix | src/main/java/duke/managers/DateTime.java:44-57 | succeeds exactly when the day parses; the result is the day text verbatim followed by the suffix of its value; failure is a NumberFormatFault |
| DateTime.WordMonth | src/main/java/duke/managers/DateTime.java:64-94 | month numbers 1..12 give the month names in calendar order, any other number is DateException "Invalid month entered!", an unparsable month is a NumberFormatFault |
| DateTime.WordMonthInjective | src/main/java/duke/managers/DateTime.java:66-90 | two months with the same name have the same number |
| DateTime.GetDate | src/main/java/duke/managers/DateTime.java:30-36 | the only failures are runtime faults and the invalid-month DateException |
| DateTime.SplitDateFields | src/main/java/duke/managers/DateTime.java:31 | splitting `day/month/year...` on "/" gives day, month and year as the first three fields |
| DateTime.GetDateOfParsedFields | src/main/java/duke/managers/DateTime.java:30-35 | with three fields whose day and month parse, the text is day + suffix + " of " + month name + " " + third field + ", ", or the invalid-month DateException |
| DateTime.GetDateOfFields | src/main/java/duke/managers/DateTime.java:30-36 | for digit-string day and month and any year text, the rendering is the day verbatim with its suffix, the month name and the unvalidated year, or DateException for a month outside 1..12 |
| DateTime.GetDateOfValues | src/main/java/duke/managers/DateTime.java:30-36 | a date `day/month/year` whose digit fields have the values d and m, with m in 1..12, renders as day + suffix of d + " of " + name of month m + " " + year + ", " |
| DateTime.ThirdOfJuneExample | src/main/java/duke/managers/DateTime.java:30-36 | "3/6/2019" renders as "3rd of June 2019, " |
| DateTime.EleventhExample | src/main/java/duke/managers/DateTime.java:47-55 | "11/1/2020" renders as "11th of January 2020, " |
| DateTime.TwentyFirstExample | src/main/java/duke/managers/DateTime.java:47-55 | "21/12/2019" renders as "21th of December 2019, " |
| DateTime.ThirteenthMonthExample | src/main/java/duke/managers/DateTime.java:91-92 | "1/13/2019" is the invalid-month DateException |
| DateTime.GetHours | src/main/java/duke/managers/DateTime.java:120-137 | an unparsable hour is a NumberFormatFault, an hour above 24 is DateException "Invalid time entered!", and every success had an hour of at most 24 |
| DateTime.SingleDigitHour | src/main/java/duke/managers/DateTime.java:128-129 | hours 01 to 09 lose their leading zero |
| DateTime.TenOrElevenHour | src/main/java/duke/managers/DateTime.java:130-131 | hours 10 and 11 are kept as written |
| DateTime.GetHoursOfDigits | src/main/java/duke/managers/DateTime.java:120-137 | for two digits: above 24 is a DateException, otherwise the text is "12" for 0 and the decimal of hour mod 12 for every other hour (so 12 and 24 give "0") |
| DateTime.GetMinutes | src/main/java/duke/managers/DateTime.java:144-153 | above 60 is a DateException, 1..60 give "." and the two characters as given, 0 and below give "", an unparsable minute is a NumberFormatFault |
| DateTime.GetTime | src/main/java/duke/managers/DateTime.java:101-113 | the only failures are runtime faults and the invalid-time DateException; a success needs at least four characters |
| DateTime.GetTimeReadsFourCharacters | src/main/java/duke/managers/DateTime.java:103-105 | only the first four characters of the time are read |
| DateTime.GetTimeOfDigits | src/main/java/duke/managers/DateTime.java:101-113 | a four-digit time is a DateException when the hour is above 24 or the minute above 60, and otherwise renders as hour text + minute text + ("am" if hour < 12 else "pm") |
| DateTime.GetTimeOfClock | src/main/java/duke/managers/DateTime.java:101-113 | the four-digit rendering with the hour and minute values given |
| DateTime.MidnightExample | src/main/java/duke/managers/DateTime.java:126-127 | "0000" renders as "12am" |
| DateTime.EveningExample | src/main/java/duke/managers/DateTime.java:133-135 | "1800" renders as "6pm" |
| DateTime.HalfPastNoonExample | src/main/java/duke/managers/DateTime.java:133-135 | "1230" renders as "0.30pm" |
| DateTime.Hour24Example | src/main/java/duke/managers/DateTime.java:123-135 | hour 24 is accepted and "2400" renders as "0pm" |
| DateTime.Minute60Example | src/main/java/duke/managers/DateTime.java:146-149 | minute 60 is accepted and "0960" renders as "9.60am" |
| DateTime.ElevenExample | src/main/java/duke/managers/DateTime.java:130-131 | "1105" renders as "11.05am" |
| DateTime.OutOfRangeTimeExamples | src/main/java/duke/managers/DateTime.java:123-147 | "2500" and "1261" are the invalid-time DateException |
| Commands.ScanWords | src/main/java/duke/commands/FindCommand.java:45-51 | the scan of the split, trimmed words finds the keyword if and only if the description has it as a word |
| Commands.FindCommand.constructor | src/main/java/duke/commands/FindCommand.java:28-30 | the keyword is the trimmed argument and no task has been found yet |
| Commands.FindCommand.Execute | src/main/java/duke/commands/FindCommand.java:40-54 | the task list is unchanged, the matching tasks in list order are appended to the earlier matches, and the answer is the rendering of all of them |
| Commands.FindCommand.PrintAllMatches | src/main/java/duke/commands/FindCommand.java:60-72 | the answer is the rendering of the found tasks: trimmed header and numbered lines, or the no-match message |
| Commands.FindCommand.IsExit | src/main/java/duke/commands/FindCommand.java:74-76 | a search never ends the session |
| Commands.ExecuteTwice | src/main/java/duke/commands/FindCommand.java:22-54 | running one command twice over the same list lists every match twice, since the found tasks are never cleared |
| Commands.MatchesStep | src/main/java/duke/commands/FindCommand.java:43-51 | one more task is collected exactly when it matches |
| Commands.MatchesAppend | src/main/java/duke/commands/FindCommand.java:43-52 | the search distributes over a split of the list, so list order is kept |
| Commands.MatchesMembership | src/main/java/duke/commands/FindCommand.java:43-51 | a task is among the matches if and only if it is in the list and its description has the keyword as a word |
| Commands.MatchesCount | src/main/java/duke/commands/FindCommand.java:46-50 | a matching task is collected once per occurrence in the list, however often the keyword occurs in it; a task that does not match, never |
| Commands.WordInJoin | src/main/java/duke/commands/FindCommand.java:45-47 | a space-free keyword is one of the space-free tokens if and only if it stands as a whole word in their space-joined text |
| Commands.WholeWordMatch | src/main/java/duke/commands/FindCommand.java:45-47 | in text whose only white space is the space, a keyword matches if and only if it occurs with a space or the end of the text on each side |
| Commands.TwoWordDescription | src/main/java/duke/commands/FindCommand.java:45-47 | a two-word description matches exactly the keywords equal to one of its words |
| Commands.NoPartialWordExample | src/main/java/duke/commands/FindCommand.java:45-47 | "cat" does not match "buy cats" and matches "feed cat" |
| Commands.NextLine | src/main/java/duke/commands/FindCommand.java:65 | each found task adds the line index + "." + text + newline, numbered one past the previous lines |
| Commands.NumberedLinesAppend | src/main/java/duke/commands/FindCommand.java:63-67 | numbering continues across a split of the found tasks |
| Commands.NumberedLineOf | src/main/java/duke/commands/FindCommand.java:63-67 | the task at position i is on the line numbered i + 1, between the lines of the tasks before and after it |
| Commands.RenderShape | src/main/java/duke/commands/FindCommand.java:61-68 | with matches, the answer is the header, a newline and the numbered lines, with only white space at the very end removed |
| JavaStrings.Split | src/main/java/duke/managers/Parser.java:32 | no token contains the separator, "" gives [""], and a non-empty text never gives a trailing empty token |
| JavaStrings.SplitJoin | src/main/java/duke/managers/Parser.java:32 | the tokens joined by the separator are the text up to a run of trailing separators |
| JavaStrings.JoinPieces | src/main/java/duke/managers/Parser.java:32 | joining the pieces between separators gives back the text |
| JavaStrings.PiecesJoin | src/main/java/duke/managers/Parser.java:32 | cutting the separator-join of separator-free pieces at each separator gives back the pieces |
| JavaStrings.SplitSeparatorsOnly | src/main/java/duke/managers/Parser.java:32 | a non-empty text of separators only has no token |
| JavaStrings.SplitWordThenSeparators | src/main/java/duke/managers/Parser.java:32 | a word followed only by separators is the one token |
| JavaStrings.SplitDoubledSeparator | src/main/java/duke/managers/Parser.java:32 | two separators in a row make an empty token |
| JavaStrings.Trim | src/main/java/duke/commands/FindCommand.java:29 | the trimmed text is no longer than the text and begins and ends with a character above U+0020 |
| JavaStrings.TrimStartIndex | src/main/java/duke/commands/FindCommand.java:29 | trim's start skips exactly the leading characters up to U+0020 |
| JavaStrings.TrimEndIndex | src/main/java/duke/commands/FindCommand.java:29 | trim's end drops exactly the trailing characters up to U+0020, never passing the start |
| JavaStrings.TrimToEmpty | src/main/java/duke/commands/FindCommand.java:47 | a word trims to nothing if and only if it is all white space |
| JavaStrings.TrimIdempotent | src/main/java/duke/commands/FindCommand.java:29 | trimming the keyword twice is trimming it once |
| JavaStrings.TrimAfterHead | src/main/java/duke/commands/FindCommand.java:68 | trimming a text that starts with a non-space character removes only its trailing white space |
| JavaStrings.Decimal | src/main/java/duke/managers/DateTime.java:134 | Integer.toString of a non-negative value is non-empty digits, without a leading zero, whose value is the number |
| JavaStrings.ParseInt | src/main/java/duke/managers/DateTime.java:45 | parseInt succeeds exactly on an optional sign followed by at least one ASCII digit whose value fits the 32-bit range (down to 2^31 with a minus sign); the value lies in that range, has the digits' magnitude and is negative only after a minus sign |
| JavaStrings.ParseDecimal | src/main/java/duke/managers/Parser.java:36 | parseInt reads back what toString writes |
| JavaStrings.ParseDigits | src/main/java/duke/managers/DateTime.java:45 | a non-empty digit string within the int range parses to its decimal value |
| JavaStrings.DecimalOfDigits | src/main/java/duke/managers/DateTime.java:131 | digits without a leading zero are the decimal text of their value |
| Parser.IndexArgument | src/main/java/duke/managers/Parser.java:36 | the index is the parse of the second token; a missing token is an index fault, a non-number a NumberFormatFault |
| Parser.Parse | src/main/java/duke/managers/Parser.java:30-51 | the only failures are the unknown-command DukeException and runtime faults |
| Parser.UnknownCommand | src/main/java/duke/managers/Parser.java:46-50 | the line is an unknown command if and only if it has a first token that is none of the eight keywords |
| Parser.BlankLine | src/main/java/duke/managers/Parser.java:32-33 | a line of spaces only faults on reading the keyword |
| Parser.CommandOfKeyword | src/main/java/duke/managers/Parser.java:35-47 | each command variant comes out if and only if the first token is its keyword |
| Parser.IndexCommands | src/main/java/duke/managers/Parser.java:35-41 | delete and done succeed exactly when a second token parses, carry its value, and otherwise fail with a runtime fault, never a DukeException |
| Parser.DeleteRoundTrip | src/main/java/duke/managers/Parser.java:35-36 | "delete n", with n in decimal and any further tokens, gives Delete(n) |
| Parser.DoneRoundTrip | src/main/java/duke/managers/Parser.java:39-41 | "done n", with n in decimal and any further tokens, gives Done(n) |
| Parser.MissingArgument | src/main/java/duke/managers/Parser.java:35-41 | delete, find or done followed only by spaces faults on the missing second token |
| Parser.FindKeepsSecondToken | src/main/java/duke/managers/Parser.java:37-38 | "find w ..." carries w only and drops later tokens |
| Parser.FindCarriesSecondToken | src/main/java/duke/managers/Parser.java:37-38 | whenever the first token is "find" and a second token exists, the command searches for that token exactly as split, empty or not |
| Parser.FindDoubledSpace | src/main/java/duke/managers/Parser.java:32-38 | a doubled space after "find" makes the keyword the empty token |
| Parser.FindDoubledSpaceExample | src/main/java/duke/managers/Parser.java:32-38 | "find  cat" searches for "" |
| Parser.ListIgnoresArguments | src/main/java/duke/managers/Parser.java:42-43 | "list" with anything after a space is List |
| Parser.ByeIgnoresArguments | src/main/java/duke/managers/Parser.java:44-45 | "bye" with anything after a space is Exit |
| Parser.AddCarriesLine | src/main/java/duke/managers/Parser.java:46-47 | the line is an add command if and only if the first token is todo, deadline or event; it then carries all tokens, keyword included, which join back to the line less its trailing spaces |
| Parser.DoubledSpaceBeforeIndex | src/main/java/duke/managers/Parser.java:39-41 | a doubled space before the index makes an empty token and a NumberFormatFault |
| Parser.EmptyLineExample | src/main/java/duke/managers/Parser.java:48-50 | "" is an unknown command, not a fault |
| Parser.CapitalisedKeywordExample | src/main/java/duke/managers/Parser.java:42-50 | "List" is an unknown command: keywords are case-sensitive |
| Parser.BlankLineExample | src/main/java/duke/managers/Parser.java:32-33 | "   " is an index fault |
| Parser.DoubledSpaceExample | src/main/java/duke/managers/Parser.java:39-41 | "done  3" is a NumberFormatFault |

## Left out

- The `Ui` and `Storage` collaborators: `ui.printLine` is taken as the identity on its argument, and the `ui` field that `execute` sets is not modelled.
- The `IOException` and `DukeException` in `execute`'s signature: a search performs no I/O and throws neither.
- The `Task` and `TaskList` classes: a task is a value with its description and its rendered text, and the task list is a class holding a sequence that the search only reads.
- Execution of the Add, Delete, Done, List and Exit commands: their classes are outside this model. `Command` carries only the constructor arguments the parser supplies.
- The Java `assert` statements in `parse`: assertions are disabled by default at run time, so they are not checks.
- The unused fields `day`, `month` and `year`, and the unused tables `daySuffix` and `monthName` in `DateTime`. The `daySuffix` table would give "st", "nd", "rd" for 21, 22, 23 and 31, but the code never reads it.
- Strings are sequences of Unicode scalar values, while Java's `length` and `substring` count UTF-16 code units. This only changes which runtime fault a time holding a character outside the Basic Multilingual Plane raises: for `"12"` followed by one such character, Java reads a surrogate pair as the minutes and raises NumberFormatException, and the model sees three characters and raises an index fault.
- `Integer.parseInt` accepts non-ASCII Unicode digits. The model accepts ASCII digits only (with sign and 32-bit range).
- Null arguments and the `NullPointerException` they would raise.
- The `int` counter that numbers the found tasks: it would wrap after 2^31 - 1 matches, and the model counts without bound.
- Commands.FindCommand.Execute: the source's inner word loop appends the task and breaks inside the loop. The model runs that loop as the state-free method `Commands.ScanWords`, and `Execute` appends right after it returns. The order of effects is the same.
- DateTime.GetHours: its contract pins the text only for two-digit hours (`DateTime.GetHoursOfDigits`). Signed hours such as "+5" are modelled in the body but not characterised by a lemma.
- DateTime.GetTime: its rendering is characterised only for four-digit times (`DateTime.GetTimeOfDigits`). Signed fields such as "+1+1" are modelled in the body but not characterised.

/** The changelog script on the text that `git log --summary --stat` writes. */
module GitLog {
  import opened Changelog
  import opened ChangelogBlocks
  import opened ChangelogSafety
  import opened Prelude
  import opened Text

  /** One line of --stat: the file name, padded with spaces, and the size of its change. */
  datatype Stat = Stat(file: string, padding: nat, change: string)

  /** A commit as git prints it.  `summary` is the "files changed" line and `rest` the lines after it:
    what --summary adds and the empty line before the next commit. */
  datatype LoggedCommit = LoggedCommit(
    hash: string, author: string, date: string,
    message: seq<string>, stats: seq<Stat>, summary: string,
    rest: seq<string>)

  function Spaces(n: nat): string {
    if n == 0 then "" else Spaces(n - 1) + " "
  }

  function MessageText(line: string): string {
    "    " + line + "\n"
  }

  function StatText(s: Stat): string {
    (" " + s.file + Spaces(s.padding)) + " | " + (s.change + "\n")
  }

  function MessageTexts(message: seq<string>): seq<string> {
    seq(|message|, k requires 0 <= k < |message| => MessageText(message[k]))
  }

  function StatTexts(stats: seq<Stat>): seq<string> {
    seq(|stats|, k requires 0 <= k < |stats| => StatText(stats[k]))
  }

  function CommitText(c: LoggedCommit): seq<string> {
    ["commit " + c.hash + "\n", "Author: " + c.author + "\n", "Date:   " + c.date + "\n", "\n"]
    + MessageTexts(c.message) + ["\n"] + StatTexts(c.stats) + [c.summary] + c.rest
  }

  function LogText(cs: seq<LoggedCommit>): seq<string> {
    if cs == [] then [] else LogText(cs[..|cs| - 1]) + CommitText(cs[|cs| - 1])
  }

  /** A line that no keyword test of the script takes for something else. */
  predicate Plain(line: string) {
    Classify(line).Other?
  }

  ghost predicate PlainStat(s: Stat) {
    && Plain(StatText(s)) && !SaysChanged(StatText(s))
    && !Contains((" " + s.file + Spaces(s.padding)) + " |", " | ")
    && s.file != "" && Strip(s.file) == s.file
  }

  /** No text collides with a keyword. */
  ghost predicate Printed(c: LoggedCommit) {
    && !Contains("Date:   " + c.date + "\n", "Author:")
    && (forall k :: 0 <= k < |c.message| ==> Plain(MessageText(c.message[k])))
    && (forall k :: 0 <= k < |c.stats| ==> PlainStat(c.stats[k]))
    && Plain(c.summary) && SaysChanged(c.summary)
    && (forall k :: 0 <= k < |c.rest| ==> Plain(c.rest[k]) || Classify(c.rest[k]).Ignored?)
  }

  /** A line that reaches the emission check once the files are found. */
  predicate Reaches(line: string) {
    Plain(line) && !SaysChanged(line)
  }

  ghost predicate Ended(c: LoggedCommit) {
    exists k :: 0 <= k < |c.rest| && Reaches(c.rest[k])
  }

  /** Line k is the first one that reaches the emission check, and it names no file. */
  ghost predicate EndsAt(c: LoggedCommit, k: nat) {
    && k < |c.rest| && Reaches(c.rest[k]) && FileOf(c.rest[k]) == None
    && forall j :: 0 <= j < k ==> !Reaches(c.rest[j])
  }

  /** The message does not begin with an empty line, and some line without a file name ends the
    commit. */
  ghost predicate Regular(c: LoggedCommit) {
    && Printed(c)
    && (c.message != [] ==> Strip(c.message[0]) != "")
    && exists k: nat :: EndsAt(c, k)
  }

  function Stripped(message: seq<string>): seq<string> {
    if message == [] then [] else Stripped(message[..|message| - 1]) + [Strip(message[|message| - 1])]
  }

  function Names(stats: seq<Stat>): seq<string> {
    if stats == [] then [] else Names(stats[..|stats| - 1]) + [stats[|stats| - 1].file]
  }

  /** The changelog entry of a commit. */
  function EntryOf(c: LoggedCommit): Entry {
    Entry(c.author, c.date, Join(" ", Stripped(c.message)), Join(", ", Names(c.stats)))
  }

  function EntriesOf(cs: seq<LoggedCommit>): seq<Entry> {
    if cs == [] then [] else EntriesOf(cs[..|cs| - 1]) + [EntryOf(cs[|cs| - 1])]
  }

  // ----- the padding

  lemma {:induction false} SpacesAreBlank(n: nat)
    ensures Blank(Spaces(n)) && |Spaces(n)| == n
  {
    if n > 0 {
      SpacesAreBlank(n - 1);
    }
  }

  // ----- the lines as the script classifies them

  /** The separator does not begin before the end of the padding. */
  lemma {:induction false} NoEarlySeparator(before: string, after: string, k: nat)
    requires !Contains(before + " |", " | ") && k < |before|
    ensures !(" | " <= (before + " | " + after)[k..])
  {
    hide Contains;
    var text, start := before + " | " + after, before + " |";
    if " | " <= text[k..] {
      assert start == text[..|start|];
      assert forall j :: 0 <= j < 3 ==> start[k..][j] == text[k..][j] == " | "[j];
      ContainsAt(start, " | ", k);
    }
  }

  lemma {:induction false} StatReadBack(s: Stat)
    requires PlainStat(s)
    ensures FileOf(StatText(s)) == Some(s.file)
  {
    hide Contains, Split, Strip, SaysChanged, Plain;
    var before, after := " " + s.file + Spaces(s.padding), s.change + "\n";
    forall k | 0 <= k < |before|
      ensures !(" | " <= (before + " | " + after)[k..])
    {
      NoEarlySeparator(before, after, k);
    }
    SplitFirst(before, " | ", after);
    SpacesAreBlank(s.padding);
    StripPadded(" ", s.file, Spaces(s.padding));
  }

  /** The stat line as the script sees it. */
  lemma {:induction false} ClassifyStat(s: Stat)
    requires PlainStat(s)
    ensures var l := Classify(StatText(s)); l.Other? && !l.changed && l.file == Some(s.file)
  {
    StatReadBack(s);
    hide StatText, SaysChanged, FileOf;
  }

  lemma {:induction false} MessageReadBack(line: string)
    requires Plain(MessageText(line))
    ensures IsMessage(Classify(MessageText(line)))
    ensures Classify(MessageText(line)).text == Strip(line)
  {
    StripPadded("    ", line, "\n");
  }

  lemma {:induction false} ClassifyAllAt(lines: seq<string>, k: nat)
    requires k < |lines|
    ensures ClassifyAll(lines)[k] == Classify(lines[k])
    decreases |lines|
  {
    if k < |lines| - 1 {
      ClassifyAllAt(lines[..|lines| - 1], k);
    }
  }

  lemma {:induction false} ClassifyAppend(a: seq<string>, b: seq<string>)
    ensures ClassifyAll(a + b) == ClassifyAll(a) + ClassifyAll(b)
  {
    forall k | 0 <= k < |a| + |b|
      ensures ClassifyAll(a + b)[k] == (ClassifyAll(a) + ClassifyAll(b))[k]
    {
      ClassifyAllAt(a + b, k);
      if k < |a| {
        ClassifyAllAt(a, k);
      } else {
        ClassifyAllAt(b, k - |a|);
      }
    }
  }

  lemma {:induction false} EmptyLine()
    ensures Classify("\n").Other? && Classify("\n").size == 1
    ensures !SaysChanged("\n")
  {
    forall sub: string | |sub| > 1
      ensures !Contains("\n", sub)
    {
      assert "\n"[1..] == "";
    }
  }

  /** The block that the lines of a commit are classified as. */
  function BlockOf(c: LoggedCommit): Block {
    Block(c.author, c.date,
          Classify("\n"), ClassifyAll(MessageTexts(c.message)), Classify("\n"),
          ClassifyAll(StatTexts(c.stats)), Classify(c.summary),
          ClassifyAll(c.rest))
  }

  lemma {:induction false} ClassifyHeader(c: LoggedCommit)
    requires Printed(c)
    ensures ClassifyAll(["commit " + c.hash + "\n", "Author: " + c.author + "\n", "Date:   " + c.date + "\n", "\n"])
         == [Commit, Author(c.author), Date(c.date), Classify("\n")]
  {
    var lines := ["commit " + c.hash + "\n", "Author: " + c.author + "\n", "Date:   " + c.date + "\n", "\n"];
    assert "commit" <= lines[0];
    AuthorLineReadBack(c.author);
    DateLineReadBack(c.date);
    forall k | 0 <= k < 4
      ensures ClassifyAll(lines)[k] == Classify(lines[k])
    {
      ClassifyAllAt(lines, k);
    }
  }

  lemma {:induction false} ClassifyOne(line: string)
    ensures ClassifyAll([line]) == [Classify(line)]
  {
    ClassifyAllAt([line], 0);
  }

  lemma {:induction false} CommitIsBlock(c: LoggedCommit)
    requires Printed(c)
    ensures ClassifyAll(CommitText(c)) == BlockLines(BlockOf(c))
  {
    var header := ["commit " + c.hash + "\n", "Author: " + c.author + "\n", "Date:   " + c.date + "\n", "\n"];
    var message, stats := MessageTexts(c.message), StatTexts(c.stats);
    ClassifyHeader(c);
    ClassifyOne("\n");
    ClassifyOne(c.summary);
    ClassifyAppend(header, message);
    ClassifyAppend(header + message, ["\n"]);
    ClassifyAppend(header + message + ["\n"], stats);
    ClassifyAppend(header + message + ["\n"] + stats, [c.summary]);
    ClassifyAppend(header + message + ["\n"] + stats + [c.summary], c.rest);
  }

  lemma {:induction false} MessageIsMessage(c: LoggedCommit)
    requires Printed(c)
    ensures forall k :: 0 <= k < |BlockOf(c).message| ==> IsMessage(BlockOf(c).message[k])
  {
    hide Classify, ClassifyAll, Plain, IsMessage;
    forall k | 0 <= k < |c.message|
      ensures IsMessage(BlockOf(c).message[k])
    {
      ClassifyAllAt(MessageTexts(c.message), k);
      MessageReadBack(c.message[k]);
    }
  }

  lemma {:induction false} StatsAreStats(c: LoggedCommit)
    requires Printed(c)
    ensures forall k :: 0 <= k < |BlockOf(c).stats| ==> IsStat(BlockOf(c).stats[k])
  {
    hide Classify, ClassifyAll, PlainStat;
    forall k | 0 <= k < |c.stats|
      ensures IsStat(BlockOf(c).stats[k])
    {
      ClassifyAllAt(StatTexts(c.stats), k);
      ClassifyStat(c.stats[k]);
    }
  }

  /** A plain line as the script sees it. */
  lemma {:induction false} ClassifyPlain(line: string)
    requires Plain(line)
    ensures var l := Classify(line); l.Other? && (l.changed <==> SaysChanged(line)) && l.file == FileOf(line)
  {
    hide SaysChanged, FileOf;
  }

  /** The lines after "files changed" as the script sees them. */
  lemma {:induction false} TailLine(c: LoggedCommit, k: nat)
    requires Printed(c) && k < |c.rest|
    ensures var l := BlockOf(c).tail[k];
            && (l.Ignored? || l.Other?)
            && (Reaches(c.rest[k]) <==> l.Other? && !l.changed)
            && (Reaches(c.rest[k]) ==> l.file == FileOf(c.rest[k]))
  {
    ClassifyAllAt(c.rest, k);
    if Plain(c.rest[k]) {
      ClassifyPlain(c.rest[k]);
    }
    hide Classify, ClassifyAll, SaysChanged, FileOf;
  }

  /** A commit is ended exactly when its block is. */
  lemma {:induction false} EndedExact(c: LoggedCommit)
    requires Printed(c)
    ensures Ended(c) <==> HasTrigger(BlockOf(c))
  {
    hide Classify, ClassifyAll, Printed, Reaches;
    var tail := BlockOf(c).tail;
    forall k | 0 <= k < |tail|
      ensures Reaches(c.rest[k]) <==> tail[k].Other? && !tail[k].changed
    {
      TailLine(c, k);
    }
  }

  lemma {:induction false} EndIsTrigger(c: LoggedCommit, k: nat)
    requires Printed(c) && EndsAt(c, k)
    ensures var tail := BlockOf(c).tail;
            k < |tail| && tail[k].Other? && tail[k].file == None && Trigger(tail) == Some(k)
  {
    var tail := BlockOf(c).tail;
    forall j | 0 <= j <= k
      ensures Reaches(c.rest[j]) <==> tail[j].Other? && !tail[j].changed
    {
      TailLine(c, j);
    }
    TailLine(c, k);
    TriggerMeaning(tail);
    hide Classify, ClassifyAll, Printed, Reaches, FileOf;
    var t := Trigger(tail).value;
  }

  lemma {:induction false} CommitIsWellFormed(c: LoggedCommit)
    requires Printed(c)
    ensures WellFormed(BlockOf(c))
  {
    hide Classify, ClassifyAll, Plain, SaysChanged, FileOf;
    EmptyLine();
    MessageIsMessage(c);
    StatsAreStats(c);
    ClassifyPlain(c.summary);
    forall k | 0 <= k < |c.rest|
      ensures BlockOf(c).tail[k].Ignored? || BlockOf(c).tail[k].Other?
    {
      TailLine(c, k);
    }
  }

  lemma {:induction false} TextsAreStripped(message: seq<string>)
    requires forall k :: 0 <= k < |message| ==> Plain(MessageText(message[k]))
    ensures Texts(ClassifyAll(MessageTexts(message))) == Stripped(message)
    decreases |message|
  {
    if message != [] {
      var n := |message| - 1;
      assert MessageTexts(message)[..n] == MessageTexts(message[..n]);
      TextsAreStripped(message[..n]);
      MessageReadBack(message[n]);
    }
  }

  lemma {:induction false} FileNamesAreNames(stats: seq<Stat>)
    requires forall k :: 0 <= k < |stats| ==> PlainStat(stats[k])
    ensures FileNames(ClassifyAll(StatTexts(stats))) == Names(stats)
    decreases |stats|
  {
    hide Classify, PlainStat, StatText;
    if stats != [] {
      var n := |stats| - 1;
      assert StatTexts(stats)[..n] == StatTexts(stats[..n]);
      FileNamesAreNames(stats[..n]);
      ClassifyStat(stats[n]);
    }
  }

  lemma {:induction false} FirstStripped(message: seq<string>)
    requires message != []
    ensures Stripped(message) != [] && Stripped(message)[0] == Strip(message[0])
    decreases |message|
  {
    if |message| > 1 {
      FirstStripped(message[..|message| - 1]);
    }
  }

  lemma {:induction false} FirstName(stats: seq<Stat>)
    requires stats != []
    ensures Names(stats) != [] && Names(stats)[0] == stats[0].file
    decreases |stats|
  {
    if |stats| > 1 {
      FirstName(stats[..|stats| - 1]);
    }
  }

  lemma {:induction false} CommitHasItsEntry(c: LoggedCommit)
    requires Regular(c)
    ensures BlockEntries(BlockOf(c)) == [EntryOf(c)]
  {
    hide Classify, ClassifyAll, Printed, EndsAt, Stripped, Names, Texts, FileNames, Join, DropLeadingEmpty, Trigger;
    var b := BlockOf(c);
    var k: nat :| EndsAt(c, k);
    EndIsTrigger(c, k);
    PartsOfEntry(c);
    FilesWithTrigger(b.stats, b.tail[k]);
    NothingToDrop(c);
  }

  lemma {:induction false} PartsOfEntry(c: LoggedCommit)
    requires Printed(c)
    ensures Texts(BlockOf(c).message) == Stripped(c.message) && FileNames(BlockOf(c).stats) == Names(c.stats)
  {
    hide Classify, ClassifyAll, Plain, PlainStat, Stripped, Names, Texts, FileNames;
    TextsAreStripped(c.message);
    FileNamesAreNames(c.stats);
  }

  lemma {:induction false} NothingToDrop(c: LoggedCommit)
    requires Regular(c)
    ensures DropLeadingEmpty(Stripped(c.message)) == Stripped(c.message)
    ensures DropLeadingEmpty(Names(c.stats)) == Names(c.stats)
  {
    if c.message != [] {
      FirstStripped(c.message);
    }
    if c.stats != [] {
      FirstName(c.stats);
      assert PlainStat(c.stats[0]);
    }
  }

  // ----- the whole log

  function BlocksOf(cs: seq<LoggedCommit>): (bs: seq<Block>)
    ensures |bs| == |cs| && forall k :: 0 <= k < |cs| ==> bs[k] == BlockOf(cs[k])
  {
    seq(|cs|, k requires 0 <= k < |cs| => BlockOf(cs[k]))
  }

  lemma {:induction false} LogIsBlocks(cs: seq<LoggedCommit>)
    requires forall k :: 0 <= k < |cs| ==> Printed(cs[k])
    ensures ClassifyAll(LogText(cs)) == LogLines(BlocksOf(cs))
    decreases |cs|
  {
    hide Printed, BlockOf;
    if cs != [] {
      var n := |cs| - 1;
      LogIsBlocks(cs[..n]);
      assert BlocksOf(cs)[..n] == BlocksOf(cs[..n]);
      ClassifyAppend(LogText(cs[..n]), CommitText(cs[n]));
      CommitIsBlock(cs[n]);
    }
  }

  lemma {:induction false} BlocksHaveEntries(cs: seq<LoggedCommit>)
    requires forall k :: 0 <= k < |cs| ==> Regular(cs[k])
    ensures LogEntries(BlocksOf(cs)) == EntriesOf(cs)
    decreases |cs|
  {
    hide Regular, BlockOf, EntryOf;
    if cs != [] {
      var n := |cs| - 1;
      BlocksHaveEntries(cs[..n]);
      assert BlocksOf(cs)[..n] == BlocksOf(cs[..n]);
      CommitHasItsEntry(cs[n]);
    }
  }

  lemma {:induction false} BlocksAreWellFormed(cs: seq<LoggedCommit>)
    requires forall k :: 0 <= k < |cs| ==> Printed(cs[k])
    ensures forall k :: 0 <= k < |cs| ==> WellFormed(BlocksOf(cs)[k])
  {
    hide Printed, WellFormed;
    forall k | 0 <= k < |cs|
      ensures WellFormed(BlocksOf(cs)[k])
    {
      CommitIsWellFormed(cs[k]);
    }
  }

  lemma {:induction false} NoLineMalformed(bs: seq<Block>, k: nat)
    requires (forall j :: 0 <= j < |bs| ==> WellFormed(bs[j])) && k < |LogLines(bs)|
    ensures !LogLines(bs)[k].Malformed?
    decreases |bs|
  {
    var n := |bs| - 1;
    if k < |LogLines(bs[..n])| {
      NoLineMalformed(bs[..n], k);
    } else {
      assert LogLines(bs)[k] == BlockLines(bs[n])[k - |LogLines(bs[..n])|];
    }
  }

  /** On the text of any log of regular commits the script gets to the end, and the file it writes,
    read back, lists exactly one entry per commit, in order, each under the header of its own date
    and author, with the message lines stripped and joined by a space and the file names joined by
    a comma. */
  lemma {:induction false} LogTextIsConverted(cs: seq<LoggedCommit>)
    requires forall k :: 0 <= k < |cs| ==> Regular(cs[k])
    ensures forall k :: 0 <= k < |LogText(cs)| ==> !Classify(LogText(cs)[k]).Malformed?
    ensures var s := Run(INITIAL, ClassifyAll(LogText(cs)));
            && s.entries == EntriesOf(cs)
            && Filed(s.out) == Listing(EntriesOf(cs))
            && HeaderLines(s.out) == Dedup(AuthorLines(EntriesOf(cs)))
  {
    hide Classify, ClassifyAll, Printed;
    var bs, text := BlocksOf(cs), LogText(cs);
    BlocksAreWellFormed(cs);
    LogIsBlocks(cs);
    BlocksHaveEntries(cs);
    LogIsConverted(bs);
    LogIsFiled(bs);
    forall k | 0 <= k < |text|
      ensures !Classify(text[k]).Malformed?
    {
      ClassifyAllAt(text, k);
      NoLineMalformed(bs, k);
    }
  }

  /** On the text of any log every commit gets an entry exactly when every commit is ended by a line
    that reaches the emission check. */
  lemma {:induction false} EveryLoggedCommitHasEntryIff(cs: seq<LoggedCommit>)
    requires forall k :: 0 <= k < |cs| ==> Printed(cs[k])
    ensures |Run(INITIAL, ClassifyAll(LogText(cs))).entries| == |cs| <==> forall k :: 0 <= k < |cs| ==> Ended(cs[k])
  {
    hide Printed, Ended, WellFormed, HasTrigger;
    var bs := BlocksOf(cs);
    BlocksAreWellFormed(cs);
    LogIsBlocks(cs);
    EveryCommitHasEntryIff(bs);
    forall k | 0 <= k < |cs|
      ensures Ended(cs[k]) <==> HasTrigger(bs[k])
    {
      EndedExact(cs[k]);
    }
  }

  // ----- what the file says

  lemma {:induction false} ListingAt(cs: seq<LoggedCommit>, k: nat)
    requires k < |cs|
    ensures |Listing(EntriesOf(cs))| == |cs|
    ensures Listing(EntriesOf(cs))[k]
         == (cs[k].date + "  " + cs[k].author,
             "* " + Join(", ", Names(cs[k].stats)) + ": " + Join(" ", Stripped(cs[k].message)))
    decreases |cs|
  {
    hide Join, Names, Stripped;
    EntriesLength(cs);
    ListingLength(EntriesOf(cs));
    var n := |cs| - 1;
    assert EntriesOf(cs)[..n] == EntriesOf(cs[..n]);
    if k < n {
      ListingAt(cs[..n], k);
    }
  }

  lemma {:induction false} EntriesLength(cs: seq<LoggedCommit>)
    ensures |EntriesOf(cs)| == |cs|
    ensures cs != [] ==> |EntriesOf(cs[..|cs| - 1])| == |cs| - 1
    decreases |cs|
  {
    if cs != [] {
      EntriesLength(cs[..|cs| - 1]);
    }
  }

  lemma {:induction false} ListingLength(es: seq<Entry>)
    ensures |Listing(es)| == |es|
    ensures es != [] ==> |Listing(es[..|es| - 1])| == |es| - 1
    decreases |es|
  {
    if es != [] {
      ListingLength(es[..|es| - 1]);
    }
  }

  /** For a log of regular commits, paragraph k of the file is "* ", the file names of commit k with
    commas, ": ", and its message lines with spaces, and stands under its date, two spaces and its
    author. */
  lemma {:induction false} ParagraphText(cs: seq<LoggedCommit>, k: nat)
    requires (forall j :: 0 <= j < |cs| ==> Regular(cs[j])) && k < |cs|
    ensures var filed := Filed(Run(INITIAL, ClassifyAll(LogText(cs))).out);
            && |filed| == |cs|
            && filed[k].0 == cs[k].date + "  " + cs[k].author
            && filed[k].1 == "* " + Join(", ", Names(cs[k].stats)) + ": " + Join(" ", Stripped(cs[k].message))
  {
    LogTextIsConverted(cs);
    ListingAt(cs, k);
    hide Regular, Filed, Run, LogText, Listing;
  }

  // ----- a log whose last commit is lost

  /** No keyword of the script is without a colon or a hyphen, save the first. */
  lemma {:induction false} PlainWithoutPunctuation(line: string)
    requires ':' !in line && '-' !in line && !("commit" <= line)
    ensures Plain(line)
  {
    LacksChar(line, "Author:", ':');
    LacksChar(line, "Date:", ':');
    LacksChar(line, "    git-svn-id:", ':');
    LacksChar(line, "Signed-off-by", '-');
    assert "    Fossil-ID:"[13] == ':' && "    [[SVN:"[9] == ':';
    hide Contains, Strip, SaysChanged, FileOf;
  }

  /** A commit of one file, with no line after "files changed". */
  const LAST_COMMIT := LoggedCommit("0", "a", "2020", ["Fix"], [Stat("f", 0, "1")], " 1 file changed\n", [])

  lemma {:induction false} LastCommitIsPrinted()
    ensures Printed(LAST_COMMIT)
  {
    hide Classify, Contains, Plain, PlainStat, SaysChanged;
    LastDateIsPlain();
    LastMessageIsPlain();
    LastStatIsPlain();
    LastSummaryIsPlain();
  }

  lemma {:induction false} LastDateIsPlain()
    ensures !Contains("Date:   " + "2020" + "\n", "Author:")
  {
    assert "Author:"[0] == 'A';
    LacksChar("Date:   " + "2020" + "\n", "Author:", 'A');
  }

  lemma {:induction false} LastMessageIsPlain()
    ensures Plain(MessageText("Fix"))
  {
    assert MessageText("Fix")[0] != "commit"[0];
    PlainWithoutPunctuation(MessageText("Fix"));
  }

  lemma {:induction false} LastSummaryIsPlain()
    ensures Plain(" 1 file changed\n") && SaysChanged(" 1 file changed\n")
  {
    hide Classify, Plain;
    assert " 1 file changed\n"[0] != "commit"[0];
    PlainWithoutPunctuation(" 1 file changed\n");
    assert " 1 file changed\n"[3..] == "file changed\n";
    ContainsAt(" 1 file changed\n", "file changed", 3);
  }

  lemma {:induction false} LastStatIsPlain()
    ensures PlainStat(Stat("f", 0, "1"))
  {
    hide Classify, Plain, Split, Contains;
    var text := StatText(Stat("f", 0, "1"));
    assert Spaces(0) == "" && " " + "f" + "" == " f" && " f" + " |" == " f |";
    assert text == " f | 1\n";
    assert text[0] != "commit"[0];
    PlainWithoutPunctuation(text);
    assert "file changed"[5] == 'c' && "files changed"[6] == 'c';
    LacksChar(text, "file changed", 'c');
    LacksChar(text, "files changed", 'c');
    NoSeparator(" f");
    StripKeepsExact("f");
  }

  /** A text without a bar does not contain the separator when a bar follows it. */
  lemma {:induction false} NoSeparator(before: string)
    requires '|' !in before
    ensures !Contains(before + " |", " | ")
  {
    hide Contains;
    var start := before + " |";
    ContainsExact(start, " | ");
    forall k | 0 <= k <= |start|
      ensures !(" | " <= start[k..])
    {
      if k + 3 <= |start| {
        assert start[k..][1] == start[k + 1] != " | "[1];
      }
    }
  }

  /** The script writes nothing for it. */
  lemma {:induction false} LastCommitIsLost()
    ensures Printed(LAST_COMMIT) && Run(INITIAL, ClassifyAll(LogText([LAST_COMMIT]))).entries == []
  {
    hide Printed;
    LastCommitIsPrinted();
    EveryLoggedCommitHasEntryIff([LAST_COMMIT]);
    LogIsBlocks([LAST_COMMIT]);
    BlocksAreWellFormed([LAST_COMMIT]);
    LogIsConverted(BlocksOf([LAST_COMMIT]));
    OneEntryPerTriggered(BlocksOf([LAST_COMMIT]));
    assert !Ended(LAST_COMMIT);
    assert Triggered(BlocksOf([LAST_COMMIT])) <= 1;
  }

  // ----- a log and its file, word for word

  /** A commit with two message lines and two files, as git prints it. */
  const SAMPLE := LoggedCommit(
    "0", "a", "2020", ["Fix it", "now"], [Stat("f.c", 1, "1 +"), Stat("g.h", 0, "2 +")],
    " 2 files changed\n", ["\n"])

  lemma {:induction false} SampleText()
    ensures CommitText(SAMPLE)
         == ["commit 0\n", "Author: a\n", "Date:   2020\n", "\n", "    Fix it\n", "    now\n", "\n",
             " f.c  | 1 +\n", " g.h | 2 +\n", " 2 files changed\n", "\n"]
  {
    hide StatText;
    FirstStat();
    SecondStat();
    assert "commit " + "0" + "\n" == "commit 0\n" && "Author: " + "a" + "\n" == "Author: a\n";
    assert "Date:   " + "2020" + "\n" == "Date:   2020\n";
    assert MessageText("Fix it") == "    Fix it\n" && MessageText("now") == "    now\n";
    assert MessageTexts(SAMPLE.message) == ["    Fix it\n", "    now\n"];
    assert StatTexts(SAMPLE.stats) == [" f.c  | 1 +\n", " g.h | 2 +\n"];
  }

  lemma {:induction false} FirstStat()
    ensures " " + "f.c" + Spaces(1) == " f.c "
    ensures StatText(Stat("f.c", 1, "1 +")) == " f.c  | 1 +\n"
  {
    assert Spaces(0) == "" && Spaces(1) == " ";
    assert " " + "f.c" + " " == " f.c " && "1 +" + "\n" == "1 +\n";
    assert " f.c " + " | " + "1 +\n" == " f.c  | 1 +\n";
  }

  lemma {:induction false} SecondStat()
    ensures " " + "g.h" + Spaces(0) == " g.h"
    ensures StatText(Stat("g.h", 0, "2 +")) == " g.h | 2 +\n"
  {
    assert " " + "g.h" + "" == " g.h" && "2 +" + "\n" == "2 +\n";
    assert " g.h" + " | " + "2 +\n" == " g.h | 2 +\n";
  }

  lemma {:induction false} StatIsPlain(s: Stat)
    requires ':' !in StatText(s) && '-' !in StatText(s) && 'd' !in StatText(s)
    requires '|' !in " " + s.file + Spaces(s.padding)
    requires s.file != "" && !IsSpace(s.file[0]) && !IsSpace(s.file[|s.file| - 1])
    ensures PlainStat(s)
  {
    hide Classify, Plain, Contains, Strip;
    var text := StatText(s);
    assert text[0] == ' ' && "commit"[0] == 'c';
    PlainWithoutPunctuation(text);
    assert "file changed"[11] == 'd' && "files changed"[12] == 'd';
    LacksChar(text, "file changed", 'd');
    LacksChar(text, "files changed", 'd');
    NoSeparator(" " + s.file + Spaces(s.padding));
    StripKeepsExact(s.file);
  }

  lemma {:induction false} FirstStatIsPlain()
    ensures PlainStat(Stat("f.c", 1, "1 +"))
  {
    hide PlainStat, StatText, Spaces;
    FirstStat();
    StatIsPlain(Stat("f.c", 1, "1 +"));
  }

  lemma {:induction false} SecondStatIsPlain()
    ensures PlainStat(Stat("g.h", 0, "2 +"))
  {
    hide PlainStat, StatText, Spaces;
    SecondStat();
    StatIsPlain(Stat("g.h", 0, "2 +"));
  }

  lemma {:induction false} SampleMessageIsPlain()
    ensures Plain(MessageText("Fix it")) && Plain(MessageText("now"))
  {
    hide Classify, Plain;
    assert MessageText("Fix it")[0] != "commit"[0] && MessageText("now")[0] != "commit"[0];
    PlainWithoutPunctuation(MessageText("Fix it"));
    PlainWithoutPunctuation(MessageText("now"));
  }

  lemma {:induction false} SampleSummaryIsPlain()
    ensures Plain(" 2 files changed\n") && SaysChanged(" 2 files changed\n")
  {
    hide Classify, Plain;
    assert " 2 files changed\n"[0] != "commit"[0];
    PlainWithoutPunctuation(" 2 files changed\n");
    assert " 2 files changed\n"[3..] == "files changed\n";
    ContainsAt(" 2 files changed\n", "files changed", 3);
  }

  lemma {:induction false} EmptyLineEnds()
    ensures Reaches("\n") && FileOf("\n") == None
  {
    EmptyLine();
    hide Classify, SaysChanged;
    SplitMeaning("\n", " | ");
    LacksChar("\n", " | ", '|');
  }

  lemma {:induction false} SampleIsRegular()
    ensures Regular(SAMPLE)
  {
    hide Classify, Contains, Plain, PlainStat, SaysChanged, Reaches, FileOf, Strip;
    LastDateIsPlain();
    SampleMessageIsPlain();
    FirstStatIsPlain();
    SecondStatIsPlain();
    SampleSummaryIsPlain();
    EmptyLineEnds();
    ReachesIsPlain("\n");
    StripKeepsExact("Fix it");
    assert EndsAt(SAMPLE, 0);
  }

  lemma {:induction false} ReachesIsPlain(line: string)
    requires Reaches(line)
    ensures Plain(line)
  {
  }

  /** Its paragraph, word for word. */
  lemma {:induction false} SampleParagraph()
    ensures Filed(Run(INITIAL, ClassifyAll(LogText([SAMPLE]))).out) == [("2020  a", "* f.c, g.h: Fix it now")]
  {
    hide Regular, Filed, Run, ClassifyAll, LogText, Join, Names, Stripped;
    SampleIsRegular();
    ParagraphText([SAMPLE], 0);
    SampleNames();
    SampleMessage();
    assert "2020" + "  " + "a" == "2020  a";
    assert "* " + "f.c, g.h" + ": " + "Fix it now" == "* f.c, g.h: Fix it now";
  }

  lemma {:induction false} SampleNames()
    ensures Join(", ", Names(SAMPLE.stats)) == "f.c, g.h"
  {
    hide Join, Names;
    NamesOfTwo(SAMPLE.stats[0], SAMPLE.stats[1]);
    JoinTwo(", ", "f.c", "g.h");
    assert "f.c" + ", " + "g.h" == "f.c, g.h";
  }

  lemma {:induction false} NamesOfTwo(a: Stat, b: Stat)
    ensures Names([a, b]) == [a.file, b.file]
  {
    assert [a, b][..1] == [a] && [a][..0] == [];
    assert Names([a]) == [a.file];
  }

  lemma {:induction false} SampleMessage()
    ensures Join(" ", Stripped(SAMPLE.message)) == "Fix it now"
  {
    hide Strip, Join, Stripped;
    StripKeepsExact("Fix it");
    StripKeepsExact("now");
    StrippedOfTwo("Fix it", "now");
    JoinTwo(" ", "Fix it", "now");
    assert "Fix it" + " " + "now" == "Fix it now";
  }

  lemma {:induction false} StrippedOfTwo(a: string, b: string)
    ensures Stripped([a, b]) == [Strip(a), Strip(b)]
  {
    hide Strip;
    assert [a, b][..1] == [a] && [a][..0] == [];
    assert Stripped([a]) == [Strip(a)];
  }

  lemma {:induction false} JoinTwo(sep: string, a: string, b: string)
    ensures Join(sep, [a, b]) == a + sep + b
  {
    assert [a, b][..1] == [a];
  }
}

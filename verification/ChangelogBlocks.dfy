/** What the changelog machine writes for a log in the format of `git log --summary --stat`. */
module ChangelogBlocks {
  import opened Changelog
  import opened ChangelogSafety
  import opened Prelude
  import opened Text

  /** The lines of one commit: commit, Author, Date, an empty line, the message, the line that ends
    it, one line per file, the "files changed" line, and whatever follows up to the next commit. */
  datatype Block = Block(
    author: string, date: string,
    blank: Line, message: seq<Line>, ending: Line,
    stats: seq<Line>, changed: Line,
    tail: seq<Line>)

  predicate EndsMessage(l: Line) {
    l.Other? && (l.size == 1 || l.size == 4)
  }

  predicate IsMessage(l: Line) {
    l.Ignored? || (l.Other? && !EndsMessage(l))
  }

  predicate IsStat(l: Line) {
    l.Ignored? || (l.Other? && !l.changed)
  }

  /** No line of the body is taken for a commit, author or date line. */
  ghost predicate WellFormed(b: Block) {
    && b.blank.Other? && b.blank.size == 1
    && (forall k :: 0 <= k < |b.message| ==> IsMessage(b.message[k]))
    && EndsMessage(b.ending)
    && (forall k :: 0 <= k < |b.stats| ==> IsStat(b.stats[k]))
    && b.changed.Other? && b.changed.changed
    && (forall k :: 0 <= k < |b.tail| ==> b.tail[k].Ignored? || b.tail[k].Other?)
  }

  function BlockLines(b: Block): seq<Line> {
    [Commit, Author(b.author), Date(b.date), b.blank] + b.message + [b.ending] + b.stats + [b.changed] + b.tail
  }

  function LogLines(bs: seq<Block>): seq<Line> {
    if bs == [] then [] else LogLines(bs[..|bs| - 1]) + BlockLines(bs[|bs| - 1])
  }

  /** In a message the first empty line, of one character, is passed over; after that an empty line ends
    the message, and so does any line of four characters; every other line is added to it. */
  lemma {:induction false} MessageLineExact(s: State, line: string)
    requires Safe(s) && s.authorFound && s.dateFound && !s.messageFound && Classify(line).Other?
    ensures var s' := Step(s, Classify(line));
            && (s'.messageFound <==> |line| == 4 || (|line| == 1 && s.messageNL))
            && (s'.messageNL <==> s.messageNL || |line| == 1)
            && (|line| in {1, 4} ==> s'.message == s.message)
            && (|line| !in {1, 4} ==>
                  s'.message == if s.message == "" then Strip(line) else s.message + " " + Strip(line))
  {
    hide Contains, Strip, SaysChanged, FileOf;
  }

  // ----- the entries that the log promises

  function Texts(ls: seq<Line>): seq<string> {
    if ls == [] then []
    else Texts(ls[..|ls| - 1]) + (if ls[|ls| - 1].Other? then [ls[|ls| - 1].text] else [])
  }

  function FileNames(ls: seq<Line>): seq<string> {
    if ls == [] then []
    else
      var l := ls[|ls| - 1];
      FileNames(ls[..|ls| - 1]) + (if l.Other? && l.file.Some? then [l.file.value] else [])
  }

  /** The lines up to and including the first one that falls through to the emission check. */
  function Trigger(tail: seq<Line>): (r: Option<nat>)
    ensures r.Some? ==> r.value < |tail| && tail[r.value].Other? && !tail[r.value].changed
  {
    if tail == [] then None
    else
      var n := |tail| - 1;
      match Trigger(tail[..n])
      case Some(k) => Some(k)
      case None => if tail[n].Other? && !tail[n].changed then Some(n) else None
  }

  lemma {:induction false} TriggerMeaning(tail: seq<Line>)
    ensures Trigger(tail).Some? <==> exists k :: 0 <= k < |tail| && tail[k].Other? && !tail[k].changed
    ensures Trigger(tail).Some? ==>
              var t := Trigger(tail).value;
              && t < |tail| && tail[t].Other? && !tail[t].changed
              && forall k :: 0 <= k < t ==> !(tail[k].Other? && !tail[k].changed)
    decreases |tail|
  {
    if tail != [] {
      TriggerMeaning(tail[..|tail| - 1]);
    }
  }

  /** One entry for the commit, with its message lines joined by a space and its file names by a
    comma, empty ones at the front left out; or none, when no line after "files changed" reaches
    the emission check. */
  function BlockEntries(b: Block): seq<Entry> {
    match Trigger(b.tail)
    case None => []
    case Some(k) =>
      [Entry(b.author, b.date,
             Join(" ", DropLeadingEmpty(Texts(b.message))),
             Join(", ", DropLeadingEmpty(FileNames(b.stats + [b.tail[k]]))))]
  }

  function LogEntries(bs: seq<Block>): seq<Entry> {
    if bs == [] then [] else LogEntries(bs[..|bs| - 1]) + BlockEntries(bs[|bs| - 1])
  }

  // ----- the machine on the parts of a block

  lemma {:induction false} RunAppend(s: State, a: seq<Line>, b: seq<Line>)
    requires Safe(s)
    ensures Run(s, a + b) == Run(Run(s, a), b)
    decreases |b|
  {
    if b == [] {
      assert a + b == a;
    } else {
      var n := |b| - 1;
      assert (a + b)[..|a| + n] == a + b[..n];
      RunAppend(s, a, b[..n]);
    }
  }

  lemma {:induction false} RunOne(s: State, l: Line)
    requires Safe(s)
    ensures Run(s, [l]) == Step(s, l)
  {
    assert [l][..0] == [];
  }

  /** After the header and the empty line of a block. */
  function Opened(s: State, author: string, date: string): State {
    Reset(s).(authorFound := true, author := Some(author), dateFound := true, date := Some(date), messageNL := true)
  }

  lemma {:induction false} RunHeader(s: State, author: string, date: string, blank: Line)
    requires Safe(s) && blank.Other? && blank.size == 1
    ensures Run(s, [Commit, Author(author), Date(date), blank]) == Opened(s, author, date)
  {
    RunOne(s, Commit);
    RunAppend(s, [Commit], [Author(author)]);
    RunOne(Run(s, [Commit]), Author(author));
    RunAppend(s, [Commit] + [Author(author)], [Date(date)]);
    RunOne(Run(s, [Commit] + [Author(author)]), Date(date));
    RunAppend(s, [Commit] + [Author(author)] + [Date(date)], [blank]);
    RunOne(Run(s, [Commit] + [Author(author)] + [Date(date)]), blank);
    assert [Commit] + [Author(author)] + [Date(date)] + [blank] == [Commit, Author(author), Date(date), blank];
  }

  lemma {:induction false} StepMessage(s: State, l: Line)
    requires Safe(s) && s.authorFound && s.dateFound && !s.messageFound && s.messageNL && IsMessage(l)
    ensures Step(s, l) == if l.Other? then s.(message := Append(s.message, " ", l.text)) else s
  {
  }

  lemma {:induction false} RunMessage(s: State, ls: seq<Line>)
    requires Safe(s) && s.authorFound && s.dateFound && !s.messageFound && s.messageNL
    requires forall k :: 0 <= k < |ls| ==> IsMessage(ls[k])
    ensures Run(s, ls) == s.(message := AppendAll(s.message, " ", Texts(ls)))
    decreases |ls|
  {
    if ls != [] {
      var n := |ls| - 1;
      RunMessage(s, ls[..n]);
      StepMessage(Run(s, ls[..n]), ls[n]);
      if ls[n].Other? {
        AppendAllSnoc(s.message, " ", Texts(ls[..n]), ls[n].text);
      } else {
        assert Texts(ls) == Texts(ls[..n]);
      }
    }
  }

  lemma {:induction false} StepStat(s: State, l: Line)
    requires Safe(s) && s.authorFound && s.dateFound && s.messageFound && !s.filesFound && IsStat(l)
    ensures Step(s, l) == if l.Other? && l.file.Some? then s.(files := Append(s.files, ", ", l.file.value)) else s
  {
  }

  lemma {:induction false} RunStats(s: State, ls: seq<Line>)
    requires Safe(s) && s.authorFound && s.dateFound && s.messageFound && !s.filesFound
    requires forall k :: 0 <= k < |ls| ==> IsStat(ls[k])
    ensures Run(s, ls) == s.(files := AppendAll(s.files, ", ", FileNames(ls)))
    decreases |ls|
  {
    if ls != [] {
      var n := |ls| - 1;
      RunStats(s, ls[..n]);
      StepStat(Run(s, ls[..n]), ls[n]);
      if ls[n].Other? && ls[n].file.Some? {
        AppendAllSnoc(s.files, ", ", FileNames(ls[..n]), ls[n].file.value);
      } else {
        assert FileNames(ls) == FileNames(ls[..n]);
      }
    }
  }

  lemma {:induction false} StepQuiet(s: State, l: Line)
    requires Safe(s) && !s.authorFound && (l.Ignored? || l.Other?)
    ensures !Step(s, l).authorFound && Step(s, l).entries == s.entries
  {
  }

  /** Lines after an entry write nothing until the next commit. */
  lemma {:induction false} RunQuiet(s: State, ls: seq<Line>)
    requires Safe(s) && !s.authorFound
    requires forall k :: 0 <= k < |ls| ==> ls[k].Ignored? || ls[k].Other?
    ensures !Run(s, ls).authorFound && Run(s, ls).entries == s.entries
    decreases |ls|
  {
    if ls != [] {
      var n := |ls| - 1;
      RunQuiet(s, ls[..n]);
      StepQuiet(Run(s, ls[..n]), ls[n]);
    }
  }

  /** Lines that do not reach the emission check change nothing once the files are found. */
  lemma {:induction false} RunWaiting(s: State, ls: seq<Line>)
    requires Safe(s) && s.filesFound
    requires forall k :: 0 <= k < |ls| ==> ls[k].Ignored? || (ls[k].Other? && ls[k].changed)
    ensures Run(s, ls) == s
    decreases |ls|
  {
    if ls != [] {
      RunWaiting(s, ls[..|ls| - 1]);
    }
  }

  lemma {:induction false} StepTrigger(s: State, l: Line)
    requires Safe(s) && s.filesFound && l.Other? && !l.changed
    ensures !Step(s, l).authorFound
    ensures Step(s, l).entries == s.entries + [Entry(s.author.value, s.date.value, s.message, FileLine(s, l).files)]
  {
  }

  lemma {:induction false} RunTail(s: State, tail: seq<Line>)
    requires Safe(s) && s.filesFound
    requires forall k :: 0 <= k < |tail| ==> tail[k].Ignored? || tail[k].Other?
    ensures Run(s, tail).entries
         == match Trigger(tail)
            case None => s.entries
            case Some(k) =>
              s.entries + [Entry(s.author.value, s.date.value, s.message, FileLine(s, tail[k]).files)]
  {
    hide Step, Run, Trigger;
    TriggerMeaning(tail);
    match Trigger(tail)
    case None =>
      RunWaiting(s, tail);
    case Some(k) =>
      RunWaiting(s, tail[..k]);
      assert tail == tail[..k] + ([tail[k]] + tail[k + 1..]);
      RunAppend(s, tail[..k], [tail[k]] + tail[k + 1..]);
      RunAppend(s, [tail[k]], tail[k + 1..]);
      RunOne(s, tail[k]);
      StepTrigger(s, tail[k]);
      RunQuiet(Step(s, tail[k]), tail[k + 1..]);
  }

  lemma {:induction false} FilesWithTrigger(stats: seq<Line>, l: Line)
    requires l.Other?
    ensures FileNames(stats + [l]) == if l.file.Some? then FileNames(stats) + [l.file.value] else FileNames(stats)
    ensures AppendAll("", ", ", FileNames(stats + [l]))
         == if l.file.Some? then Append(AppendAll("", ", ", FileNames(stats)), ", ", l.file.value)
            else AppendAll("", ", ", FileNames(stats))
  {
    assert (stats + [l])[..|stats|] == stats;
    if l.file.Some? {
      assert (FileNames(stats) + [l.file.value])[..|FileNames(stats)|] == FileNames(stats);
    }
  }

  /** The state just before the tail of a block. */
  function BeforeTail(s: State, b: Block): State {
    Opened(s, b.author, b.date).(
      message := AppendAll("", " ", Texts(b.message)), messageFound := true,
      files := AppendAll("", ", ", FileNames(b.stats)), filesFound := true)
  }

  lemma {:induction false} RunUpToTail(s: State, b: Block)
    requires Safe(s) && WellFormed(b)
    ensures Run(s, [Commit, Author(b.author), Date(b.date), b.blank] + b.message + [b.ending] + b.stats + [b.changed])
         == BeforeTail(s, b)
  {
    hide Run, Append, AppendAll, Texts, FileNames;
    var header := [Commit, Author(b.author), Date(b.date), b.blank];
    RunHeader(s, b.author, b.date, b.blank);
    RunAppend(s, header, b.message);
    RunMessage(Opened(s, b.author, b.date), b.message);
    var read := Opened(s, b.author, b.date).(message := AppendAll("", " ", Texts(b.message)));
    RunAppend(s, header + b.message, [b.ending]);
    RunOne(read, b.ending);
    RunAppend(s, header + b.message + [b.ending], b.stats);
    RunStats(read.(messageFound := true), b.stats);
    RunAppend(s, header + b.message + [b.ending] + b.stats, [b.changed]);
    RunOne(read.(messageFound := true, files := AppendAll("", ", ", FileNames(b.stats))), b.changed);
  }

  /** From any state, a block adds its own entries and no others. */
  lemma {:induction false} RunBlock(s: State, b: Block)
    requires Safe(s) && WellFormed(b)
    ensures Run(s, BlockLines(b)).entries == s.entries + BlockEntries(b)
  {
    RunUpToTail(s, b);
    var header := [Commit, Author(b.author), Date(b.date), b.blank];
    RunAppend(s, header + b.message + [b.ending] + b.stats + [b.changed], b.tail);
    RunTail(BeforeTail(s, b), b.tail);
    AppendIsJoin(" ", Texts(b.message));
    TriggerMeaning(b.tail);
    match Trigger(b.tail)
    case None =>
    case Some(k) =>
      FilesWithTrigger(b.stats, b.tail[k]);
      AppendIsJoin(", ", FileNames(b.stats + [b.tail[k]]));
  }

  /** On any log of well-formed blocks the script writes exactly the promised entries, in order. */
  lemma {:induction false} LogIsConverted(bs: seq<Block>)
    requires forall k :: 0 <= k < |bs| ==> WellFormed(bs[k])
    ensures Run(INITIAL, LogLines(bs)).entries == LogEntries(bs)
    decreases |bs|
  {
    if bs != [] {
      var n := |bs| - 1;
      LogIsConverted(bs[..n]);
      RunAppend(INITIAL, LogLines(bs[..n]), BlockLines(bs[n]));
      RunBlock(Run(INITIAL, LogLines(bs[..n])), bs[n]);
    }
  }

  /** So the file, read back, lists the commits of the log. */
  lemma {:induction false} LogIsFiled(bs: seq<Block>)
    requires forall k :: 0 <= k < |bs| ==> WellFormed(bs[k])
    ensures var out := Run(INITIAL, LogLines(bs)).out;
            && Filed(out) == Listing(LogEntries(bs))
            && HeaderLines(out) == Dedup(AuthorLines(LogEntries(bs)))
  {
    LogIsConverted(bs);
    OutputGroupsEntries(LogLines(bs));
  }

  /** Some line after "files changed" reaches the emission check. */
  ghost predicate HasTrigger(b: Block) {
    exists j :: 0 <= j < |b.tail| && b.tail[j].Other? && !b.tail[j].changed
  }

  /** How many blocks have such a line. */
  function Triggered(bs: seq<Block>): nat {
    if bs == [] then 0 else Triggered(bs[..|bs| - 1]) + (if Trigger(bs[|bs| - 1].tail).Some? then 1 else 0)
  }

  lemma {:induction false} OneEntryPerTriggered(bs: seq<Block>)
    ensures |LogEntries(bs)| == Triggered(bs) <= |bs|
    decreases |bs|
  {
    if bs != [] {
      OneEntryPerTriggered(bs[..|bs| - 1]);
    }
  }

  lemma {:induction false} AllTriggered(bs: seq<Block>)
    ensures Triggered(bs) <= |bs|
    ensures Triggered(bs) == |bs| <==> forall k :: 0 <= k < |bs| ==> HasTrigger(bs[k])
    decreases |bs|
  {
    if bs != [] {
      var n := |bs| - 1;
      AllTriggered(bs[..n]);
      TriggerMeaning(bs[n].tail);
      assert Trigger(bs[n].tail).Some? <==> HasTrigger(bs[n]);
      assert (forall k :: 0 <= k < |bs| ==> HasTrigger(bs[k]))
        <==> (forall k :: 0 <= k < n ==> HasTrigger(bs[..n][k])) && HasTrigger(bs[n]);
    }
  }

  /** A commit with no such line, like the last one of a log without --summary lines, gets no
    entry: every commit gets one exactly when each block has such a line. */
  lemma {:induction false} EveryCommitHasEntryIff(bs: seq<Block>)
    requires forall k :: 0 <= k < |bs| ==> WellFormed(bs[k])
    ensures |Run(INITIAL, LogLines(bs)).entries| == |bs| <==> forall k :: 0 <= k < |bs| ==> HasTrigger(bs[k])
  {
    LogIsConverted(bs);
    OneEntryPerTriggered(bs);
    AllTriggered(bs);
  }
}

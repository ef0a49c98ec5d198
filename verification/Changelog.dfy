/** gitlog2changelog.py: the machine that reads `git log` line by line and writes one changelog
  entry per commit, grouped under author headers.

  Python 2 semantics: comparing a match object or None with 0 in line 83 is a test for a match.
  In line 68, & binds tighter than ==, so the test is that not all three parts are found. */
module Changelog {
  import opened Prelude
  import opened Text

  // ----- lines

  /** What the script sees in a line.  Other carries everything the later branches look at: the
    length, the stripped text, whether it says "files changed", and the stripped text before
    " | ".  Malformed is a line on which the script dies with an IndexError. */
  datatype Line =
    | Commit
    | Author(author: string)
    | Date(date: string)
    | Ignored
    | Other(size: nat, text: string, changed: bool, file: Option<string>)
    | Malformed

  function Classify(line: string): Line {
    if "commit" <= line then Commit
    else if Contains(line, "Author:") then
      match Split(line, ": ") case None => Malformed case Some(parts) => Author(DropLast(parts.1))
    else if Contains(line, "Date:") then
      match Split(line, ":   ") case None => Malformed case Some(parts) => Date(DropLast(parts.1))
    else if "    Fossil-ID:" <= line || "    [[SVN:" <= line then Ignored
    else if Contains(line, "    git-svn-id:") then Ignored
    else if Contains(line, "Signed-off-by") then Ignored
    else Other(|line|, Strip(line), SaysChanged(line), FileOf(line))
  }

  /** re.search('files? changed', line). */
  predicate SaysChanged(line: string) {
    Contains(line, "file changed") || Contains(line, "files changed")
  }

  function FileOf(line: string): Option<string> {
    match Split(line, " | ") case None => None case Some(parts) => Some(Strip(parts.0))
  }

  function ClassifyAll(lines: seq<string>): (ls: seq<Line>)
    ensures |ls| == |lines|
  {
    if lines == [] then [] else ClassifyAll(lines[..|lines| - 1]) + [Classify(lines[|lines| - 1])]
  }

  /** The header lines that git writes are read back as what they carry. */
  lemma {:induction false} AuthorLineReadBack(author: string)
    ensures Classify("Author: " + author + "\n") == Author(author)
  {
    var line := "Author: " + author + "\n";
    assert line[0] != 'c';
    assert "Author:" <= line;
    assert line == "Author" + ": " + (author + "\n");
    forall k | 0 <= k < 6
      ensures !(": " <= line[k..])
    {
      assert line[k..][0] == "Author"[k];
    }
    SplitFirst("Author", ": ", author + "\n");
  }

  lemma {:induction false} DateLineReadBack(date: string)
    requires !Contains("Date:   " + date + "\n", "Author:")
    ensures Classify("Date:   " + date + "\n") == Date(date)
  {
    var line := "Date:   " + date + "\n";
    assert line[0] != 'c';
    assert "Date:" <= line;
    assert line == "Date" + ":   " + (date + "\n");
    forall k | 0 <= k < 4
      ensures !(":   " <= line[k..])
    {
      assert line[k..][0] == "Date"[k];
    }
    SplitFirst("Date", ":   ", date + "\n");
  }

  /** Which lines are taken for what, by the texts in them: a commit line begins with "commit"; of the
    others an author line has "Author:", then a date line "Date:", then an ignored line one of
    the four texts that are skipped. */
  lemma {:induction false} ClassifyExact(line: string)
    ensures var l := Classify(line);
            var commit, author, date := "commit" <= line, Contains(line, "Author:"), Contains(line, "Date:");
            && (l.Commit? <==> commit)
            && (l.Author? <==> !commit && author && Contains(line, ": "))
            && (l.Date? <==> !commit && !author && date && Contains(line, ":   "))
            && (l.Ignored? <==> !commit && !author && !date && IsSkipped(line))
            && (l.Malformed? <==> !commit && ((author && !Contains(line, ": "))
                                              || (!author && date && !Contains(line, ":   "))))
  {
    SplitMeaning(line, ": ");
    SplitMeaning(line, ":   ");
    hide Contains, Split, Strip, SaysChanged, FileOf;
  }

  predicate IsSkipped(line: string) {
    || "    Fossil-ID:" <= line
    || "    [[SVN:" <= line
    || Contains(line, "    git-svn-id:")
    || Contains(line, "Signed-off-by")
  }

  /** A sign-off in a message is skipped, and so are the ids that other systems leave there. */
  lemma {:induction false} SignOffIsIgnored(who: string)
    requires var line := "    Signed-off-by: " + who + "\n"; !Contains(line, "Author:") && !Contains(line, "Date:")
    ensures Classify("    Signed-off-by: " + who + "\n") == Ignored
  {
    hide Contains, Strip, SaysChanged, FileOf;
    var line := "    Signed-off-by: " + who + "\n";
    assert line[0] != "commit"[0];
    assert line[4..] == "Signed-off-by: " + who + "\n";
    ContainsAt(line, "Signed-off-by", 4);
  }

  lemma {:induction false} SvnIdIsIgnored(id: string)
    requires var line := "    git-svn-id: " + id + "\n"; !Contains(line, "Author:") && !Contains(line, "Date:")
    ensures Classify("    git-svn-id: " + id + "\n") == Ignored
  {
    hide Contains, Strip, SaysChanged, FileOf;
    var line := "    git-svn-id: " + id + "\n";
    assert line[0] != "commit"[0] && line[0..] == line;
    ContainsAt(line, "    git-svn-id:", 0);
  }

  lemma {:induction false} FossilIdIsIgnored(id: string)
    requires var line := "    Fossil-ID: " + id + "\n"; !Contains(line, "Author:") && !Contains(line, "Date:")
    ensures Classify("    Fossil-ID: " + id + "\n") == Ignored
  {
    hide Contains, Strip, SaysChanged, FileOf;
    var line := "    Fossil-ID: " + id + "\n";
    assert line[0] != "commit"[0];
    assert "    Fossil-ID:" <= line;
  }

  lemma {:induction false} SvnTagIsIgnored(id: string)
    requires var line := "    [[SVN:" + id + "\n"; !Contains(line, "Author:") && !Contains(line, "Date:")
    ensures Classify("    [[SVN:" + id + "\n") == Ignored
  {
    hide Contains, Strip, SaysChanged, FileOf;
    var line := "    [[SVN:" + id + "\n";
    assert line[0] != "commit"[0];
    assert "    [[SVN:" <= line;
  }

  /** The line that sums up the changes says so, for one file or several. */
  lemma {:induction false} SummarySaysChanged(number: string, rest: string)
    ensures SaysChanged(number + " file changed" + rest) && SaysChanged(number + " files changed" + rest)
  {
    hide Contains;
    var one, many := number + " file changed" + rest, number + " files changed" + rest;
    var n := |number| + 1;
    assert one[n..] == "file changed" + rest && many[n..] == "files changed" + rest;
    ContainsAt(one, "file changed", n);
    ContainsAt(many, "files changed", n);
  }

  // ----- the machine

  datatype Entry = Entry(author: string, date: string, message: string, files: string)

  function AuthorLine(e: Entry): string {
    e.date + "  " + e.author
  }

  function CommitLine(e: Entry): string {
    "* " + e.files + ": " + e.message
  }

  /** What is written: an author header, with a blank line before it unless it is the first one, or
    the paragraph of an entry. */
  datatype Chunk = Header(line: string, first: bool) | Body(line: string)

  /** The variables of the script; author and date have no value until a line gives them one.
    `entries` records what each Body was made of. */
  datatype State = State(
    authorFound: bool, dateFound: bool, messageFound: bool, filesFound: bool, messageNL: bool,
    message: string, files: string,
    author: Option<string>, date: Option<string>,
    prevAuthorLine: string,
    out: seq<Chunk>,
    entries: seq<Entry>)

  const INITIAL := State(false, false, false, false, false, "", "", None, None, "", [], [])

  /** The safety invariant: files are only found when everything else is, and what is found has a
    value, so that the script never uses an unassigned variable. */
  predicate Safe(s: State) {
    && (s.filesFound ==> s.authorFound && s.dateFound && s.messageFound)
    && (s.authorFound ==> s.author.Some?)
    && (s.dateFound ==> s.date.Some?)
  }

  function Reset(s: State): State {
    s.(authorFound := false, dateFound := false, messageFound := false, filesFound := false,
       messageNL := false, message := "", files := "")
  }

  function MessageLine(s: State, l: Line): State
    requires l.Other?
  {
    if l.size == 1 then (if s.messageNL then s.(messageFound := true) else s.(messageNL := true))
    else if l.size == 4 then s.(messageFound := true)
    else s.(message := Append(s.message, " ", l.text))
  }

  function FileLine(s: State, l: Line): State
    requires l.Other?
  {
    if l.file.Some? then s.(files := Append(s.files, ", ", l.file.value)) else s
  }

  function Headings(prevAuthorLine: string, line: string): seq<Chunk> {
    if prevAuthorLine == "" then [Header(line, true)]
    else if line == prevAuthorLine then []
    else [Header(line, false)]
  }

  /** The second half of the loop body: write the entry once all its parts are found. */
  function EmitIfComplete(s: State): State
    requires Safe(s)
  {
    if s.authorFound && s.dateFound && s.messageFound && s.filesFound then
      var e := Entry(s.author.value, s.date.value, s.message, s.files);
      Reset(s).(out := s.out + Headings(s.prevAuthorLine, AuthorLine(e)) + [Body(CommitLine(e))],
                prevAuthorLine := AuthorLine(e),
                entries := s.entries + [e])
    else s
  }

  /** The chain of tests on a line, up to the emission check. */
  function Read(s: State, l: Line): (s': State)
    requires Safe(s)
    ensures Safe(s')
  {
    match l
    case Commit => Reset(s)
    case Author(a) => s.(author := Some(a), authorFound := true)
    case Date(d) => s.(date := Some(d), dateFound := true)
    case Ignored => s
    case Malformed => s
    case Other(_, _, changed, _) =>
      if !(s.authorFound && s.dateFound && s.messageFound) then MessageLine(s, l)
      else if changed then s.(filesFound := true)
      else FileLine(s, l)
  }

  /** Whether the line ends in a `continue`, which skips the emission check. */
  predicate Continues(s: State, l: Line) {
    || l.Commit?
    || l.Ignored?
    || l.Malformed?
    || (l.Other? && s.authorFound && s.dateFound && s.messageFound && l.changed)
  }

  function Step(s: State, l: Line): (s': State)
    requires Safe(s)
    ensures Safe(s')
  {
    if Continues(s, l) then Read(s, l) else EmitIfComplete(Read(s, l))
  }

  function Run(s: State, ls: seq<Line>): (s': State)
    requires Safe(s)
    ensures Safe(s')
  {
    if ls == [] then s else Step(Run(s, ls[..|ls| - 1]), ls[|ls| - 1])
  }

  lemma {:induction false} RunNext(s: State, lines: seq<string>, read: nat)
    requires Safe(s) && read < |lines|
    ensures Run(s, ClassifyAll(lines[..read + 1]))
         == Step(Run(s, ClassifyAll(lines[..read])), Classify(lines[read]))
    ensures NoneMalformed(lines[..read + 1]) <==> NoneMalformed(lines[..read]) && !Classify(lines[read]).Malformed?
  {
    assert lines[..read + 1][..read] == lines[..read];
    var ls := ClassifyAll(lines[..read + 1]);
    assert ls == ClassifyAll(lines[..read]) + [Classify(lines[read])];
    assert ls[..read] == ClassifyAll(lines[..read]);
  }

  /** The script survives all of these lines. */
  predicate NoneMalformed(lines: seq<string>) {
    lines == [] || (NoneMalformed(lines[..|lines| - 1]) && !Classify(lines[|lines| - 1]).Malformed?)
  }

  // ----- the script

  /** The variables of the script, and its loop. */
  class Script {
    var authorFound: bool
    var dateFound: bool
    var messageFound: bool
    var filesFound: bool
    var messageNL: bool
    var message: string
    var files: string
    var author: Option<string>
    var date: Option<string>
    var prevAuthorLine: string
    var out: seq<Chunk>
    ghost var entries: seq<Entry>

    ghost function Vars(): State
      reads this
    {
      State(authorFound, dateFound, messageFound, filesFound, messageNL, message, files,
            author, date, prevAuthorLine, out, entries)
    }

    constructor ()
      ensures Vars() == INITIAL
    {
      authorFound, dateFound, messageFound, filesFound, messageNL := false, false, false, false, false;
      message, files, prevAuthorLine := "", "", "";
      author, date := None, None;
      out, entries := [], [];
    }

    /** The chain of tests on a line: true when the line ends in a `continue`. */
    method ReadLine(line: string) returns (next: bool)
      requires Safe(Vars()) && !Classify(line).Malformed?
      modifies this
      ensures Vars() == Read(old(Vars()), Classify(line))
      ensures next == Continues(old(Vars()), Classify(line))
    {
      hide Contains, Split, Strip, SaysChanged, MessageLine, FileLine;
      next := false;
      if "commit" <= line {
        StartAgain();
        next := true;
      } else if Contains(line, "Author:") {
        var authorList := Split(line, ": ");
        author := Some(DropLast(authorList.value.1));
        authorFound := true;
      } else if Contains(line, "Date:") {
        var dateList := Split(line, ":   ");
        date := Some(DropLast(dateList.value.1));
        dateFound := true;
      } else if "    Fossil-ID:" <= line || "    [[SVN:" <= line {
        next := true;
      } else if Contains(line, "    git-svn-id:") {
        next := true;
      } else if Contains(line, "Signed-off-by") {
        next := true;
      } else if (authorFound && dateFound && messageFound) == false {
        ReadMessage(line);
      } else if SaysChanged(line) {
        filesFound := true;
        next := true;
      } else {
        ReadFile(line);
      }
    }

    method StartAgain()
      modifies this
      ensures Vars() == Reset(old(Vars()))
    {
      hide Step, Read, EmitIfComplete, Run, Classify, Safe;
      authorFound := false;
      dateFound := false;
      messageFound := false;
      messageNL := false;
      message := "";
      filesFound := false;
      files := "";
    }

    method ReadMessage(line: string)
      requires Classify(line).Other?
      modifies this
      ensures Vars() == MessageLine(old(Vars()), Classify(line))
    {
      if |line| == 1 {
        if messageNL {
          messageFound := true;
        } else {
          messageNL := true;
        }
      } else if |line| == 4 {
        messageFound := true;
      } else {
        if |message| == 0 {
          message := message + Strip(line);
        } else {
          message := message + " " + Strip(line);
        }
      }
    }

    method ReadFile(line: string)
      requires Classify(line).Other?
      modifies this
      ensures Vars() == FileLine(old(Vars()), Classify(line))
    {
      var fileList := Split(line, " | ");
      if fileList.Some? {
        if |files| > 0 {
          files := files + ", " + Strip(fileList.value.0);
        } else {
          files := Strip(fileList.value.0);
        }
      }
    }

    method WriteEntry()
      requires Safe(Vars())
      modifies this
      ensures Vars() == EmitIfComplete(old(Vars()))
    {
      if authorFound && dateFound && messageFound && filesFound {
        var authorLine := date.value + "  " + author.value;
        if |prevAuthorLine| == 0 {
          out := out + [Header(authorLine, true)];
        } else if authorLine == prevAuthorLine {
        } else {
          out := out + [Header(authorLine, false)];
        }
        var commitLine := "* " + files + ": " + message;
        out := out + [Body(commitLine)];
        entries := entries + [Entry(author.value, date.value, message, files)];
        StartAgain();
        prevAuthorLine := authorLine;
      }
    }

    /** The body of the loop. */
    method HandleLine(line: string)
      requires Safe(Vars()) && !Classify(line).Malformed?
      modifies this
      ensures Vars() == Step(old(Vars()), Classify(line))
    {
      var next := ReadLine(line);
      if !next {
        WriteEntry();
      }
    }

    /** The loop over the lines, which stops at the first line on which the script would die. */
    method Convert(lines: seq<string>) returns (read: nat)
      requires Vars() == INITIAL
      modifies this
      ensures read <= |lines|
      ensures read < |lines| ==> Classify(lines[read]).Malformed?
      ensures NoneMalformed(lines[..read])
      ensures Vars() == Run(INITIAL, ClassifyAll(lines[..read]))
    {
      read := 0;
      assert lines[..0] == [];
      while read < |lines|
        invariant read <= |lines|
        invariant NoneMalformed(lines[..read])
        invariant Vars() == Run(INITIAL, ClassifyAll(lines[..read]))
      {
        if Classify(lines[read]).Malformed? {
          return;
        }
        HandleLine(lines[read]);
        RunNext(INITIAL, lines, read);
        read := read + 1;
      }
    }
  }
}

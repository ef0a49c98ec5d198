/** What holds of the changelog machine on every input, well formed or not. */
module ChangelogSafety {
  import opened Changelog
  import opened Prelude
  import opened Text

  // ----- entries do not mix commits

  /** Two states that differ at most in what was written before and in values not found since. */
  ghost predicate Alike(s: State, t: State) {
    && s.authorFound == t.authorFound && s.dateFound == t.dateFound
    && s.messageFound == t.messageFound && s.filesFound == t.filesFound
    && s.messageNL == t.messageNL && s.message == t.message && s.files == t.files
    && (s.authorFound ==> s.author == t.author)
    && (s.dateFound ==> s.date == t.date)
  }

  /** The entries written by some lines. */
  function NewEntries(s: State, ls: seq<Line>): seq<Entry>
    requires Safe(s)
  {
    EntriesGrow(s, ls);
    Run(s, ls).entries[|s.entries|..]
  }

  lemma {:induction false} EntriesGrow(s: State, ls: seq<Line>)
    requires Safe(s)
    ensures s.entries <= Run(s, ls).entries
    decreases |ls|
  {
    if ls != [] {
      var n := |ls| - 1;
      EntriesGrow(s, ls[..n]);
      ReadKeepsOutput(Run(s, ls[..n]), ls[n]);
    }
  }

  lemma {:induction false} ReadKeepsOutput(s: State, l: Line)
    requires Safe(s)
    ensures Read(s, l).out == s.out && Read(s, l).entries == s.entries
    ensures Read(s, l).prevAuthorLine == s.prevAuthorLine
  {
    hide Append;
  }

  lemma {:induction false} AlikeMessageLine(s: State, t: State, l: Line)
    requires Alike(s, t) && l.Other?
    ensures Alike(MessageLine(s, l), MessageLine(t, l))
  {
    hide Append;
    if l.size != 1 && l.size != 4 {
      var text := Append(s.message, " ", l.text);
      assert MessageLine(s, l) == s.(message := text) && MessageLine(t, l) == t.(message := text);
    }
  }

  lemma {:induction false} AlikeFileLine(s: State, t: State, l: Line)
    requires Alike(s, t) && l.Other?
    ensures Alike(FileLine(s, l), FileLine(t, l))
  {
    hide Append;
  }

  lemma {:induction false} AlikeRead(s: State, t: State, l: Line)
    requires Safe(s) && Safe(t) && Alike(s, t)
    ensures Alike(Read(s, l), Read(t, l)) && (Continues(s, l) <==> Continues(t, l))
  {
    hide MessageLine, FileLine;
    if l.Other? {
      AlikeMessageLine(s, t, l);
      AlikeFileLine(s, t, l);
    }
  }

  lemma {:induction false} AlikeEmit(s: State, t: State)
    requires Safe(s) && Safe(t) && Alike(s, t)
    ensures Alike(EmitIfComplete(s), EmitIfComplete(t))
    ensures s.entries <= EmitIfComplete(s).entries && t.entries <= EmitIfComplete(t).entries
    ensures EmitIfComplete(s).entries[|s.entries|..] == EmitIfComplete(t).entries[|t.entries|..]
  {
  }

  lemma {:induction false} AlikeStep(s: State, t: State, l: Line)
    requires Safe(s) && Safe(t) && Alike(s, t)
    ensures Alike(Step(s, l), Step(t, l))
    ensures s.entries <= Step(s, l).entries && t.entries <= Step(t, l).entries
    ensures Step(s, l).entries[|s.entries|..] == Step(t, l).entries[|t.entries|..]
  {
    ReadKeepsOutput(s, l);
    ReadKeepsOutput(t, l);
    AlikeRead(s, t, l);
    AlikeEmit(Read(s, l), Read(t, l));
  }

  lemma {:induction false} SplitNew(a: seq<Entry>, b: seq<Entry>, c: seq<Entry>)
    requires a <= b <= c
    ensures c[|a|..] == b[|a|..] + c[|b|..]
  {
  }

  lemma {:induction false} AlikeRun(s: State, t: State, ls: seq<Line>)
    requires Safe(s) && Safe(t) && Alike(s, t)
    ensures Alike(Run(s, ls), Run(t, ls))
    ensures NewEntries(s, ls) == NewEntries(t, ls)
    decreases |ls|
  {
    EntriesGrow(s, ls);
    EntriesGrow(t, ls);
    if ls != [] {
      var n := |ls| - 1;
      AlikeRun(s, t, ls[..n]);
      EntriesGrow(s, ls[..n]);
      EntriesGrow(t, ls[..n]);
      var s', t' := Run(s, ls[..n]), Run(t, ls[..n]);
      AlikeStep(s', t', ls[n]);
      SplitNew(s.entries, s'.entries, Run(s, ls).entries);
      SplitNew(t.entries, t'.entries, Run(t, ls).entries);
    }
  }

  /** After a commit line nothing of what came before can reach an entry: the entries written from
    there on are the same whatever the script had read until then. */
  lemma {:induction false} NoMixingAcrossCommits(s: State, t: State, ls: seq<Line>)
    requires Safe(s) && Safe(t)
    ensures NewEntries(Step(s, Commit), ls) == NewEntries(Step(t, Commit), ls)
  {
    AlikeRun(Step(s, Commit), Step(t, Commit), ls);
  }

  /** Nor can anything that came before an entry reach a later one. */
  lemma {:induction false} NoMixingAcrossEntries(s: State, l: Line, ls: seq<Line>)
    requires Safe(s) && |Step(s, l).entries| > |s.entries|
    ensures NewEntries(Step(s, l), ls) == NewEntries(INITIAL, ls)
  {
    AlikeRun(Step(s, l), INITIAL, ls);
  }

  /** What has been found since the script started afresh was read since then. */
  ghost predicate ReadIn(s: State, ls: seq<Line>) {
    && (s.authorFound ==> s.author.Some? && Author(s.author.value) in ls)
    && (s.dateFound ==> s.date.Some? && Date(s.date.value) in ls)
  }

  lemma {:induction false} ReadInStep(s: State, ls: seq<Line>, l: Line)
    requires Safe(s) && ReadIn(s, ls)
    ensures ReadIn(Read(s, l), ls + [l]) && ReadIn(Step(s, l), ls + [l])
    ensures forall e :: e in Step(s, l).entries ==>
              e in s.entries || (Author(e.author) in ls + [l] && Date(e.date) in ls + [l])
  {
    assert l in ls + [l];
    assert forall x :: x in ls ==> x in ls + [l];
    ReadKeepsOutput(s, l);
    assert ReadIn(Read(s, l), ls + [l]);
  }

  /** Every entry takes its author and date from lines that were read. */
  lemma {:induction false} EntriesComeFromLines(s: State, ls: seq<Line>)
    requires Safe(s) && !s.authorFound && !s.dateFound
    ensures ReadIn(Run(s, ls), ls)
    ensures forall e :: e in Run(s, ls).entries ==>
              e in s.entries || (Author(e.author) in ls && Date(e.date) in ls)
    decreases |ls|
  {
    if ls != [] {
      var n := |ls| - 1;
      assert ls[..n] + [ls[n]] == ls;
      EntriesComeFromLines(s, ls[..n]);
      ReadInStep(Run(s, ls[..n]), ls[..n], ls[n]);
    }
  }

  /** The lines read since the script last started afresh, at a commit line or after an entry. */
  function SinceStart(ls: seq<Line>): seq<Line> {
    if ls == [] then []
    else
      var n := |ls| - 1;
      if ls[n].Commit? || Run(INITIAL, ls).entries != Run(INITIAL, ls[..n]).entries then []
      else SinceStart(ls[..n]) + [ls[n]]
  }

  lemma {:induction false} FreshAfterEntry(s: State, l: Line)
    requires Safe(s) && (l.Commit? || Step(s, l).entries != s.entries)
    ensures Alike(Step(s, l), INITIAL)
  {
    hide MessageLine, FileLine;
    ReadKeepsOutput(s, l);
  }

  lemma {:induction false} RunSnoc(s: State, ls: seq<Line>, l: Line)
    requires Safe(s)
    ensures Run(s, ls + [l]) == Step(Run(s, ls), l)
  {
    assert (ls + [l])[..|ls|] == ls;
  }

  /** What the script has found depends on the lines since it started afresh alone, and these have
    not completed an entry. */
  lemma {:induction false} FoundSinceStart(ls: seq<Line>)
    ensures Alike(Run(INITIAL, ls), Run(INITIAL, SinceStart(ls)))
    ensures Run(INITIAL, SinceStart(ls)).entries == []
    ensures Commit !in SinceStart(ls)
    decreases |ls|
  {
    hide Step, Alike;
    if ls == [] {
      AlikeItself();
    } else {
      var n := |ls| - 1;
      var s, l := Run(INITIAL, ls[..n]), ls[n];
      if l.Commit? || Step(s, l).entries != s.entries {
        FreshAfterEntry(s, l);
      } else {
        FoundSinceStart(ls[..n]);
        RunSnoc(INITIAL, SinceStart(ls[..n]), l);
        AlikeStep(s, Run(INITIAL, SinceStart(ls[..n])), l);
      }
    }
  }

  lemma {:induction false} AlikeItself()
    ensures Alike(INITIAL, INITIAL)
  {
  }

  /** An entry is made of nothing but the lines since the script last started afresh, with the line
    that completes it: these alone give exactly this entry, there is no commit line among them, and
    its author and date were read from them. */
  lemma {:induction false} EntryFromOwnLines(ls: seq<Line>, n: nat)
    requires n < |ls|
    requires Run(INITIAL, ls[..n + 1]).entries != Run(INITIAL, ls[..n]).entries
    ensures var own, es := SinceStart(ls[..n]) + [ls[n]], Run(INITIAL, ls[..n + 1]).entries;
            && es != []
            && var e := es[|es| - 1];
               && es == Run(INITIAL, ls[..n]).entries + [e]
               && Run(INITIAL, own).entries == [e]
               && Commit !in own && Author(e.author) in own && Date(e.date) in own
  {
    hide Step, Alike, Read, EmitIfComplete, SinceStart, ReadIn;
    var s, l, own := Run(INITIAL, ls[..n]), ls[n], SinceStart(ls[..n]);
    assert ls[..n + 1][..n] == ls[..n];
    FoundSinceStart(ls[..n]);
    RunSnoc(INITIAL, own, l);
    AlikeStep(s, Run(INITIAL, own), l);
    StepWritesOne(s, l);
    EntriesComeFromLines(INITIAL, own + [l]);
  }

  lemma {:induction false} StepWritesOne(s: State, l: Line)
    requires Safe(s) && Step(s, l).entries != s.entries
    ensures |Step(s, l).entries| == |s.entries| + 1 && s.entries <= Step(s, l).entries && !l.Commit?
  {
    hide MessageLine, FileLine;
    ReadKeepsOutput(s, l);
  }

  // ----- how many entries

  function Authors(ls: seq<Line>): nat {
    if ls == [] then 0 else Authors(ls[..|ls| - 1]) + (if ls[|ls| - 1].Author? then 1 else 0)
  }

  function Dates(ls: seq<Line>): nat {
    if ls == [] then 0 else Dates(ls[..|ls| - 1]) + (if ls[|ls| - 1].Date? then 1 else 0)
  }

  function Changes(ls: seq<Line>): nat {
    if ls == [] then 0
    else Changes(ls[..|ls| - 1]) + (if ls[|ls| - 1].Other? && ls[|ls| - 1].changed then 1 else 0)
  }

  /** What has been found and not yet written counts as an entry to come. */
  ghost predicate Bounded(s: State, authors: nat, dates: nat, changes: nat) {
    && |s.entries| + (if s.authorFound then 1 else 0) <= authors
    && |s.entries| + (if s.dateFound then 1 else 0) <= dates
    && |s.entries| + (if s.filesFound then 1 else 0) <= changes
  }

  lemma {:induction false} BoundedRead(s: State, l: Line, authors: nat, dates: nat, changes: nat)
    requires Safe(s) && Bounded(s, authors, dates, changes)
    ensures Bounded(Read(s, l),
                    authors + (if l.Author? then 1 else 0),
                    dates + (if l.Date? then 1 else 0),
                    changes + (if l.Other? && l.changed then 1 else 0))
  {
  }

  lemma {:induction false} BoundedEmit(s: State, authors: nat, dates: nat, changes: nat)
    requires Safe(s) && Bounded(s, authors, dates, changes)
    ensures Bounded(EmitIfComplete(s), authors, dates, changes)
  {
  }

  /** There are at most as many entries as author lines, as date lines, and as lines that say
    "files changed". */
  lemma {:induction false} EntriesBounded(ls: seq<Line>)
    ensures Bounded(Run(INITIAL, ls), Authors(ls), Dates(ls), Changes(ls))
    decreases |ls|
  {
    if ls != [] {
      var n := |ls| - 1;
      EntriesBounded(ls[..n]);
      var s := Run(INITIAL, ls[..n]);
      BoundedRead(s, ls[n], Authors(ls[..n]), Dates(ls[..n]), Changes(ls[..n]));
      BoundedEmit(Read(s, ls[n]), Authors(ls), Dates(ls), Changes(ls));
    }
  }

  // ----- author headers

  /** A sequence without the elements that repeat their predecessor. */
  function Dedup(xs: seq<string>): seq<string> {
    if |xs| <= 1 then xs
    else
      var n := |xs| - 1;
      if xs[n] == xs[n - 1] then Dedup(xs[..n]) else Dedup(xs[..n]) + [xs[n]]
  }

  lemma {:induction false} DedupLast(xs: seq<string>)
    requires xs != []
    ensures Dedup(xs) != [] && Dedup(xs)[|Dedup(xs)| - 1] == xs[|xs| - 1]
    ensures Dedup(xs)[0] == xs[0]
    decreases |xs|
  {
    if |xs| > 1 {
      DedupLast(xs[..|xs| - 1]);
    }
  }

  /** No two neighbours are equal in a deduplicated sequence. */
  lemma {:induction false} DedupHasNoRepeats(xs: seq<string>, k: nat)
    requires k + 1 < |Dedup(xs)|
    ensures Dedup(xs)[k] != Dedup(xs)[k + 1]
    decreases |xs|
  {
    var n := |xs| - 1;
    DedupLast(xs[..n]);
    if k + 1 < |Dedup(xs[..n])| {
      DedupHasNoRepeats(xs[..n], k);
    }
  }

  function AuthorLines(es: seq<Entry>): (xs: seq<string>)
    ensures |xs| == |es| && forall k :: 0 <= k < |es| ==> xs[k] == AuthorLine(es[k])
  {
    if es == [] then [] else AuthorLines(es[..|es| - 1]) + [AuthorLine(es[|es| - 1])]
  }

  /** The entries as they should be filed: each under its own author line. */
  function Listing(es: seq<Entry>): seq<(string, string)> {
    if es == [] then []
    else Listing(es[..|es| - 1]) + [(AuthorLine(es[|es| - 1]), CommitLine(es[|es| - 1]))]
  }

  function HeaderLines(out: seq<Chunk>): seq<string> {
    if out == [] then []
    else HeaderLines(out[..|out| - 1]) + (if out[|out| - 1].Header? then [out[|out| - 1].line] else [])
  }

  /** The header that a reader of the file is under at its end. */
  function CurrentHeader(out: seq<Chunk>): string {
    if out == [] then ""
    else if out[|out| - 1].Header? then out[|out| - 1].line
    else CurrentHeader(out[..|out| - 1])
  }

  /** The file read back: each paragraph with the header it stands under. */
  function Filed(out: seq<Chunk>): seq<(string, string)> {
    if out == [] then []
    else
      var above := out[..|out| - 1];
      Filed(above) + (if out[|out| - 1].Body? then [(CurrentHeader(above), out[|out| - 1].line)] else [])
  }

  lemma {:induction false} ReadBackWrite(out: seq<Chunk>, headings: seq<Chunk>, body: string)
    requires headings == [] || (|headings| == 1 && headings[0].Header?)
    ensures var current := if headings == [] then CurrentHeader(out) else headings[0].line;
            && HeaderLines(out + headings + [Body(body)])
               == HeaderLines(out) + (if headings == [] then [] else [headings[0].line])
            && CurrentHeader(out + headings + [Body(body)]) == current
            && Filed(out + headings + [Body(body)]) == Filed(out) + [(current, body)]
  {
    var mid := out + headings;
    assert (mid + [Body(body)])[..|mid|] == mid;
    if headings == [] {
      assert mid == out;
    } else {
      assert mid[..|out|] == out;
    }
  }

  /** Only the very first header is written without a blank line before it. */
  ghost predicate FirstHeaderFirst(out: seq<Chunk>) {
    forall k :: 0 <= k < |out| && out[k].Header? ==> (out[k].first <==> k == 0)
  }

  ghost predicate Grouped(s: State) {
    && HeaderLines(s.out) == Dedup(AuthorLines(s.entries))
    && Filed(s.out) == Listing(s.entries)
    && CurrentHeader(s.out) == s.prevAuthorLine
    && FirstHeaderFirst(s.out)
    && (s.out == [] <==> s.entries == [])
    && s.prevAuthorLine == (if s.entries == [] then "" else AuthorLine(s.entries[|s.entries| - 1]))
  }

  lemma {:induction false} GroupedEmit(s: State)
    requires Safe(s) && Grouped(s)
    ensures Grouped(EmitIfComplete(s))
  {
    hide Filed, HeaderLines, CurrentHeader;
    var s' := EmitIfComplete(s);
    if s'.entries != s.entries {
      var n := |s.entries|;
      var e := s'.entries[n];
      assert s'.entries[..n] == s.entries;
      assert AuthorLines(s'.entries) == AuthorLines(s.entries) + [AuthorLine(e)];
      assert AuthorLines(s'.entries)[..n] == AuthorLines(s.entries);
      AuthorLineNonEmpty(s);
      ReadBackWrite(s.out, Headings(s.prevAuthorLine, AuthorLine(e)), CommitLine(e));
    }
  }

  lemma {:induction false} AuthorLineNonEmpty(s: State)
    requires Grouped(s)
    ensures s.prevAuthorLine == "" <==> s.entries == []
  {
    if s.entries != [] {
      var e := s.entries[|s.entries| - 1];
      assert |AuthorLine(e)| == |e.date| + 2 + |e.author|;
    }
  }

  lemma {:induction false} GroupedStep(s: State, l: Line)
    requires Safe(s) && Grouped(s)
    ensures Grouped(Step(s, l))
  {
    hide Read, EmitIfComplete, HeaderLines, Filed, CurrentHeader, Dedup, AuthorLines, Listing;
    ReadKeepsOutput(s, l);
    GroupedEmit(Read(s, l));
  }

  /** On every input the author headers written are the "date  author" lines of the entries with
    immediate repetitions left out, the file read back gives every entry once, in order and under
    its own author line, and exactly the first header comes without a blank line. */
  lemma {:induction false} OutputGroupsEntries(ls: seq<Line>)
    ensures Grouped(Run(INITIAL, ls))
    decreases |ls|
  {
    if ls != [] {
      var n := |ls| - 1;
      hide Step, Grouped;
      OutputGroupsEntries(ls[..n]);
      GroupedStep(Run(INITIAL, ls[..n]), ls[n]);
    }
  }
}

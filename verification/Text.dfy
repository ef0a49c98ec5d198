/** The few string operations that the changelog script uses. */
module Text {
  import opened Prelude

  /** sub in s. */
  predicate Contains(s: string, sub: string) {
    sub <= s || (s != "" && Contains(s[1..], sub))
  }

  /** The text before and after the first occurrence of a separator, as re.split gives them. */
  function Split(s: string, sep: string): Option<(string, string)> {
    if sep <= s then Some(("", s[|sep|..]))
    else if s == "" then None
    else
      match Split(s[1..], sep)
      case None => None
      case Some(parts) => Some((s[..1] + parts.0, parts.1))
  }

  predicate IsSpace(c: char) {
    c in {' ', '\t', '\n', '\r', '\U{0b}', '\U{0c}'}
  }

  function StripLeft(s: string): string {
    if s != "" && IsSpace(s[0]) then StripLeft(s[1..]) else s
  }

  function StripRight(s: string): string {
    if s != "" && IsSpace(s[|s| - 1]) then StripRight(s[..|s| - 1]) else s
  }

  /** s.strip(). */
  function Strip(s: string): string {
    StripRight(StripLeft(s))
  }

  /** s[0:len(s)-1]. */
  function DropLast(s: string): string {
    if s == "" then "" else s[..|s| - 1]
  }

  /** sep.join(parts). */
  function Join(sep: string, parts: seq<string>): string {
    if parts == [] then ""
    else if |parts| == 1 then parts[0]
    else Join(sep, parts[..|parts| - 1]) + sep + parts[|parts| - 1]
  }

  function DropLeadingEmpty(parts: seq<string>): seq<string> {
    if parts != [] && parts[0] == "" then DropLeadingEmpty(parts[1..]) else parts
  }

  /** How the script grows its message and its list of files. */
  function Append(acc: string, sep: string, part: string): string {
    if acc == "" then part else acc + sep + part
  }

  function AppendAll(acc: string, sep: string, parts: seq<string>): string {
    if parts == [] then acc
    else Append(AppendAll(acc, sep, parts[..|parts| - 1]), sep, parts[|parts| - 1])
  }

  lemma {:induction false} AppendAllSnoc(acc: string, sep: string, parts: seq<string>, part: string)
    ensures AppendAll(acc, sep, parts + [part]) == Append(AppendAll(acc, sep, parts), sep, part)
  {
    assert (parts + [part])[..|parts|] == parts;
  }

  lemma {:induction false} Regroup(a: string, b: string, c: string, d: string)
    ensures a + (b + c + d) == (a + b) + c + d
  {
  }

  lemma {:induction false} NotAtFront(s: string, sep: string)
    requires s != "" && !(sep <= s)
    ensures Contains(s, sep) == Contains(s[1..], sep)
    ensures Split(s, sep) == match Split(s[1..], sep)
                             case None => None
                             case Some(parts) => Some((s[..1] + parts.0, parts.1))
  {
  }

  lemma {:induction false} SplitMeaning(s: string, sep: string)
    ensures Split(s, sep).Some? <==> Contains(s, sep)
    ensures Split(s, sep).Some? ==>
              var (before, after) := Split(s, sep).value;
              && s == before + sep + after
              && forall k :: 0 <= k < |before| ==> !(sep <= s[k..])
    decreases |s|
  {
    if sep <= s {
      assert s == "" + sep + s[|sep|..];
    } else if s != "" {
      hide Contains, Split;
      NotAtFront(s, sep);
      SplitMeaning(s[1..], sep);
      if Split(s[1..], sep).Some? {
        var (before, after) := Split(s[1..], sep).value;
        assert s == s[..1] + s[1..];
        Regroup(s[..1], before, sep, after);
        assert s[0..] == s;
        assert forall k :: 1 <= k < |before| + 1 ==> s[k..] == s[1..][k - 1..];
      }
    }
  }

  /** Text before the first occurrence of a separator is split off there. */
  lemma {:induction false} SplitFirst(before: string, sep: string, after: string)
    requires forall k :: 0 <= k < |before| ==> !(sep <= (before + sep + after)[k..])
    ensures Split(before + sep + after, sep) == Some((before, after))
    decreases |before|
  {
    var s := before + sep + after;
    if before == "" {
      assert s == sep + after;
    } else {
      assert s[0..] == s;
      var rest := before[1..] + sep + after;
      assert s[1..] == rest;
      forall k | 0 <= k < |before| - 1
        ensures !(sep <= rest[k..])
      {
        assert rest[k..] == s[k + 1..];
      }
      SplitFirst(before[1..], sep, after);
      assert s[..1] + before[1..] == before;
    }
  }

  lemma {:induction false} DropLeadingEmptySnoc(parts: seq<string>, part: string)
    ensures DropLeadingEmpty(parts + [part])
         == if DropLeadingEmpty(parts) == [] && part == "" then [] else DropLeadingEmpty(parts) + [part]
    decreases |parts|
  {
    if parts == [] {
      assert [] + [part] == [part];
    } else {
      assert (parts + [part])[1..] == parts[1..] + [part];
      if parts[0] == "" {
        DropLeadingEmptySnoc(parts[1..], part);
      }
    }
  }

  lemma {:induction false} JoinNonEmpty(sep: string, parts: seq<string>)
    requires parts != [] && parts[0] != ""
    ensures Join(sep, parts) != ""
    decreases |parts|
  {
    if |parts| > 1 {
      JoinNonEmpty(sep, parts[..|parts| - 1]);
    }
  }

  /** Appending part by part is joining them, without the empty ones at the front. */
  lemma {:induction false} AppendIsJoin(sep: string, parts: seq<string>)
    ensures AppendAll("", sep, parts) == Join(sep, DropLeadingEmpty(parts))
    decreases |parts|
  {
    if parts != [] {
      var n := |parts| - 1;
      var kept := DropLeadingEmpty(parts[..n]);
      AppendIsJoin(sep, parts[..n]);
      assert parts[..n] + [parts[n]] == parts;
      DropLeadingEmptySnoc(parts[..n], parts[n]);
      if kept != [] {
        LeadingKept(parts[..n]);
        JoinNonEmpty(sep, kept);
        assert (kept + [parts[n]])[..|kept|] == kept;
      }
    }
  }

  lemma {:induction false} LeadingKept(parts: seq<string>)
    ensures DropLeadingEmpty(parts) != [] ==> DropLeadingEmpty(parts)[0] != ""
    decreases |parts|
  {
    if parts != [] && parts[0] == "" {
      LeadingKept(parts[1..]);
    }
  }

  lemma {:induction false} ContainsAt(s: string, sub: string, k: nat)
    requires k <= |s| && sub <= s[k..]
    ensures Contains(s, sub)
    decreases k
  {
    if k == 0 {
      assert s[0..] == s;
    } else {
      assert s[1..][k - 1..] == s[k..];
      ContainsAt(s[1..], sub, k - 1);
    }
  }

  /** A text contains another exactly when that begins at some place of it. */
  lemma {:induction false} ContainsExact(s: string, sub: string)
    ensures Contains(s, sub) <==> exists k :: 0 <= k <= |s| && sub <= s[k..]
    decreases |s|
  {
    if k :| 0 <= k <= |s| && sub <= s[k..] {
      ContainsAt(s, sub, k);
    }
    if Contains(s, sub) {
      if sub <= s {
        assert s[0..] == s;
      } else {
        ContainsExact(s[1..], sub);
        var k :| 0 <= k <= |s[1..]| && sub <= s[1..][k..];
        assert s[1..][k..] == s[k + 1..];
      }
    }
  }

  /** A line without a character does not contain a text with it. */
  lemma {:induction false} LacksChar(line: string, sub: string, c: char)
    requires c !in line && c in sub
    ensures !Contains(line, sub)
    decreases |line|
  {
    if line != "" {
      LacksChar(line[1..], sub, c);
    }
  }

  predicate Blank(s: string) {
    forall k :: 0 <= k < |s| ==> IsSpace(s[k])
  }

  lemma {:induction false} StripLeftOf(left: string, s: string)
    requires Blank(left)
    ensures StripLeft(left + s) == StripLeft(s)
    decreases |left|
  {
    if left == "" {
      assert left + s == s;
    } else {
      assert (left + s)[1..] == left[1..] + s;
      StripLeftOf(left[1..], s);
    }
  }

  lemma {:induction false} StripRightOf(s: string, right: string)
    requires Blank(right)
    ensures StripRight(s + right) == StripRight(s)
    decreases |right|
  {
    if right == "" {
      assert s + right == s;
    } else {
      var n := |right| - 1;
      assert (s + right)[..|s| + n] == s + right[..n];
      StripRightOf(s, right[..n]);
    }
  }

  lemma {:induction false} StripLeftBefore(s: string, right: string)
    requires Blank(right)
    ensures StripLeft(s + right) == if StripLeft(s) == "" then "" else StripLeft(s) + right
    decreases |s|
  {
    if s == "" {
      StripLeftOf(right, "");
      assert s + right == right + "";
    } else if IsSpace(s[0]) {
      assert (s + right)[1..] == s[1..] + right;
      StripLeftBefore(s[1..], right);
    }
  }

  lemma {:induction false} StripPadded(left: string, s: string, right: string)
    requires Blank(left) && Blank(right)
    ensures Strip(left + s + right) == Strip(s)
  {
    assert left + s + right == left + (s + right);
    StripLeftOf(left, s + right);
    StripLeftBefore(s, right);
    StripRightOf(StripLeft(s), right);
  }

  /** Stripping keeps a text exactly when it has no white space at its ends. */
  lemma {:induction false} StripKeepsExact(s: string)
    ensures Strip(s) == s <==>
              s == "" || (s[0] !in " \t\n\r\U{0b}\U{0c}" && s[|s| - 1] !in " \t\n\r\U{0b}\U{0c}")
  {
    assert forall c :: IsSpace(c) <==> c in " \t\n\r\U{0b}\U{0c}";
    StripLeftLength(s);
    StripRightLength(StripLeft(s));
  }

  lemma {:induction false} StripLeftLength(s: string)
    ensures |StripLeft(s)| <= |s|
    ensures if s == "" || !IsSpace(s[0]) then StripLeft(s) == s else |StripLeft(s)| < |s|
    decreases |s|
  {
    if s != "" && IsSpace(s[0]) {
      StripLeftLength(s[1..]);
    }
  }

  lemma {:induction false} StripRightLength(s: string)
    ensures |StripRight(s)| <= |s|
    ensures if s == "" || !IsSpace(s[|s| - 1]) then StripRight(s) == s else |StripRight(s)| < |s|
    decreases |s|
  {
    if s != "" && IsSpace(s[|s| - 1]) {
      StripRightLength(s[..|s| - 1]);
    }
  }
}

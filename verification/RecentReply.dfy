/** The quoted-reply cutter of src/modules/sendgrid/services.py: keep the lines of a mail
    up to the first one that looks like a quotation of an earlier message. */
module RecentReply {
  import opened Text

  // ---------- str.splitlines, str.strip, "\n".join ----------

  predicate IsBreak(c: char) {
    '\n' <= c <= '\r' || '\U{1C}' <= c <= '\U{1E}' || c == '\U{85}' || c == '\U{2028}' || c == '\U{2029}'
  }

  predicate IsSpace(c: char) {
    || IsBreak(c) || c == ' ' || c == '\t' || c == '\U{1F}' || c == '\U{A0}' || c == '\U{1680}'
    || '\U{2000}' <= c <= '\U{200A}' || c == '\U{202F}' || c == '\U{205F}' || c == '\U{3000}'
  }

  /** The length of the first line, its break not included. */
  function LineEnd(t: string): (k: nat)
    ensures k <= |t|
    ensures forall i | 0 <= i < k :: !IsBreak(t[i])
    ensures k < |t| ==> IsBreak(t[k])
  {
    if t == "" || IsBreak(t[0]) then 0 else 1 + LineEnd(t[1..])
  }

  function FirstLine(t: string): string {
    t[..LineEnd(t)]
  }

  /** A carriage return and a line feed together are one break. */
  function BreakLength(t: string): nat
    requires t != ""
  {
    if |t| > 1 && t[0] == '\r' && t[1] == '\n' then 2 else 1
  }

  function AfterFirstLine(t: string): (r: string)
    requires LineEnd(t) < |t|
    ensures |r| < |t|
  {
    t[LineEnd(t) + BreakLength(t[LineEnd(t)..])..]
  }

  function Lines(t: string): seq<string>
    decreases |t|
  {
    if t == "" then []
    else if LineEnd(t) == |t| then [t] else [FirstLine(t)] + Lines(AfterFirstLine(t))
  }

  function Join(lines: seq<string>): string {
    if lines == [] then "" else if |lines| == 1 then lines[0] else lines[0] + "\n" + Join(lines[1..])
  }

  function LStrip(s: string): string {
    if s == "" || !IsSpace(s[0]) then s else LStrip(s[1..])
  }

  function RStrip(s: string): (r: string)
    ensures r <= s
    ensures forall i | |r| <= i < |s| :: IsSpace(s[i])
    ensures r != "" ==> !IsSpace(r[|r| - 1])
  {
    if s == "" || !IsSpace(s[|s| - 1]) then s else RStrip(s[..|s| - 1])
  }

  function Strip(s: string): string {
    RStrip(LStrip(s))
  }

  // ---------- the cutter ----------

  predicate IsMarker(line: string) {
    ">" <= line || Occurs("wrote:", line) || ("On " <= line && '<' in line)
  }

  /** The longest run of leading lines without a marker. */
  function LeadingRun(lines: seq<string>): (r: seq<string>)
    ensures r <= lines
    ensures forall l | l in r :: !IsMarker(l)
    ensures |r| < |lines| ==> IsMarker(lines[|r|])
  {
    if lines == [] || IsMarker(lines[0]) then [] else [lines[0]] + LeadingRun(lines[1..])
  }

  function Kept(text: string): string {
    Join(LeadingRun(Lines(text)))
  }

  function Reply(text: string): string {
    Strip(Kept(text))
  }

  lemma RunEndsAt(lines: seq<string>, i: nat)
    requires i <= |lines| && forall j | 0 <= j < i :: !IsMarker(lines[j])
    requires i < |lines| ==> IsMarker(lines[i])
    ensures LeadingRun(lines) == lines[..i]
  {
    var r := LeadingRun(lines);
    assert forall j | 0 <= j < |r| :: r[j] in r && r[j] == lines[j];
  }

  method GetRecentReply(text: string) returns (r: string)
    ensures r == Reply(text)
  {
    var lines := Lines(text);
    var recent: seq<string> := [];
    var i := 0;
    while i < |lines|
      invariant 0 <= i <= |lines| && recent == lines[..i]
      invariant forall j | 0 <= j < i :: !IsMarker(lines[j])
    {
      var line := lines[i];
      if IsMarker(line) {
        break;
      }
      recent := recent + [line];
      i := i + 1;
    }
    RunEndsAt(lines, i);
    r := Strip(Join(recent));
  }

  // ---------- the tests, character by character ----------

  /** The line breaks of `str.splitlines` and the blanks of `str.strip`. */
  lemma BreaksAndBlanks(c: char)
    ensures IsBreak(c) <==>
            c in {'\n', '\U{0B}', '\U{0C}', '\r', '\U{1C}', '\U{1D}', '\U{1E}', '\U{85}', '\U{2028}', '\U{2029}'}
    ensures IsSpace(c) <==>
            || IsBreak(c)
            || c in {' ', '\t', '\U{1F}', '\U{A0}', '\U{1680}', '\U{202F}', '\U{205F}', '\U{3000}'}
            || c in {'\U{2000}', '\U{2001}', '\U{2002}', '\U{2003}', '\U{2004}', '\U{2005}'}
            || c in {'\U{2006}', '\U{2007}', '\U{2008}', '\U{2009}', '\U{200A}'}
  {
  }

  // `LStrip` drops exactly the first `k` characters.
  predicate DropsBlanks(s: string, k: nat) {
    k <= |s| && LStrip(s) == s[k..] && AllBlank(s[..k]) && (k < |s| ==> !IsSpace(s[k]))
  }

  lemma {:induction false} LStripDropsBlanks(s: string)
    ensures exists k: nat :: DropsBlanks(s, k)
  {
    hide IsSpace;
    if s == "" || !IsSpace(s[0]) {
      assert s[0..] == s && AllBlank(s[..0]);
      assert DropsBlanks(s, 0);
    } else {
      LStripDropsBlanks(s[1..]);
      var t := s[1..];
      var k: nat :| DropsBlanks(t, k);
      assert s[k + 1..] == t[k..] && s[..k + 1] == [s[0]] + t[..k];
      assert DropsBlanks(s, k + 1);
    }
  }

  predicate AllBlank(s: string) {
    forall i | 0 <= i < |s| :: IsSpace(s[i])
  }

  predicate StandsBetweenBlanks(r: string, s: string, a: string, b: string) {
    s == a + r + b && AllBlank(a) && AllBlank(b)
  }

  /** Stripping keeps a middle part that neither begins nor ends with a blank, between blanks. */
  lemma StripKeepsTheMiddle(s: string)
    ensures exists a, b :: StandsBetweenBlanks(Strip(s), s, a, b)
    ensures Strip(s) != "" ==> !IsSpace(Strip(s)[0]) && !IsSpace(Strip(s)[|Strip(s)| - 1])
  {
    hide IsSpace, LStrip, RStrip, AllBlank, StandsBetweenBlanks;
    LStripDropsBlanks(s);
    var k: nat :| DropsBlanks(s, k);
    RStripDropsBlanks(s[k..]);
    PutTogether(s, k, Strip(s));
  }

  lemma PutTogether(s: string, k: nat, r: string)
    requires k <= |s| && r <= s[k..] && AllBlank(s[..k]) && AllBlank(s[k..][|r|..])
    ensures StandsBetweenBlanks(r, s, s[..k], s[k..][|r|..])
  {
    hide AllBlank;
    var t := s[k..];
    assert t == r + t[|r|..] && s == s[..k] + t;
    assert s[..k] + r + t[|r|..] == s[..k] + (r + t[|r|..]);
  }

  lemma RStripDropsBlanks(t: string)
    ensures RStrip(t) <= t && AllBlank(t[|RStrip(t)|..])
    ensures RStrip(t) != "" ==> t[0] == RStrip(t)[0] && !IsSpace(RStrip(t)[|RStrip(t)| - 1])
  {
    hide IsSpace;
  }

  /** A mail of one line comes back trimmed, unless the line starts with `>`, holds `wrote:`, or
      starts with `On ` and holds `<`: then nothing comes back. */
  lemma OneLineMail(text: string)
    requires forall i | 0 <= i < |text| :: !IsBreak(text[i])
    ensures Reply(text) ==
            if || (text != "" && text[0] == '>')
               || (exists a, b :: text == a + "wrote:" + b)
               || (|text| >= 3 && text[..3] == "On " && exists i: nat :: i < |text| && text[i] == '<')
            then "" else Strip(text)
  {
    MarkerTests(text);
    if text == "" {
      assert Strip("") == "";
    } else {
      LinesOfOne(text);
      LineEndOfOne(text);
      assert LeadingRun([text]) == if IsMarker(text) then [] else [text];
      assert Join([text]) == text && Join([]) == "" && Strip("") == "";
    }
  }

  lemma {:induction false} LineEndOfOne(text: string)
    requires forall i | 0 <= i < |text| :: !IsBreak(text[i])
    ensures LineEnd(text) == |text|
  {
  }

  lemma MarkerTests(line: string)
    ensures IsMarker(line) <==>
            || (line != "" && line[0] == '>')
            || (exists a, b :: line == a + "wrote:" + b)
            || (|line| >= 3 && line[..3] == "On " && exists i: nat :: i < |line| && line[i] == '<')
  {
    assert "On " <= line <==> |line| >= 3 && line[..3] == "On ";
    if Occurs("wrote:", line) {
      var k: nat :| k <= |line| && OccursAt("wrote:", line, k);
      assert line == line[..k] + "wrote:" + line[k + 6..];
    }
    if a, b :| line == a + "wrote:" + b {
      assert OccursAt("wrote:", line, |a|);
    }
  }

  // ---------- a quotation appended below changes nothing ----------

  // The blank line that a newline closes when the text does not end mid-line.
  function Closing(t: string): seq<string> {
    if t == "" || (IsBreak(t[|t| - 1]) && t[|t| - 1] != '\r') then [""] else []
  }

  lemma {:induction false} LineEndAppend(t: string, rest: string)
    ensures LineEnd(t + "\n" + rest) == LineEnd(t)
  {
    var s := t + "\n" + rest;
    if t == "" {
      assert s[0] == '\n';
    } else if !IsBreak(t[0]) {
      assert s[1..] == t[1..] + "\n" + rest;
      LineEndAppend(t[1..], rest);
    }
  }

  lemma LinesUnfold(s: string)
    requires LineEnd(s) < |s|
    ensures Lines(s) == [FirstLine(s)] + Lines(AfterFirstLine(s))
  {
    hide LineEnd, FirstLine, AfterFirstLine;
  }

  // One line and its break, taken off the front.
  lemma LinesCons(line: string, brk: string, rest: string)
    requires BreakFree(line)
    requires brk == "\r\n" || (|brk| == 1 && IsBreak(brk[0]) && (brk[0] == '\r' ==> rest == "" || rest[0] != '\n'))
    ensures Lines(line + brk + rest) == [line] + Lines(rest)
  {
    hide Lines;
    var s := line + brk + rest;
    FirstBreakAt(s, |line|);
    LinesUnfold(s);
    assert s[..|line|] == line;
    assert s[|line|..] == brk + rest;
    assert s[|line| + |brk|..] == rest;
    assert BreakLength(brk + rest) == |brk|;
  }

  lemma {:induction false} FirstBreakAt(s: string, k: nat)
    requires k < |s| && IsBreak(s[k]) && forall i | 0 <= i < k :: !IsBreak(s[i])
    ensures LineEnd(s) == k
  {
    if k == 0 {
    } else {
      FirstBreakAt(s[1..], k - 1);
    }
  }

  // The step of the next lemma: a whole first line, and what is known of the others.
  lemma LinesAppendStep(line: string, brk: string, t: string, rest: string)
    requires BreakFree(line)
    requires brk == "\r\n" || (|brk| == 1 && IsBreak(brk[0]) && (brk[0] == '\r' ==> t != "" && t[0] != '\n'))
    requires Lines(t + "\n" + rest) == Lines(t) + Closing(t) + Lines(rest)
    ensures var u := line + brk + t;
            Lines(u + "\n" + rest) == Lines(u) + Closing(u) + Lines(rest)
  {
    hide Lines;
    var u := line + brk + t;
    LinesCons(line, brk, t);
    LinesCons(line, brk, t + "\n" + rest);
    assert u + "\n" + rest == line + brk + (t + "\n" + rest);
    assert u[|u| - 1] == if t == "" then brk[|brk| - 1] else t[|t| - 1];
  }

  lemma LinesOfOne(t: string)
    requires BreakFree(t)
    ensures Lines(t) == if t == "" then [] else [t]
  {
    if LineEnd(t) == |t| {
      assert t[..|t|] == t;
    }
  }

  // The base cases: an unfinished line, and one finished by a carriage return that
  // the added newline joins.
  lemma LinesAppendLast(line: string, rest: string)
    requires BreakFree(line)
    ensures Lines(line + "\n" + rest) == Lines(line) + Closing(line) + Lines(rest)
    ensures Lines(line + "\r" + "\n" + rest) == Lines(line + "\r") + Closing(line + "\r") + Lines(rest)
  {
    hide Lines;
    LinesOfOne(line);
    LinesCons(line, "\n", rest);
    LinesOfOne("");
    LinesCons(line, "\r", "");
    LinesCons(line, "\r\n", rest);
    assert line + "\r" + "" == line + "\r";
    assert line + "\r\n" + rest == line + "\r" + "\n" + rest;
  }

  lemma {:induction false} LinesAppend(t: string, rest: string)
    ensures Lines(t + "\n" + rest) == Lines(t) + Closing(t) + Lines(rest)
    decreases |t|
  {
    hide Lines, Closing;
    var k := LineEnd(t);
    var line := t[..k];
    if k == |t| {
      assert line == t;
      LinesAppendLast(line, rest);
    } else if t[k] == '\r' && k + 1 == |t| {
      assert t == line + "\r";
      LinesAppendLast(line, rest);
    } else {
      var b := BreakLength(t[k..]);
      LinesAppend(t[k + b..], rest);
      LinesAppendStep(line, t[k..k + b], t[k + b..], rest);
      assert line + t[k..k + b] + t[k + b..] == t;
    }
  }

  lemma {:induction false} LeadingRunStopsAt(before: seq<string>, after: seq<string>)
    requires after != [] && IsMarker(after[0])
    ensures LeadingRun(before + after) == LeadingRun(before)
  {
    if before == [] {
      assert before + after == after;
    } else {
      assert (before + after)[1..] == before[1..] + after;
      LeadingRunStopsAt(before[1..], after);
    }
  }

  lemma {:induction false} LeadingRunOfAll(a: seq<string>, b: seq<string>)
    ensures LeadingRun(a + b) == if LeadingRun(a) == a then a + LeadingRun(b) else LeadingRun(a)
  {
    if a == [] {
      assert a + b == b;
    } else {
      assert (a + b)[1..] == a[1..] + b;
      LeadingRunOfAll(a[1..], b);
    }
  }

  lemma {:induction false} JoinClosing(lines: seq<string>)
    ensures Join(lines + [""]) == if lines == [] then "" else Join(lines) + "\n"
  {
    if lines == [] {
    } else {
      assert (lines + [""])[1..] == lines[1..] + [""];
      JoinClosing(lines[1..]);
      if |lines| == 1 {
        assert lines[1..] == [];
      }
    }
  }

  lemma {:induction false} StripDropsNewline(s: string)
    ensures Strip(s + "\n") == Strip(s)
  {
    if s == "" {
      assert (s + "\n")[1..] == "";
    } else if IsSpace(s[0]) {
      assert (s + "\n")[1..] == s[1..] + "\n";
      StripDropsNewline(s[1..]);
    } else {
      assert (s + "\n")[..|s|] == s;
    }
  }

  /** A newline, a line that looks like a quotation, and anything after it leave the cut
      reply as it was, whether or not the text already held a quotation. */
  lemma QuotationBelowIsCutOff(text: string, rest: string)
    requires Lines(rest) != [] && IsMarker(Lines(rest)[0])
    ensures Reply(text + "\n" + rest) == Reply(text)
  {
    var a := Lines(text);
    LinesAppend(text, rest);
    LeadingRunStopsAt(a + Closing(text), Lines(rest));
    ClosingIsInvisible(a, Closing(text));
  }

  lemma ClosingIsInvisible(lines: seq<string>, closing: seq<string>)
    requires closing == [] || closing == [""]
    ensures Strip(Join(LeadingRun(lines + closing))) == Strip(Join(LeadingRun(lines)))
  {
    LeadingRunOfAll(lines, closing);
    if LeadingRun(lines) == lines {
      assert LeadingRun(closing) == closing;
      if closing == [""] {
        JoinClosing(lines);
        StripDropsNewline(Join(lines));
      } else {
        assert lines + closing == lines;
      }
    }
  }

  // ---------- when cutting twice is cutting once ----------

  /** Every line after the first is free of markers, and lines break at newlines only. */
  predicate CleanBelow(s: string) {
    && (forall i | 0 <= i < |s| :: IsBreak(s[i]) ==> s[i] == '\n')
    && (forall p | 0 < p <= |s| && s[p - 1] == '\n' :: !IsMarker(FirstLine(s[p..])))
  }

  predicate BreakFree(line: string) {
    forall i | 0 <= i < |line| :: !IsBreak(line[i])
  }

  lemma {:induction false} LinesAreBreakFree(t: string)
    ensures forall l | l in Lines(t) :: BreakFree(l)
    decreases |t|
  {
    if t == "" {
    } else {
      var k := LineEnd(t);
      assert BreakFree(t[..k]);
      if k < |t| {
        LinesAreBreakFree(AfterFirstLine(t));
      }
    }
  }

  lemma {:induction false} FirstLineOf(line: string, rest: string)
    requires BreakFree(line)
    ensures FirstLine(line) == line
    ensures FirstLine(line + "\n" + rest) == line
  {
    assert line[..|line|] == line;
    LineEndAppend(line, rest);
  }

  lemma {:induction false} JoinIsCleanBelow(lines: seq<string>)
    requires forall l | l in lines :: BreakFree(l) && !IsMarker(l)
    ensures CleanBelow(Join(lines))
    ensures lines != [] ==> FirstLine(Join(lines)) == lines[0]
  {
    hide IsMarker, FirstLine, CleanBelow, BreakFree;
    if lines == [] {
      NothingIsCleanBelow();
    } else if |lines| == 1 {
      assert lines[0] in lines;
      FirstLineOf(lines[0], "");
      OneLineIsCleanBelow(lines[0]);
    } else {
      var l, tail := lines[0], Join(lines[1..]);
      assert l in lines && lines[1] in lines;
      JoinIsCleanBelow(lines[1..]);
      FirstLineOf(l, tail);
      CleanBelowCons(l, tail);
    }
  }

  lemma NothingIsCleanBelow()
    ensures CleanBelow("")
  {
  }

  lemma OneLineIsCleanBelow(l: string)
    requires BreakFree(l)
    ensures CleanBelow(l)
  {
    hide IsMarker, FirstLine;
  }

  lemma CleanBelowCons(l: string, tail: string)
    requires BreakFree(l) && CleanBelow(tail) && !IsMarker(FirstLine(tail))
    ensures CleanBelow(l + "\n" + tail)
  {
    hide IsMarker, FirstLine;
    var s := l + "\n" + tail;
    forall i | 0 <= i < |s|
      ensures IsBreak(s[i]) ==> s[i] == '\n'
      ensures i < |l| ==> s[i] != '\n'
    {
      if i < |l| {
        assert s[i] == l[i];
      } else if i > |l| {
        assert s[i] == tail[i - |l| - 1];
      }
    }
    forall p | 0 < p <= |s| && s[p - 1] == '\n'
      ensures !IsMarker(FirstLine(s[p..]))
    {
      var q := p - |l| - 1;
      assert s[p..] == tail[q..];
      if q == 0 {
        assert tail[0..] == tail;
      } else {
        assert s[p - 1] == tail[q - 1];
      }
    }
  }

  lemma BreakOfCleanText(s: string, k: nat)
    requires CleanBelow(s) && k < |s| && IsBreak(s[k])
    ensures s[k] == '\n' && !IsMarker(FirstLine(s[k + 1..]))
  {
  }

  lemma SuffixIsCleanBelow(s: string, k: nat)
    requires CleanBelow(s) && k <= |s|
    ensures CleanBelow(s[k..])
  {
    var t := s[k..];
    forall p | 0 < p <= |t| && t[p - 1] == '\n'
      ensures !IsMarker(FirstLine(t[p..]))
    {
      assert t[p..] == s[k + p..] && s[k + p - 1] == '\n';
    }
  }

  // A prefix of a line is no more a marker than the line is.
  lemma PrefixOfMarker(part: string, line: string)
    requires part <= line && IsMarker(part)
    ensures IsMarker(line)
  {
    if Occurs("wrote:", part) {
      var k: nat :| k <= |part| && OccursAt("wrote:", part, k);
      assert line[k..k + 6] == part[k..k + 6];
      assert OccursAt("wrote:", line, k);
    } else if '<' in part {
      var i :| 0 <= i < |part| && part[i] == '<';
      assert line[i] == '<';
    }
  }

  lemma {:induction false} LineEndOfPrefix(s: string, m: nat)
    requires m <= |s|
    ensures LineEnd(s[..m]) == if m < LineEnd(s) then m else LineEnd(s)
    ensures FirstLine(s[..m]) <= FirstLine(s)
  {
    if m == 0 || IsBreak(s[0]) {
    } else {
      assert s[..m][1..] == s[1..][..m - 1];
      LineEndOfPrefix(s[1..], m - 1);
    }
  }

  lemma PrefixIsCleanBelow(s: string, m: nat)
    requires CleanBelow(s) && m <= |s|
    ensures CleanBelow(s[..m])
  {
    var t := s[..m];
    forall p | 0 < p <= |t| && t[p - 1] == '\n'
      ensures !IsMarker(FirstLine(t[p..]))
    {
      assert t[p..] == s[p..][..m - p];
      LineEndOfPrefix(s[p..], m - p);
      if IsMarker(FirstLine(t[p..])) {
        PrefixOfMarker(FirstLine(t[p..]), FirstLine(s[p..]));
      }
    }
  }

  // Dropping trailing blanks neither makes nor unmakes a marker of the first line.
  lemma RStripKeepsMarker(s: string)
    ensures IsMarker(FirstLine(RStrip(s))) <==> IsMarker(FirstLine(s))
  {
    var m := |RStrip(s)|;
    var line, part := FirstLine(s), FirstLine(RStrip(s));
    assert RStrip(s) == s[..m];
    LineEndOfPrefix(s, m);
    assert part == line[..if m < |line| then m else |line|];
    if IsMarker(part) {
      PrefixOfMarker(part, line);
    }
    if IsMarker(line) {
      MarkerSurvives(line, |part|);
    }
  }

  lemma MarkerSurvives(line: string, m: nat)
    requires IsMarker(line) && m <= |line| && forall i | m <= i < |line| :: IsSpace(line[i])
    ensures IsMarker(line[..m])
  {
    var part := line[..m];
    if ">" <= line {
      assert !IsSpace(line[0]);
    } else if Occurs("wrote:", line) {
      WroteSurvives(line, m);
    } else {
      var i :| 0 <= i < |line| && line[i] == '<';
      assert "On "[0] == line[0] && "On "[1] == line[1] && "On "[2] == line[2];
      assert i >= 3 && i < m && part[i] == '<';
    }
  }

  lemma WroteSurvives(line: string, m: nat)
    requires Occurs("wrote:", line) && m <= |line| && forall i | m <= i < |line| :: IsSpace(line[i])
    ensures Occurs("wrote:", line[..m])
  {
    var k: nat :| k <= |line| && OccursAt("wrote:", line, k);
    assert line[k + 5] == line[k..k + 6][5] == ':';
    assert k + 6 <= m;
    assert line[..m][k..k + 6] == line[k..k + 6];
    assert OccursAt("wrote:", line[..m], k);
  }

  lemma {:induction false} LStripIsSuffix(s: string)
    ensures exists k: nat :: k <= |s| && LStrip(s) == s[k..]
    ensures LStrip(s) != "" ==> !IsSpace(LStrip(s)[0])
  {
    if s != "" && IsSpace(s[0]) {
      LStripIsSuffix(s[1..]);
      var k: nat :| k <= |s[1..]| && LStrip(s[1..]) == s[1..][k..];
      assert s[1..][k..] == s[k + 1..];
    } else {
      assert s[0..] == s;
    }
  }

  lemma StripTwice(s: string)
    ensures Strip(Strip(s)) == Strip(s)
  {
    LStripIsSuffix(s);
    var r := Strip(s);
    if r != "" {
      assert r[0] == LStrip(s)[0];
    }
  }

  // One more clean line on top of kept lines.
  lemma KeptCons(line: string, rest: seq<string>)
    requires !IsMarker(line) && rest != [] && LeadingRun(rest) == rest
    ensures LeadingRun([line] + rest) == [line] + rest
    ensures Join([line] + rest) == line + "\n" + Join(rest)
  {
    assert ([line] + rest)[1..] == rest;
  }

  lemma KeptOne(line: string)
    requires !IsMarker(line)
    ensures LeadingRun([line]) == [line] && Join([line]) == line && LeadingRun([]) == [] && Join([]) == ""
  {
  }

  // Splitting clean text into lines, keeping them all, and joining again gives it back.
  lemma {:induction false} CleanTextIsKept(s: string)
    requires CleanBelow(s) && !IsMarker(FirstLine(s))
    requires s != "" ==> !IsBreak(s[|s| - 1])
    ensures LeadingRun(Lines(s)) == Lines(s) && Join(Lines(s)) == s
    ensures s != "" ==> Lines(s) != []
    decreases |s|
  {
    hide Lines, LeadingRun, Join, IsMarker, CleanBelow, LineEnd, IsBreak, FirstLine;
    var k := LineEnd(s);
    var line := FirstLine(s);
    FirstLineIs(s);
    KeptOne(line);
    if k == |s| {
      LinesOfOne(s);
    } else {
      BreakOfCleanText(s, k);
      var t := s[k + 1..];
      assert s == line + "\n" + t && t != "";
      SuffixIsCleanBelow(s, k + 1);
      CleanTextIsKept(t);
      LinesCons(line, "\n", t);
      KeptCons(line, Lines(t));
    }
  }

  lemma FirstLineIs(s: string)
    ensures FirstLine(s) == s[..LineEnd(s)] && BreakFree(FirstLine(s))
    ensures LineEnd(s) == |s| ==> FirstLine(s) == s
  {
  }

  lemma KeptIsCleanBelow(text: string)
    ensures CleanBelow(Kept(text))
  {
    hide Lines, Join, IsMarker;
    LinesAreBreakFree(text);
    assert forall l | l in LeadingRun(Lines(text)) :: l in Lines(text);
    JoinIsCleanBelow(LeadingRun(Lines(text)));
  }

  lemma StripKeepsClean(s: string)
    requires CleanBelow(s)
    ensures CleanBelow(Strip(s))
    ensures IsMarker(FirstLine(Strip(s))) <==> IsMarker(FirstLine(LStrip(s)))
  {
    hide CleanBelow, IsMarker, FirstLine, LStrip;
    var left := LStrip(s);
    LStripIsSuffix(s);
    var k: nat :| k <= |s| && left == s[k..];
    SuffixIsCleanBelow(s, k);
    assert Strip(s) == left[..|Strip(s)|];
    PrefixIsCleanBelow(left, |Strip(s)|);
    RStripKeepsMarker(left);
  }

  /** The mail's first line with anything on it, before any marker, is a marker but for the
      blanks in front of it. */
  predicate IndentedQuote(lines: seq<string>) {
    lines != [] && !IsMarker(lines[0])
    && if LStrip(lines[0]) == "" then IndentedQuote(lines[1..]) else IsMarker(LStrip(lines[0]))
  }

  lemma {:induction false} LStripAppend(a: string, b: string)
    ensures LStrip(a + b) == if LStrip(a) == "" then LStrip(b) else LStrip(a) + b
  {
    if a == "" {
      assert a + b == b;
    } else if IsSpace(a[0]) {
      assert (a + b)[1..] == a[1..] + b;
      LStripAppend(a[1..], b);
    }
  }

  lemma LStripStaysBreakFree(line: string)
    requires BreakFree(line)
    ensures BreakFree(LStrip(line)) && LStrip("\n") == "" && FirstLine(LStrip(line)) == LStrip(line)
  {
    LStripIsSuffix(line);
    assert "\n"[1..] == "";
    FirstLineOf(LStrip(line), "");
  }

  lemma LStripLineAndMore(line: string, more: string)
    requires BreakFree(line)
    ensures if LStrip(line) == "" then LStrip(line + "\n" + more) == LStrip(more)
            else FirstLine(LStrip(line + "\n" + more)) == LStrip(line)
  {
    hide LStrip, FirstLine, BreakFree;
    LStripStaysBreakFree(line);
    LStripAppend(line, "\n" + more);
    LStripAppend("\n", more);
    FirstLineOf(LStrip(line), more);
    assert line + ("\n" + more) == line + "\n" + more;
    assert LStrip(line) + ("\n" + more) == LStrip(line) + "\n" + more;
  }

  // The kept lines, joined and left-trimmed, open with the first non-blank one.
  lemma {:induction false} TrimmedRunOpensWith(lines: seq<string>)
    requires forall l | l in lines :: BreakFree(l)
    ensures IsMarker(FirstLine(LStrip(Join(LeadingRun(lines))))) <==> IndentedQuote(lines)
  {
    hide IsMarker, LStrip, FirstLine, BreakFree, Join;
    if lines == [] || IsMarker(lines[0]) {
      NothingOpensWithNothing();
    } else {
      var line, rest := lines[0], LeadingRun(lines[1..]);
      TrimmedRunOpensWith(lines[1..]);
      assert BreakFree(line);
      LStripStaysBreakFree(line);
      KeptMore(line, rest);
      if rest == [] {
        NothingOpensWithNothing();
      } else {
        LStripLineAndMore(line, Join(rest));
      }
    }
  }

  lemma NothingOpensWithNothing()
    ensures LStrip(Join([])) == "" && !IsMarker(FirstLine(""))
  {
  }

  lemma KeptMore(line: string, rest: seq<string>)
    ensures Join([line] + rest) == if rest == [] then line else line + "\n" + Join(rest)
  {
    assert ([line] + rest)[1..] == rest;
  }

  /** Cutting the reply again changes nothing, exactly when the mail does not open with an
      indented quotation; when it does, the second cut removes everything. */
  lemma CuttingTwice(text: string)
    ensures Reply(Reply(text)) == Reply(text) <==> !IndentedQuote(Lines(text))
    ensures IndentedQuote(Lines(text)) ==> Reply(text) != "" && Reply(Reply(text)) == ""
  {
    hide Lines, Join, LeadingRun, FirstLine, LStrip, RStrip, CleanBelow, IsMarker, IndentedQuote;
    var r := Reply(text);
    LinesAreBreakFree(text);
    TrimmedRunOpensWith(Lines(text));
    KeptIsCleanBelow(text);
    StripKeepsClean(Kept(text));
    StripTwice(Kept(text));
    if IsMarker(FirstLine(r)) {
      MarkerFirstCutsAll(r);
    } else {
      CleanTextIsKept(r);
    }
  }

  lemma MarkerFirstCutsAll(r: string)
    requires IsMarker(FirstLine(r))
    ensures r != "" && Reply(r) == ""
  {
    assert r != "";
    var k := LineEnd(r);
    assert k == |r| ==> r[..k] == r;
    assert Lines(r)[0] == FirstLine(r);
  }

  /** The smallest case: an indented quotation sign survives one cut and not two. */
  lemma IndentedQuoteSurvivesOnce()
    ensures Reply("  > x") == "> x" && Reply("> x") == ""
  {
    var t := "  > x";
    assert t[1..] == " > x" && t[1..][1..] == "> x";
    assert LineEnd("> x") == 3 by {
      assert "> x"[1..] == " x" && " x"[1..] == "x" && "x"[1..] == "";
    }
    assert LineEnd(t) == 5;
    assert !Occurs("wrote:", t);
    assert t[0] == ' ';
    assert Lines(t) == [t];
    assert LeadingRun([t]) == [t];
    assert LStrip(t) == "> x" && RStrip("> x") == "> x";
    MarkerFirstCutsAll("> x") by {
      assert FirstLine("> x")[0] == '>';
    }
  }
}

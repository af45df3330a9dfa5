/**
 The reply parser of `EnglishWritingAssistant.get_feedback`: it cuts the
 text between the response markers out of the model's reply, splits it at
 the two field labels, and keeps the cleaned `-` bullet lines of the
 changes list. Two fallbacks replace the result with a fixed error message
 and the raw text when the markers or the labels are not where they should
 be.
 */
module Feedback {
  import opened Python

  const StartMarker: string := "---START_RESPONSE---"
  const EndMarker: string := "---END_RESPONSE---"
  const CorrectedTextLabel: string := "CORRECTED_TEXT:"
  const ChangesListLabel: string := "CHANGES_LIST:"

  const MarkersErrorText: string :=
    "AI output format error: Could not find structured response markers. Please see raw output below."
  const LabelsErrorText: string :=
    "AI output format error: Could not parse corrected text or changes list. Please see raw output below."
  const MarkersRawPrefix: string := "Raw LLM output: "
  const LabelsRawPrefix: string := "Raw LLM output (parsing failed): "

  /** The characters `lstrip('- ')` removes. */
  const BulletChars: set<char> := {'-', ' '}

  /** The dictionary `get_feedback` returns. */
  datatype Feedback = Feedback(correctedText: string, changesList: seq<string>)

  /** What every entry of a parsed changes list looks like: not empty and
      with no whitespace at either end. */
  predicate IsChangeEntry(e: string) {
    e != [] && IsStripped(e)
  }

  /** The shape of a fallback result: one of the two error messages and a
      single raw-output entry. */
  predicate IsFallback(r: Feedback) {
    (r.correctedText == MarkersErrorText || r.correctedText == LabelsErrorText)
    && |r.changesList| == 1
  }

  // ---------------------------------------------------------------------
  // The changes list

  /** `line.strip().lstrip('- ').strip()` */
  function CleanLine(line: string): (r: string)
    ensures |r| <= |line|
    ensures IsStripped(r)
  {
    Strip(LStrip(Strip(line), BulletChars))
  }

  /** The filter of the comprehension: the stripped line starts with '-'
      and something is left once it is cleaned. */
  predicate IsBulletLine(line: string) {
    StartsWith(Strip(line), "-") && CleanLine(line) != []
  }

  /** The list comprehension over the lines of the changes section: the
      cleaned bullet lines, in their order. */
  function CleanedChanges(lines: seq<string>): (r: seq<string>)
    ensures |r| <= |lines|
    ensures forall i :: 0 <= i < |r| ==> IsChangeEntry(r[i])
  {
    ListCompKeeps(lines, CleanLine, IsBulletLine, IsChangeEntry);
    ListComp(lines, CleanLine, IsBulletLine)
  }

  /** The comprehension works line by line and keeps the order. */
  lemma CleanedChangesAppend(a: seq<string>, b: seq<string>)
    ensures CleanedChanges(a + b) == CleanedChanges(a) + CleanedChanges(b)
  {
    ListCompAppend(a, b, CleanLine, IsBulletLine);
  }

  /** An entry is in the list exactly when some bullet line cleans to it. */
  lemma CleanedChangesMembership(lines: seq<string>, e: string)
    ensures e in CleanedChanges(lines) <==>
      exists i :: 0 <= i < |lines| && IsBulletLine(lines[i]) && CleanLine(lines[i]) == e
  {
    ListCompMembership(lines, CleanLine, IsBulletLine, e);
  }

  /** A line whose stripped form does not start with '-' (a '*' bullet, a
      numbered item, plain text, a blank line) adds nothing. */
  lemma DropsNonDashLines(lines: seq<string>, i: int)
    requires 0 <= i < |lines|
    requires !StartsWith(Strip(lines[i]), "-")
    ensures CleanedChanges(lines) == CleanedChanges(lines[..i]) + CleanedChanges(lines[i + 1..])
  {
    ListCompSkips(lines, CleanLine, IsBulletLine, i);
  }

  /** A cleaned entry starts with '-' only when the line holds a whitespace
      character other than ' ': `lstrip('- ')` stops at such a character and
      the final `strip()` then removes it. */
  lemma CleanLineFirstChar(line: string)
    requires forall k :: 0 <= k < |line| && IsSpace(line[k]) ==> line[k] == ' '
    ensures CleanLine(line) == [] || CleanLine(line)[0] != '-'
  {
    var t := Strip(line);
    StripIsInfix(line);
    var lo := LeadingRun(line, Whitespace);
    var n := LeadingRun(t, BulletChars);
    var u := t[n..];
    if u != [] {
      assert u[0] == line[lo + n];
      assert !IsSpace(u[0]);
      LeadingRunExact(u, Whitespace, 0);
      assert LStrip(u, Whitespace) == u;
    }
  }

  /** The line "-\t-x" shows that the condition above is needed. */
  lemma CleanLineCanStartWithDash()
    ensures CleanLine("-\t-x") == "-x"
  {
    var line := "-\t-x";
    StripOfStripped(line);
    LeadingRunExact(line, BulletChars, 1);
    var u := line[1..];
    assert u == "\t-x";
    StripPadded("\t", "-x", "");
    assert u == "\t" + "-x" + "";
  }

  // ---------------------------------------------------------------------
  // Parsing

  /** The two labels are both present, `CHANGES_LIST:` first found after
      `CORRECTED_TEXT:` first found. */
  ghost predicate LabelsInOrder(content: string) {
    var c, l := Find(content, CorrectedTextLabel), Find(content, ChangesListLabel);
    c != -1 && l != -1 && l > c
  }

  /** The part of `get_feedback` that works on the stripped text between
      the markers. */
  function ParseBlock(content: string): (r: Feedback)
    ensures IsFallback(r) || (IsStripped(r.correctedText)
      && forall i :: 0 <= i < |r.changesList| ==> IsChangeEntry(r.changesList[i]))
  {
    var c := Find(content, CorrectedTextLabel);
    var l := Find(content, ChangesListLabel);
    if c != -1 && l != -1 && l > c then
      var corrected := Strip(Slice(content, c + |CorrectedTextLabel|, l));
      Feedback(corrected, CleanedChanges(Split(ChangesSection(content), '\n')))
    else
      Feedback(LabelsErrorText, [LabelsRawPrefix + content])
  }

  /** Both markers are present, `---END_RESPONSE---` first found after
      `---START_RESPONSE---` first found. */
  ghost predicate MarkersInOrder(full: string) {
    var s, e := Find(full, StartMarker), Find(full, EndMarker);
    s != -1 && e != -1 && e > s
  }

  /** The parsing in `get_feedback`, from the raw reply to the returned
      dictionary. It is total: every reply gives a result. */
  function ParseFeedback(full: string): (r: Feedback)
    ensures IsFallback(r) || (IsStripped(r.correctedText)
      && forall i :: 0 <= i < |r.changesList| ==> IsChangeEntry(r.changesList[i]))
  {
    var s := Find(full, StartMarker);
    var e := Find(full, EndMarker);
    if s != -1 && e != -1 && e > s then
      ParseBlock(Block(full))
    else
      Feedback(MarkersErrorText, [MarkersRawPrefix + full])
  }

  /** The text between the markers, as `parsed_content`. */
  function Block(full: string): (b: string)
    requires MarkersInOrder(full)
    ensures b == [] || |b| + |StartMarker| + |EndMarker| <= |full|
  {
    var s := Find(full, StartMarker);
    var e := Find(full, EndMarker);
    Strip(Slice(full, s + |StartMarker|, e))
  }

  // ---------------------------------------------------------------------
  // The fallbacks

  /** On the success path no entry is longer than the block it came from. */
  lemma SuccessEntryBound(content: string)
    requires LabelsInOrder(content)
    ensures forall i :: 0 <= i < |ParseBlock(content).changesList| ==>
      |ParseBlock(content).changesList[i]| <= |content|
  {
    var lines := Split(ChangesSection(content), '\n');
    SuccessPath(content);
    CleanedChangesBound(lines, |content|);
  }

  lemma CleanedChangesBound(lines: seq<string>, n: nat)
    requires forall i :: 0 <= i < |lines| ==> |lines[i]| <= n
    ensures forall i :: 0 <= i < |CleanedChanges(lines)| ==> |CleanedChanges(lines)[i]| <= n
  {
    ListCompKeeps(lines, CleanLine, IsBulletLine, (e: string) => |e| <= n);
  }

  /** The inner fallback is taken exactly when a label is missing or the
      labels are out of order; its one entry is the block itself. */
  lemma LabelsFallback(content: string)
    ensures !LabelsInOrder(content) <==>
      ParseBlock(content) == Feedback(LabelsErrorText, [LabelsRawPrefix + content])
  {
    if LabelsInOrder(content) {
      var r := ParseBlock(content);
      SuccessEntryBound(content);
      assert |r.changesList| == 1 ==> |r.changesList[0]| < |LabelsRawPrefix + content|;
    }
  }

  /** The outer fallback is taken exactly when a marker is missing or the
      markers are out of order; its one entry is the whole reply. */
  lemma MarkersFallback(full: string)
    ensures !MarkersInOrder(full) <==>
      ParseFeedback(full) == Feedback(MarkersErrorText, [MarkersRawPrefix + full])
  {
    if MarkersInOrder(full) {
      var b := Block(full);
      var r := ParseFeedback(full);
      assert r == ParseBlock(b);
      assert |full| >= |StartMarker|;
      if LabelsInOrder(b) {
        SuccessEntryBound(b);
      } else {
        LabelsFallback(b);
      }
      assert |r.changesList| == 1 ==> |r.changesList[0]| < |MarkersRawPrefix + full|;
    }
  }

  /** Past the markers, parsing continues on the block between them. */
  lemma ParseFeedbackBlock(full: string)
    requires MarkersInOrder(full)
    ensures ParseFeedback(full) == ParseBlock(Block(full))
  {
  }

  /** On the success path the corrected text is the stripped text between
      the two labels, and the changes list is built from the stripped text
      after `CHANGES_LIST:`. */
  lemma SuccessPath(content: string)
    requires LabelsInOrder(content)
    ensures var c, l := Find(content, CorrectedTextLabel), Find(content, ChangesListLabel);
      && ParseBlock(content).correctedText == Strip(Slice(content, c + |CorrectedTextLabel|, l))
      && ParseBlock(content).changesList == CleanedChanges(Split(ChangesSection(content), '\n'))
  {
  }

  /** With `CORRECTED_TEXT:` at the front and `CHANGES_LIST:` first found at
      `l`, the corrected text is the stripped text between them. */
  lemma CorrectedAtFront(content: string, l: int)
    requires Find(content, CorrectedTextLabel) == 0
    requires Find(content, ChangesListLabel) == l && l > 0
    ensures ParseBlock(content).correctedText == Strip(Slice(content, |CorrectedTextLabel|, l))
  {
  }

  /** The stripped text after the first `CHANGES_LIST:`, as `changes_raw`. */
  function ChangesSection(content: string): (raw: string)
    requires LabelsInOrder(content)
    ensures |raw| <= |content|
  {
    Strip(SliceFrom(content, Find(content, ChangesListLabel) + |ChangesListLabel|))
  }

  /** The changes list has at most one entry per line of `changes_raw`. */
  lemma ChangesAtMostLines(content: string)
    requires LabelsInOrder(content)
    ensures |ParseBlock(content).changesList| <= multiset(ChangesSection(content))['\n'] + 1
  {
    SuccessPath(content);
    SplitCount(ChangesSection(content), '\n');
  }

  /** The end marker can start inside the start marker (they share "---");
      then the text between them is empty and the inner fallback reports
      an empty block. */
  lemma OverlappingMarkers(full: string)
    requires MarkersInOrder(full)
    requires Find(full, EndMarker) < Find(full, StartMarker) + |StartMarker|
    ensures ParseFeedback(full) == Feedback(LabelsErrorText, [LabelsRawPrefix])
  {
    assert Block(full) == [];
    assert !LabelsInOrder([]);
    assert LabelsRawPrefix + [] == LabelsRawPrefix;
  }

  /** The smallest such reply: the start marker running into the end
      marker's last characters. */
  const OverlapReply: string := "---START_RESPONSE---END_RESPONSE---"

  /** The end marker does not begin before index 17 of that reply. */
  lemma OverlapReplyNoEarlyEnd()
    ensures forall j :: 0 <= j < 17 ==> !OccursAt(OverlapReply, EndMarker, j)
  {
    var full := OverlapReply;
    forall j | 0 <= j < 17 ensures !OccursAt(full, EndMarker, j) {
      assert StartMarker[j] != '-' || StartMarker[j + 3] != 'E';
      assert full[j] == StartMarker[j] && full[j + 3] == StartMarker[j + 3];
      assert full[j..j + 18][0] == full[j] && full[j..j + 18][3] == full[j + 3];
      assert EndMarker[0] == '-' && EndMarker[3] == 'E';
    }
  }

  /** The two markers are found at indices 0 and 17 of that reply. */
  lemma OverlapReplyMarkers()
    ensures Find(OverlapReply, StartMarker) == 0
    ensures Find(OverlapReply, EndMarker) == 17
  {
    var full := OverlapReply;
    assert full[..20] == StartMarker;
    FindIsFirst(full, StartMarker, 0);
    assert full[17..] == EndMarker;
    OverlapReplyNoEarlyEnd();
    FindIsFirst(full, EndMarker, 17);
  }

  lemma OverlappingMarkersExample()
    ensures ParseFeedback(OverlapReply) == Feedback(LabelsErrorText, [LabelsRawPrefix])
  {
    OverlapReplyMarkers();
    OverlappingMarkers(OverlapReply);
  }

  /** A reply that begins with the start marker has it at index 0. */
  lemma StartMarkerAtFront(rest: string)
    ensures Find(StartMarker + rest, StartMarker) == 0
  {
    assert (StartMarker + rest)[..|StartMarker|] == StartMarker;
    FindIsFirst(StartMarker + rest, StartMarker, 0);
  }

  /** An end-marker line after text free of the end marker is found there. */
  lemma EndMarkerAfter(head: string)
    requires !Contains(head, EndMarker)
    ensures Find(head + "\n" + EndMarker, EndMarker) == |head| + 1
  {
    assert head + "\n" + EndMarker == head + ['\n'] + EndMarker + [];
    FindAfterSeparator(head, '\n', EndMarker, []);
  }

  /** A reply framed by a start-marker line and an end-marker line, with
      no end marker before the last line, has its markers found at its two
      ends. */
  lemma FramedMarkers(body: string)
    requires !Contains(StartMarker + "\n" + body, EndMarker)
    ensures Find(StartMarker + "\n" + body + "\n" + EndMarker, StartMarker) == 0
    ensures Find(StartMarker + "\n" + body + "\n" + EndMarker, EndMarker)
      == |StartMarker| + |body| + 2
  {
    var mid := "\n" + body + "\n";
    assert StartMarker + "\n" + body + "\n" + EndMarker == StartMarker + (mid + EndMarker);
    StartMarkerAtFront(mid + EndMarker);
    EndMarkerAfter(StartMarker + "\n" + body);
  }

  /** The text between the two marker lines of such a reply. */
  lemma FramedSlice(body: string)
    ensures Slice(StartMarker + "\n" + body + "\n" + EndMarker,
      |StartMarker|, |StartMarker| + |body| + 2) == "\n" + body + "\n"
  {
    var mid := "\n" + body + "\n";
    assert StartMarker + "\n" + body + "\n" + EndMarker == StartMarker + mid + EndMarker;
    MiddleOfConcat(StartMarker, mid, EndMarker);
  }

  /** What the markers of such a reply cut out is the stripped body. */
  lemma FramedBlock(body: string)
    requires IsStripped(body)
    requires Find(StartMarker + "\n" + body + "\n" + EndMarker, StartMarker) == 0
    requires Find(StartMarker + "\n" + body + "\n" + EndMarker, EndMarker)
      == |StartMarker| + |body| + 2
    ensures MarkersInOrder(StartMarker + "\n" + body + "\n" + EndMarker)
    ensures Block(StartMarker + "\n" + body + "\n" + EndMarker) == body
  {
    FramedSlice(body);
    StripPadded("\n", body, "\n");
  }

  /** Such a reply parses as its block. */
  lemma WrappedBlock(body: string)
    requires IsStripped(body)
    requires !Contains(StartMarker + "\n" + body, EndMarker)
    ensures ParseFeedback(StartMarker + "\n" + body + "\n" + EndMarker) == ParseBlock(body)
  {
    FramedMarkers(body);
    FramedBlock(body);
    ParseFeedbackBlock(StartMarker + "\n" + body + "\n" + EndMarker);
  }
}

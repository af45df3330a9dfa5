/**
 The reply format the prompt of `get_feedback` asks the model for, and the
 proof that the parser reads back exactly what was written in it:

   ---START_RESPONSE---
   CORRECTED_TEXT: <corrected text>
   CHANGES_LIST:
   - <change 1>
   - <change 2>
   ---END_RESPONSE---
 */
module ReplyFormat {
  import opened Python
  import opened Feedback

  /** The bullet lines of the changes list. */
  function Bullets(changes: seq<string>): (r: seq<string>)
    ensures |r| == |changes|
    ensures forall i :: 0 <= i < |r| ==> r[i] == "- " + changes[i]
  {
    seq(|changes|, i requires 0 <= i < |changes| => "- " + changes[i])
  }

  /** A reply written in the requested format. */
  function RenderReply(corrected: string, changes: seq<string>): (r: string)
  {
    Join([StartMarker, CorrectedTextLabel + " " + corrected, ChangesListLabel]
      + Bullets(changes) + [EndMarker], '\n')
  }

  /** A corrected text the format can carry: stripped, and holding neither
      the changes label nor the end marker. */
  ghost predicate RenderableCorrected(t: string) {
    IsStripped(t) && !Contains(t, ChangesListLabel) && !Contains(t, EndMarker)
  }

  /** A change the format can carry: what the parser produces, on one line,
      not starting with '-', and not holding the end marker. */
  ghost predicate RenderableChange(c: string) {
    IsChangeEntry(c) && c[0] != '-' && '\n' !in c && !Contains(c, EndMarker)
  }

  // ---------------------------------------------------------------------
  // Facts about the fixed strings

  lemma MarkerFacts()
    ensures !Contains(StartMarker, EndMarker)
    ensures !Contains(CorrectedTextLabel, ChangesListLabel)
    ensures !Contains(CorrectedTextLabel, EndMarker) && !Contains(ChangesListLabel, EndMarker)
    ensures !Contains("-", EndMarker)
    ensures '\n' !in EndMarker && ' ' !in EndMarker && ' ' !in ChangesListLabel
  {
    forall j | 0 <= j && j + |EndMarker| <= |StartMarker|
      ensures !OccursAt(StartMarker, EndMarker, j)
    {
      assert StartMarker[j + 3] != 'E';
      assert StartMarker[j..j + |EndMarker|][3] == StartMarker[j + 3];
      assert EndMarker[3] == 'E';
    }
    forall j | 0 <= j && j + |ChangesListLabel| <= |CorrectedTextLabel|
      ensures !OccursAt(CorrectedTextLabel, ChangesListLabel, j)
    {
      assert CorrectedTextLabel[j + 1] != 'H';
      assert CorrectedTextLabel[j..j + |ChangesListLabel|][1] == CorrectedTextLabel[j + 1];
      assert ChangesListLabel[1] == 'H';
    }
    ShortNotContains(CorrectedTextLabel, EndMarker);
    ShortNotContains(ChangesListLabel, EndMarker);
    ShortNotContains("-", EndMarker);
  }

  // ---------------------------------------------------------------------
  // The changes list reads back

  /** A bullet line of a change has no whitespace at either end. */
  lemma BulletStripped(c: string)
    requires IsChangeEntry(c)
    ensures Strip("- " + c) == "- " + c
  {
    var line := "- " + c;
    assert line[0] == '-' && line[|line| - 1] == c[|c| - 1];
    StripOfStripped(line);
  }

  /** `lstrip('- ')` removes exactly the bullet of such a line. */
  lemma BulletRemoved(c: string)
    requires IsChangeEntry(c) && c[0] != '-'
    ensures LStrip("- " + c, BulletChars) == c
  {
    var line := "- " + c;
    assert line[0] == '-' && line[1] == ' ' && line[2] == c[0];
    LeadingRunExact(line, BulletChars, 2);
    assert line[2..] == c;
  }

  /** A bullet line of a renderable change cleans back to the change. */
  lemma CleanBullet(c: string)
    requires IsChangeEntry(c) && c[0] != '-'
    ensures IsBulletLine("- " + c) && CleanLine("- " + c) == c
  {
    BulletStripped(c);
    BulletRemoved(c);
    StripOfStripped(c);
    assert ("- " + c)[..1] == "-";
  }

  /** `strip()` removes the '\r' that `split('\n')` leaves at the end of
      a line with a Windows line ending. */
  lemma BulletCrStripped(c: string)
    requires IsChangeEntry(c)
    ensures Strip("- " + c + "\r") == "- " + c
  {
    var line := "- " + c;
    assert line[0] == '-' && line[|line| - 1] == c[|c| - 1];
    assert line + "\r" == [] + line + "\r";
    StripPadded([], line, "\r");
  }

  /** Such a bullet line cleans to the same change. */
  lemma CleanBulletCrlf(c: string)
    requires IsChangeEntry(c) && c[0] != '-'
    ensures IsBulletLine("- " + c + "\r") && CleanLine("- " + c + "\r") == c
  {
    BulletCrStripped(c);
    BulletRemoved(c);
    StripOfStripped(c);
    assert ("- " + c)[..1] == "-";
  }

  lemma CleanedBullets(changes: seq<string>)
    requires forall i :: 0 <= i < |changes| ==> RenderableChange(changes[i])
    ensures CleanedChanges(Bullets(changes)) == changes
  {
    var b := Bullets(changes);
    forall i | 0 <= i < |b| ensures IsBulletLine(b[i]) && CleanLine(b[i]) == changes[i] {
      CleanBullet(changes[i]);
    }
    ListCompAllKept(b, CleanLine, IsBulletLine, changes);
  }

  /** An empty changes section gives an empty list. */
  lemma EmptySectionReadsBack()
    ensures CleanedChanges(Split(Strip([]), '\n')) == []
  {
    assert Strip([]) == [];
    assert Split([], '\n') == [[]];
    assert !IsBulletLine([]);
    ListCompSkips([[]], CleanLine, IsBulletLine, 0);
  }

  /** A non-empty changes section, as it stands after `CHANGES_LIST:`,
      parses to the changes. */
  lemma SectionReadsBack(changes: seq<string>)
    requires changes != []
    requires forall i :: 0 <= i < |changes| ==> RenderableChange(changes[i])
    ensures CleanedChanges(Split(Strip("\n" + Join(Bullets(changes), '\n')), '\n')) == changes
  {
    var b := Bullets(changes);
    var x := Join(b, '\n');
    JoinFirstChar(b, '\n');
    JoinLastChar(b, '\n');
    assert b[|b| - 1] == "- " + changes[|changes| - 1];
    assert IsStripped(x);
    StripPadded("\n", x, "");
    assert "\n" + x == "\n" + x + "";
    forall i | 0 <= i < |b| ensures '\n' !in b[i] {
      assert b[i] == "- " + changes[i];
    }
    SplitJoin(b, '\n');
    CleanedBullets(changes);
  }

  // ---------------------------------------------------------------------
  // The whole reply reads back

  /** The lines between the markers of a rendered reply. */
  function Body(corrected: string, changes: seq<string>): (r: string)
  {
    Join([CorrectedTextLabel + " " + corrected, ChangesListLabel] + Bullets(changes), '\n')
  }

  /** What follows `CHANGES_LIST:` in a rendered reply. */
  function ChangesTail(changes: seq<string>): (r: string)
  {
    if changes == [] then [] else "\n" + Join(Bullets(changes), '\n')
  }

  /** The body is the corrected-text line, a newline, the changes label and
      the bullet lines. */
  lemma BodyForm(corrected: string, changes: seq<string>)
    ensures Body(corrected, changes) == BodyWith(corrected, ChangesTail(changes))
  {
    var line := CorrectedTextLabel + " " + corrected;
    var b := Bullets(changes);
    var rest := [ChangesListLabel] + b;
    if changes != [] {
      JoinAppend([ChangesListLabel], b, '\n');
    }
    assert Join(rest, '\n') == ChangesListLabel + ChangesTail(changes);
    assert [line, ChangesListLabel] + b == [line] + rest;
    JoinAppend([line], rest, '\n');
  }

  /** The body has no whitespace at either end: it starts with the 'C' of
      the label and ends with a change or with the ':' of the changes label. */
  lemma BodyStripped(corrected: string, changes: seq<string>)
    requires changes != [] ==> IsChangeEntry(changes[|changes| - 1])
    ensures IsStripped(Body(corrected, changes))
  {
    var parts := [CorrectedTextLabel + " " + corrected, ChangesListLabel] + Bullets(changes);
    JoinFirstChar(parts, '\n');
    JoinLastChar(parts, '\n');
  }

  /** The body with the changes section left as a parameter. */
  function BodyWith(corrected: string, tail: string): (r: string)
  {
    CorrectedTextLabel + " " + corrected + "\n" + ChangesListLabel + tail
  }

  /** Both labels are found in the body where they were written. */
  lemma LabelsInBody(corrected: string, tail: string)
    requires RenderableCorrected(corrected)
    ensures Find(BodyWith(corrected, tail), CorrectedTextLabel) == 0
    ensures Find(BodyWith(corrected, tail), ChangesListLabel) == |CorrectedTextLabel| + |corrected| + 2
  {
    MarkerFacts();
    var line := CorrectedTextLabel + " " + corrected;
    var body := BodyWith(corrected, tail);
    assert body == line + ['\n'] + ChangesListLabel + tail;
    assert body[..|CorrectedTextLabel|] == CorrectedTextLabel;
    FindIsFirst(body, CorrectedTextLabel, 0);
    NotContainsAcross(CorrectedTextLabel, ' ', corrected, ChangesListLabel);
    FindAfterSeparator(line, '\n', ChangesListLabel, tail);
  }

  /** The text between the two labels of the body. */
  lemma BodySlice(corrected: string, tail: string)
    ensures Slice(BodyWith(corrected, tail), |CorrectedTextLabel|, |CorrectedTextLabel| + |corrected| + 2)
      == " " + corrected + "\n"
  {
    var mid := " " + corrected + "\n";
    assert BodyWith(corrected, tail) == CorrectedTextLabel + mid + (ChangesListLabel + tail);
    MiddleOfConcat(CorrectedTextLabel, mid, ChangesListLabel + tail);
  }

  /** The corrected text is read back between the labels. */
  lemma CorrectedReadsBack(corrected: string, tail: string)
    requires RenderableCorrected(corrected)
    ensures ParseBlock(BodyWith(corrected, tail)).correctedText == corrected
  {
    LabelsInBody(corrected, tail);
    CorrectedAtFront(BodyWith(corrected, tail), |CorrectedTextLabel| + |corrected| + 2);
    BodySlice(corrected, tail);
    StripPadded(" ", corrected, "\n");
  }

  /** The changes are read back after the changes label. */
  lemma ChangesReadBack(corrected: string, changes: seq<string>)
    requires RenderableCorrected(corrected)
    requires forall i :: 0 <= i < |changes| ==> RenderableChange(changes[i])
    ensures ParseBlock(BodyWith(corrected, ChangesTail(changes))).changesList == changes
  {
    var tail := ChangesTail(changes);
    var body := BodyWith(corrected, tail);
    var l := |CorrectedTextLabel| + |corrected| + 2;
    LabelsInBody(corrected, tail);
    SuccessPath(body);
    assert body == (CorrectedTextLabel + " " + corrected + "\n" + ChangesListLabel) + tail;
    assert SliceFrom(body, l + |ChangesListLabel|) == tail;
    if changes == [] {
      EmptySectionReadsBack();
    } else {
      SectionReadsBack(changes);
    }
  }

  /** A rendered reply is the body between the two marker lines. */
  lemma ReplyForm(corrected: string, changes: seq<string>)
    ensures RenderReply(corrected, changes)
      == StartMarker + "\n" + Body(corrected, changes) + "\n" + EndMarker
  {
    var mid := [CorrectedTextLabel + " " + corrected, ChangesListLabel] + Bullets(changes);
    assert [StartMarker, CorrectedTextLabel + " " + corrected, ChangesListLabel]
      + Bullets(changes) + [EndMarker] == ([StartMarker] + mid) + [EndMarker];
    JoinAppend([StartMarker] + mid, [EndMarker], '\n');
    JoinAppend([StartMarker], mid, '\n');
  }

  /** No line before the end marker line holds the end marker. */
  lemma EndMarkerOnlyLast(corrected: string, changes: seq<string>)
    requires RenderableCorrected(corrected)
    requires forall i :: 0 <= i < |changes| ==> RenderableChange(changes[i])
    ensures !Contains(StartMarker + "\n" + Body(corrected, changes), EndMarker)
  {
    MarkerFacts();
    var mid := [CorrectedTextLabel + " " + corrected, ChangesListLabel] + Bullets(changes);
    forall i | 0 <= i < |mid| ensures !Contains(mid[i], EndMarker) {
      if i == 0 {
        NotContainsAcross(CorrectedTextLabel, ' ', corrected, EndMarker);
      } else if i > 1 {
        var c := changes[i - 2];
        assert mid[i] == "-" + [' '] + c;
        NotContainsAcross("-", ' ', c, EndMarker);
      }
    }
    JoinNotContains([StartMarker] + mid, '\n', EndMarker);
    JoinAppend([StartMarker], mid, '\n');
  }

  /** Round trip: parsing a reply written in the requested format gives
      back the corrected text and the changes that were written. */
  lemma RoundTrip(corrected: string, changes: seq<string>)
    requires RenderableCorrected(corrected)
    requires forall i :: 0 <= i < |changes| ==> RenderableChange(changes[i])
    ensures ParseFeedback(RenderReply(corrected, changes)) == Feedback(corrected, changes)
  {
    var body := Body(corrected, changes);
    if changes != [] {
      assert RenderableChange(changes[|changes| - 1]);
    }
    BodyStripped(corrected, changes);
    BodyForm(corrected, changes);
    CorrectedReadsBack(corrected, ChangesTail(changes));
    ChangesReadBack(corrected, changes);
    ReplyForm(corrected, changes);
    EndMarkerOnlyLast(corrected, changes);
    WrappedBlock(body);
  }

  /** A small reply in the requested format, line by line: one corrected
      sentence and one change. */
  function ExampleReply(): (r: string)
  {
    StartMarker + "\n" + CorrectedTextLabel + " " + "I am happy." + "\n"
      + ChangesListLabel + "\n- " + "Fixed tense." + "\n" + EndMarker
  }

  /** The changes section of a single change is one bullet line. */
  lemma OneChangeTail(c: string)
    ensures ChangesTail([c]) == "\n- " + c
  {
    assert Bullets([c]) == ["- " + c];
  }

  /** A reply with a single change, line by line. */
  lemma OneChangeReply(t: string, c: string)
    ensures RenderReply(t, [c]) == StartMarker + "\n" + CorrectedTextLabel + " " + t + "\n"
      + ChangesListLabel + "\n- " + c + "\n" + EndMarker
  {
    ReplyForm(t, [c]);
    BodyForm(t, [c]);
    OneChangeTail(c);
  }

  /** The sentence and the change of that reply can be carried by the format. */
  lemma ExampleRenderable()
    ensures RenderableCorrected("I am happy.") && RenderableChange("Fixed tense.")
  {
    ShortNotContains("I am happy.", ChangesListLabel);
    ShortNotContains("I am happy.", EndMarker);
    ShortNotContains("Fixed tense.", EndMarker);
  }

  /** That reply parses to its corrected sentence and its one change. */
  lemma ExampleReadsBack()
    ensures ParseFeedback(ExampleReply()) == Feedback("I am happy.", ["Fixed tense."])
  {
    ExampleRenderable();
    RoundTrip("I am happy.", ["Fixed tense."]);
    OneChangeReply("I am happy.", "Fixed tense.");
  }
}

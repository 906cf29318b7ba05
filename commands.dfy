/** The note-changing commands of note.py on the note's text: `log`
    (`cmd_log`, note.py:124-191) and `shot` (`cmd_shot`, note.py:193-232),
    with the file read through `readlines` and written back with
    `writelines`. The content, the keyboard answers (`None` at end of
    input) and the clock readings are parameters. */
module Commands {
  import opened Options
  import opened PyStr
  import opened PyInt
  import opened HeaderIndex
  import opened SectionInserter
  import opened Template
  import opened LogFormat
  import opened Menu

  /** `note log` once the menu's header list is known. The answer to the
      caption prompt is `None` at end of input: the `EOFError` it raises is
      not caught, so the program ends before the write. The result is
      `None` when the note is left alone (blank content, or that end of
      input), else the new note text. */
  function LogWithMenu(menu: seq<string>, note: string, content: string, choice: Option<string>,
                       newName: Option<string>, caption: Option<string>, time: string): (r: Option<string>)
    ensures r.None? <==> Strip(content) == [] || caption.None?
  {
    if Strip(content) == [] || caption.None? then None
    else
      var section := ResolveChoice(choice, menu, newName);
      Some(Concat(Inserted(ReadLines(note), section, FormatBlock(Strip(caption.value), content, time))))
  }

  /** `note log` as written: the menu lists the header texts `get_headers`
      records. */
  function Log(note: string, content: string, choice: Option<string>, newName: Option<string>,
               caption: Option<string>, time: string): (r: Option<string>)
    ensures r.None? <==> Strip(content) == [] || caption.None?
  {
    LogWithMenu(Headers(ReadLines(note)), note, content, choice, newName, caption, time)
  }

  /** `note log` with the corrected header list, whose every name the
      inserter finds again. */
  function FixedLog(note: string, content: string, choice: Option<string>, newName: Option<string>,
                    caption: Option<string>, time: string): (r: Option<string>)
    ensures r.None? <==> Strip(content) == [] || caption.None?
  {
    LogWithMenu(FixedHeaders(ReadLines(note)), note, content, choice, newName, caption, time)
  }

  /** Piped into `note log`, the content leaves standard input at its end,
      so the menu and caption prompts both meet end of input: the menu's
      `EOFError` is caught, the caption's is not, and the note is never
      written, whatever the content. */
  lemma PipedLogWritesNothing(note: string, content: string, newName: Option<string>, time: string)
    ensures Log(note, content, None, newName, None, time).None?
    ensures FixedLog(note, content, None, newName, None, time).None?
  {
  }

  /** `note log` reading end of input at the caption prompt as no caption,
      as end of input at the menu prompt is already read as `DUMP`. */
  function LogDefaultCaption(note: string, content: string, choice: Option<string>,
                             newName: Option<string>, caption: Option<string>, time: string): (r: Option<string>)
    ensures r.None? <==> Strip(content) == []
  {
    Log(note, content, choice, newName, Some(caption.GetOr("")), time)
  }

  /** With that reading, piped content is logged: it goes into `DUMP` as a
      `Log Entry` block. */
  lemma PipedLogGoesToDump(note: string, content: string, newName: Option<string>, time: string)
    requires Strip(content) != []
    ensures LogDefaultCaption(note, content, None, newName, None, time)
         == Some(Concat(Inserted(ReadLines(note), DefaultSection, FormatBlock("", content, time))))
  {
    LogInto(Headers(ReadLines(note)), note, content, None, newName, "", time, DefaultSection);
  }

  /** The screenshot file name for the workspace and the `%Y%m%d_%H%M%S` stamp. */
  function ShotFileName(name: string, stamp: string): string {
    name + "_" + stamp + ".png"
  }

  /** The text `note shot` puts into the note for the saved image. */
  function ShotPayload(caption: string, fileName: string): string {
    "\n**Screenshot:** " + caption + "\n" + "![[" + fileName + "]]" + "\n"
  }

  /** `note shot` once the image is saved: the link goes into `DUMP`. */
  function Shot(note: string, name: string, stamp: string, caption: string): string {
    Concat(Inserted(ReadLines(note), DefaultSection, ShotPayload(caption, ShotFileName(name, stamp))))
  }

  /** The header text recorded by `get_headers` for a line carrying a second
      marker loses that marker too, so the inserter does not find the
      section it was chosen from and appends a second one. */
  lemma InnerMarkerHeaderIsLost(content: string)
    ensures Headers(["## A ## B\n"]) == ["A B"]
    ensures Inserted(["## A ## B\n"], "A B", content)
         == ["## A ## B\n", NewHeaderLine("A B"), Payload(content)]
  {
    var l := "## A ## B\n";
    InnerMarkerLine();
    assert [l][..0] == [];
    assert Headers([l]) == Headers([]) + [HeaderText(l)];
    assert !IsTargetLine(l, "A B") by {
      assert |Strip(l)| != |Marker + "A B"|;
    }
    InsertIntoMissingSection([l], "A B", content);
  }

  /** The line `## A ## B` is a header line whose recorded text is `A B`. */
  lemma InnerMarkerLine()
    ensures Strip("## A ## B\n") == "## A ## B"
    ensures IsHeaderLine("## A ## B\n") && HeaderText("## A ## B\n") == "A B"
  {
    StripLine("## A ## B");
    assert "## A ## B"[..3] == Marker;
    InnerMarkerRemoved();
  }

  lemma InnerMarkerRemoved()
    ensures RemoveAll("## A ## B", Marker) == "A B"
  {
    assert "## A ## B"[..3] == Marker && "## A ## B"[3..] == "A ## B";
    assert RemoveAll("## A ## B", Marker) == RemoveAll("A ## B", Marker);
    assert "A ## B"[..3] != Marker && "A ## B"[1..] == " ## B";
    assert " ## B"[..3] != Marker && " ## B"[1..] == "## B";
    assert "## B"[..3] == Marker && "## B"[3..] == "B";
  }

  /** A name that fits on a header line: one line, no whitespace at its ends. */
  predicate HeaderName(h: string) {
    h != [] && !IsSpace(h[0]) && !IsSpace(h[|h| - 1]) && OneLine(h)
  }

  /** A payload `## x` inserted into the only section `h` of a note: once
      the file is read again the payload is a section start of its own,
      and a second entry `y` into `h` lands in front of it. */
  lemma MarkerContentSplitsSection(h: string, x: string, y: string)
    requires HeaderName(h) && OneLine(x)
    ensures var again := [Marker + h + "\n", "\n", Marker + x + "\n"];
      && ReadLines(Concat(Inserted([Marker + h + "\n"], h, Marker + x))) == again
      && Inserted(again, h, y) == [Marker + h + "\n", "\n", Payload(y), Marker + x + "\n"]
  {
    MarkerContentReadBack(h, x);
    MarkerLineEndsSection(h, x, y);
  }

  lemma MarkerContentReadBack(h: string, x: string)
    requires HeaderName(h) && OneLine(x)
    ensures ReadLines(Concat(Inserted([Marker + h + "\n"], h, Marker + x)))
         == [Marker + h + "\n", "\n", Marker + x + "\n"]
  {
    var lines := [Marker + h + "\n"];
    OneSectionNote(h);
    ReadBackInserted(lines, h, Marker + x);
    assert lines[..1] == lines && lines[1..] == [];
    PayloadLines(x);
  }

  /** A note made of the one header line of `h`: the section is found on
      its first line and ends at the end of the note. */
  lemma OneSectionNote(h: string)
    requires HeaderName(h)
    ensures var lines := [Marker + h + "\n"];
      WellFormedLines(lines) && TargetIndex(lines, h) == 0 && InsertionIndex(lines, h) == 1
  {
    var lines := [Marker + h + "\n"];
    StripLine(Marker + h);
    FirstTargetIs(lines, h, 0, 0);
    NextSectionIs(lines, 1, 1);
    HeaderLineIsLine(h);
  }

  /** The payload `\n## x\n` reads back as a blank line and the line `## x`. */
  lemma PayloadLines(x: string)
    requires OneLine(x)
    ensures ReadLines(Payload(Marker + x)) == ["\n", Marker + x + "\n"]
  {
    var b := Marker + x + "\n";
    HeaderLineIsLine(x);
    assert IsLineOver("\n", {'\n'});
    assert [b][1..] == [] && Concat([b]) == b;
    assert ["\n", b][1..] == [b];
    assert Concat(["\n", b]) == Payload(Marker + x);
    ReadLinesOfLines(["\n", b]);
  }

  lemma MarkerLineEndsSection(h: string, x: string, y: string)
    requires HeaderName(h)
    ensures var again := [Marker + h + "\n", "\n", Marker + x + "\n"];
      Inserted(again, h, y) == [Marker + h + "\n", "\n", Payload(y), Marker + x + "\n"]
  {
    var lines := [Marker + h + "\n", "\n", Marker + x + "\n"];
    StripLine(Marker + h);
    FirstTargetIs(lines, h, 0, 0);
    assert lines[2][..3] == Marker;
    NextSectionIs(lines, 1, 2);
    InsertedAt(lines, h, y, lines, 2);
  }

  /** ... and `get_headers` then lists the logged line as a section. */
  lemma MarkerContentIsListed(h: string, x: string)
    requires h != [] && !IsSpace(h[|h| - 1]) && !Contains(h, Marker)
    requires x != [] && !IsSpace(x[|x| - 1]) && !Contains(x, Marker)
    ensures Headers([Marker + h + "\n", "\n", Marker + x + "\n"]) == [h, x]
  {
    var a := Marker + h + "\n";
    var c := Marker + x + "\n";
    HeaderLineText(h);
    HeaderLineText(x);
    assert Strip("\n") == [];
    assert ["\n"][..0] == [];
    assert Headers(["\n"]) == [];
    assert [a, "\n", c] == [a, "\n"] + [c];
    assert [a, "\n"] == [a] + ["\n"];
    HeadersAppend([a, "\n"], [c]);
    HeadersAppend([a], ["\n"]);
  }

  /** Every header of the corrected list is found by the inserter: the
      entry goes into that existing section and the note grows by one
      element. */
  lemma FixedHeaderIsFound(lines: seq<string>, m: nat, content: string)
    requires m < |FixedHeaders(lines)|
    ensures TargetIndex(lines, FixedHeaders(lines)[m]) <= HeaderLineIndices(lines)[m] < |lines|
    ensures WithSection(lines, FixedHeaders(lines)[m]) == lines
    ensures |Inserted(lines, FixedHeaders(lines)[m], content)| == |lines| + 1
  {
    var h := FixedHeaders(lines)[m];
    var i := HeaderLineIndices(lines)[m];
    assert IsTargetLine(lines[i], h);
    var t := FirstTargetFrom(lines, h, 0);
    assert t <= i;
    InsertIntoExistingSection(lines, h, content, t);
  }

  /** With the corrected list, choosing a listed section by its number
      logs into that section, which exists: no section is created and the
      note grows by one element, the formatted block. */
  lemma FixedLogIntoListedSection(note: string, content: string, choice: string, m: nat,
                                  newName: Option<string>, caption: string, time: string)
    requires Strip(content) != []
    requires m < |FixedHeaders(ReadLines(note))|
    requires ParseInt(Strip(choice)) == Some(m + 1)
    ensures var lines := ReadLines(note);
      var h := FixedHeaders(lines)[m];
      var block := FormatBlock(Strip(caption), content, time);
      && FixedLog(note, content, Some(choice), newName, Some(caption), time)
           == Some(Concat(Inserted(lines, h, block)))
      && WithSection(lines, h) == lines
      && |Inserted(lines, h, block)| == |lines| + 1
  {
    var lines := ReadLines(note);
    var h := FixedHeaders(lines)[m];
    ChooseListed(choice, FixedHeaders(lines), m + 1, newName);
    LogInto(FixedHeaders(lines), note, content, Some(choice), newName, caption, time, h);
    FixedHeaderIsFound(lines, m, FormatBlock(Strip(caption), content, time));
  }

  /** As written, the same holds when the chosen entry's own header line
      carries no second marker after its leading one, whatever the other
      header lines hold. */
  lemma LogIntoListedSection(note: string, content: string, choice: string, m: nat,
                             newName: Option<string>, caption: string, time: string)
    requires Strip(content) != []
    requires m < |Headers(ReadLines(note))|
    requires ParseInt(Strip(choice)) == Some(m + 1)
    requires var lines := ReadLines(note);
      var idx := HeaderLineIndices(lines);
      m < |idx| && !Contains(Strip(lines[idx[m]])[|Marker|..], Marker)
    ensures var lines := ReadLines(note);
      var h := Headers(lines)[m];
      var block := FormatBlock(Strip(caption), content, time);
      && Log(note, content, Some(choice), newName, Some(caption), time)
           == Some(Concat(Inserted(lines, h, block)))
      && WithSection(lines, h) == lines
      && |Inserted(lines, h, block)| == |lines| + 1
  {
    HeaderAgreesWithoutInnerMarker(ReadLines(note), m);
    FixedLogIntoListedSection(note, content, choice, m, newName, caption, time);
  }

  /** As written, logging into the first listed section of the note
      `## A ## B` creates a second section `A B`: the note grows by two
      elements. */
  lemma LogInnerMarkerCreatesSection(content: string, caption: string, time: string)
    requires Strip(content) != []
    ensures var block := FormatBlock(Strip(caption), content, time);
      Log("## A ## B\n", content, Some("1"), None, Some(caption), time)
        == Some(Concat(["## A ## B\n", NewHeaderLine("A B"), Payload(block)]))
  {
    var l := "## A ## B\n";
    var block := FormatBlock(Strip(caption), content, time);
    InnerMarkerNoteLines();
    InnerMarkerHeaderIsLost(block);
    FirstEntryChosen(["A B"]);
    LogInto(Headers([l]), l, content, Some("1"), None, caption, time, "A B");
  }

  /** As written, when another line strips to `## A B`, choosing entry `1`
      (the line `## A ## B`) logs into that other section instead: nothing
      is appended, and the entry lands at the end of the wrong section. */
  lemma InnerMarkerLogsElsewhere(content: string, caption: string, time: string)
    requires Strip(content) != []
    ensures Headers(["## A ## B\n", "## A B\n"]) == ["A B", "A B"]
    ensures var block := FormatBlock(Strip(caption), content, time);
      Log("## A ## B\n" + "## A B\n", content, Some("1"), None, Some(caption), time)
        == Some(Concat(["## A ## B\n", "## A B\n", Payload(block)]))
  {
    var lines := ["## A ## B\n", "## A B\n"];
    var block := FormatBlock(Strip(caption), content, time);
    TwoHeaderNote();
    InsertIntoOtherSection(block);
    FirstEntryChosen(["A B", "A B"]);
    LogInto(Headers(lines), "## A ## B\n" + "## A B\n", content, Some("1"), None, caption, time, "A B");
  }

  /** The note `## A ## B`, `## A B` reads back as its two lines, both
      listed as `A B`. */
  lemma TwoHeaderNote()
    ensures ReadLines("## A ## B\n" + "## A B\n") == ["## A ## B\n", "## A B\n"]
    ensures Headers(["## A ## B\n", "## A B\n"]) == ["A B", "A B"]
  {
    HeaderLineIsLine("A ## B");
    HeaderLineIsLine("A B");
    TwoLinesRead("## A ## B\n", "## A B\n");
    TwoHeaderNoteHeaders();
  }

  lemma TwoHeaderNoteHeaders()
    ensures Headers(["## A ## B\n", "## A B\n"]) == ["A B", "A B"]
  {
    var l0, l1 := "## A ## B\n", "## A B\n";
    InnerMarkerLine();
    assert [l0][..0] == [];
    assert Headers([l0]) == Headers([]) + [HeaderText(l0)] == ["A B"];
    MarkerNeedsHash("A B");
    HeaderLineText("A B");
    assert Marker + "A B" + "\n" == l1;
    assert [l0] + [l1] == [l0, l1];
    HeadersAppend([l0], [l1]);
  }

  /** Two well-formed lines written one after the other read back as those lines. */
  lemma TwoLinesRead(l0: string, l1: string)
    requires WellFormedLines([l0, l1])
    ensures ReadLines(l0 + l1) == [l0, l1]
  {
    assert [l0, l1][1..] == [l1] && [l1][1..] == [];
    assert Concat([l1]) == l1;
    ReadLinesOfLines([l0, l1]);
  }

  /** Inserting under `A B` into that note finds the second line. */
  lemma InsertIntoOtherSection(block: string)
    ensures Inserted(["## A ## B\n", "## A B\n"], "A B", block)
         == ["## A ## B\n", "## A B\n", Payload(block)]
  {
    var lines := ["## A ## B\n", "## A B\n"];
    InnerMarkerLine();
    assert !IsTargetLine(lines[0], "A B") by {
      assert |Strip(lines[0])| != |Marker + "A B"|;
    }
    StripLine(Marker + "A B");
    InsertIntoExistingSection(lines, "A B", block, 1);
    assert lines[..2] == lines && lines[2..] == [];
  }

  lemma InnerMarkerNoteLines()
    ensures ReadLines("## A ## B\n") == ["## A ## B\n"]
  {
    var l := "## A ## B\n";
    OneLineRead(l);
  }

  /** Typing `1` selects the first listed header. */
  lemma FirstEntryChosen(headers: seq<string>)
    requires headers != []
    ensures ResolveChoice(Some("1"), headers, None) == headers[0]
  {
    MenuNumber(1);
    ChooseListed("1", headers, 1, None);
  }

  /** A single well-formed line reads back as itself. */
  lemma OneLineRead(l: string)
    requires IsLineOver(l, {'\n'}) && '\r' !in l
    ensures ReadLines(l) == [l]
  {
    assert [l][1..] == [];
    assert Concat([l]) == l;
    ReadLinesOfLines([l]);
  }

  /** Non-blank content goes, as its formatted block, into the section the
      menu resolved. */
  lemma LogInto(menu: seq<string>, note: string, content: string, choice: Option<string>,
                newName: Option<string>, caption: string, time: string, section: string)
    requires Strip(content) != []
    requires ResolveChoice(choice, menu, newName) == section
    ensures LogWithMenu(menu, note, content, choice, newName, Some(caption), time)
         == Some(Concat(Inserted(ReadLines(note), section, FormatBlock(Strip(caption), content, time))))
  {
  }

  /** A placeholder section whose header appears nowhere before it takes
      the content at its end. */
  lemma InsertIntoTrailingSection(lines: seq<string>, a: seq<string>, p: Placeholder, content: string)
    requires ValidPlaceholder(p) && NoTarget(a, p.title)
    requires lines == a + NoteSection(p.title, p.note)
    ensures Inserted(lines, p.title, content) == lines + [Payload(content)]
  {
    PlaceholderHeaderLine(p);
    assert lines[|a| + 1] == Line(Marker + p.title);
    FirstTargetIs(lines, p.title, 0, |a| + 1);
    assert lines[|a| + 2] == Line(p.note) && lines[|a| + 2][0] == '>';
    NextSectionIs(lines, |a| + 2, |lines|);
    assert lines[..|lines|] == lines && lines[|lines|..] == [];
  }

  /** On a fresh note, inserting into the last placeholder section puts the
      content at the very end of the note and moves nothing. */
  lemma InsertIntoLastSection(name: string, ip: string, os: string, ps: seq<Placeholder>,
                              p: Placeholder, content: string)
    requires forall i :: 0 <= i < |ps| ==> ValidPlaceholder(ps[i])
    requires ValidPlaceholder(p) && p.title != "Information" && p.title !in Titles(ps)
    ensures Inserted(TemplateWith(name, ip, os, ps + [p]), p.title, content)
         == TemplateWith(name, ip, os, ps + [p]) + [Payload(content)]
  {
    TemplateSnoc(name, ip, os, ps, p);
    TemplateNoTarget(name, ip, os, ps, p.title);
    InsertIntoTrailingSection(TemplateWith(name, ip, os, ps + [p]), TemplateWith(name, ip, os, ps), p, content);
  }

  /** The sections before `DUMP` and `DUMP` itself, as the template lists them. */
  lemma DumpIsLast()
    ensures Placeholders == Placeholders[..4] + [Placeholders[4]]
    ensures Placeholders[4].title == DefaultSection
    ensures DefaultSection !in Titles(Placeholders[..4])
  {
    assert Titles(Placeholders[..4]) == ["Enumeration", "Exploitation", "Privilege Escalation", "Loot"];
  }

  /** On a freshly created note, content for `DUMP` goes after every
      line of the template. */
  lemma DumpTakesEnd(name: string, ip: string, os: string, content: string)
    ensures Inserted(TemplateLines(name, ip, os), DefaultSection, content)
         == TemplateLines(name, ip, os) + [Payload(content)]
  {
    PlaceholdersValid();
    DumpIsLast();
    InsertIntoLastSection(name, ip, os, Placeholders[..4], Placeholders[4], content);
  }

  /** Concatenating lines followed by one more piece of text. */
  lemma ConcatSnoc(ls: seq<string>, x: string)
    ensures Concat(ls + [x]) == Concat(ls) + x
  {
    ConcatAppend(ls, [x]);
    assert [x][1..] == [];
  }

  /** On a freshly created note, `note shot` adds the image link at the very
      end of the file, the end of the `DUMP` section. */
  lemma ShotOnFreshNote(name: string, ip: string, os: string, stamp: string, caption: string)
    requires OneLine(name) && OneLine(ip) && OneLine(os)
    ensures Shot(Render(name, ip, os), name, stamp, caption)
         == Render(name, ip, os) + Payload(ShotPayload(caption, ShotFileName(name, stamp)))
  {
    var payload := ShotPayload(caption, ShotFileName(name, stamp));
    var lines := TemplateLines(name, ip, os);
    RenderReadsBack(name, ip, os);
    DumpTakesEnd(name, ip, os, payload);
    ConcatSnoc(lines, Payload(payload));
  }
}

/** The note template of note.py (`DEFAULT_TEMPLATE`, note.py:19-40) and
    its filling in `cmd_switch` (note.py:114-118). */
module Template {
  import opened Options
  import opened PyStr
  import opened HeaderIndex
  import opened SectionInserter
  import opened Seqs

  /** One line of the template: its text and the line feed ending it. */
  function Line(text: string): string {
    text + "\n"
  }

  /** A section of the template: a blank line, the header line, the body. */
  function Section(title: string, body: seq<string>): seq<string> {
    [Line(""), Line(Marker + title)] + body
  }

  /** A section whose body is a single `> ...` placeholder line. */
  function NoteSection(title: string, note: string): seq<string> {
    Section(title, [Line(note)])
  }

  /** The `Information` section with the target's address and system. */
  function InformationSection(ip: string, os: string): seq<string> {
    Section("Information", [Line("- **IP:** " + ip), Line("- **OS:** " + os), Line("- **Difficulty:** Unknown")])
  }

  /** A section of the template holding only a `> ...` placeholder line. */
  datatype Placeholder = Placeholder(title: string, note: string)

  /** The template's sections after `Information`, in order. */
  const Placeholders: seq<Placeholder> := [
    Placeholder("Enumeration", "> Initial scans and service discovery."),
    Placeholder("Exploitation", "> Foothold and reverse shells."),
    Placeholder("Privilege Escalation", "> Path to root/system."),
    Placeholder("Loot", "> Flags and credentials."),
    Placeholder("DUMP", "> Raw output dump.")
  ]

  function PlaceholderSections(ps: seq<Placeholder>): seq<string> {
    if ps == [] then [] else NoteSection(ps[0].title, ps[0].note) + PlaceholderSections(ps[1..])
  }

  function Titles(ps: seq<Placeholder>): (ts: seq<string>)
    ensures |ts| == |ps| && forall i :: 0 <= i < |ps| ==> ts[i] == ps[i].title
  {
    if ps == [] then [] else [ps[0].title] + Titles(ps[1..])
  }

  /** The title line and the `Information` section, followed by `ps`. */
  function TemplateWith(name: string, ip: string, os: string, ps: seq<Placeholder>): seq<string> {
    [Line("# " + name)] + InformationSection(ip, os) + PlaceholderSections(ps)
  }

  /** `DEFAULT_TEMPLATE.format(name=..., ip=..., os_type=...)`, line by line. */
  function TemplateLines(name: string, ip: string, os: string): seq<string> {
    TemplateWith(name, ip, os, Placeholders)
  }

  /** The rendered template text. */
  function Render(name: string, ip: string, os: string): string {
    Concat(TemplateLines(name, ip, os))
  }

  const DefaultIp: string := "X.X.X.X"
  const DefaultOs: string := "Unknown"

  /** Python truthiness of an optional argument: `None` and `""` both fall
      back to the default. */
  function OrDefault(arg: Option<string>, default: string): string {
    if arg.Some? && arg.value != [] then arg.value else default
  }

  /** The note `cmd_switch` writes for a new workspace. */
  function NewNote(name: string, ip: Option<string>, os: Option<string>): string {
    Render(name, OrDefault(ip, DefaultIp), OrDefault(os, DefaultOs))
  }

  /** The six sections of every new note, in order. */
  const SectionNames: seq<string> :=
    ["Information", "Enumeration", "Exploitation", "Privilege Escalation", "Loot", "DUMP"]

  /** Text that stays on one line when the note is read back. */
  predicate OneLine(s: string) {
    '\n' !in s && '\r' !in s
  }

  /** A line whose first character is neither whitespace nor `#` is no header. */
  lemma NotHeaderByFirstChar(l: string)
    requires l != [] && !IsSpace(l[0]) && l[0] != '#'
    ensures !IsHeaderLine(l)
  {
    StripKeepsPrefix(l);
  }

  /** The title line `# name` is no header: its second character is a space. */
  lemma TitleIsNoHeader(name: string)
    ensures !IsHeaderLine(Line("# " + name))
  {
    var l := Line("# " + name);
    StripKeepsPrefix(l);
    var s := Strip(l);
    assert |s| >= 2 ==> s[1] == l[1] == ' ';
  }

  lemma MarkerNeedsHash(s: string)
    requires '#' !in s
    ensures !Contains(s, Marker)
  {
    forall i | 0 <= i <= |s| ensures !OccursAt(s, Marker, i) {
      if i + |Marker| <= |s| {
        assert s[i..i + |Marker|][0] == s[i];
      }
    }
  }

  /** A body line of the template: a list item or a quote. */
  predicate PlainLine(l: string) {
    l != [] && (l[0] == '-' || l[0] == '>')
  }

  lemma PlainLinesNoHeader(body: seq<string>)
    requires forall i :: 0 <= i < |body| ==> PlainLine(body[i])
    ensures forall i :: 0 <= i < |body| ==> !IsHeaderLine(body[i])
  {
    forall i | 0 <= i < |body| ensures !IsHeaderLine(body[i]) {
      NotHeaderByFirstChar(body[i]);
    }
  }

  lemma SectionHeaders(title: string, body: seq<string>)
    requires title != [] && !IsSpace(title[|title| - 1]) && '#' !in title
    requires forall i :: 0 <= i < |body| ==> PlainLine(body[i])
    ensures Headers(Section(title, body)) == [title]
  {
    PlainLinesNoHeader(body);
    MarkerNeedsHash(title);
    HeaderLineText(title);
    assert Strip(Line("")) == [];
    assert Headers([Line("")]) == [];
    HeadersAppend([Line("")], [Line(Marker + title)]);
    assert [Line(""), Line(Marker + title)] == [Line("")] + [Line(Marker + title)];
    HeadersAppend([Line(""), Line(Marker + title)], body);
    HeadersEmptyIff(body);
  }

  lemma LineIsLine(text: string)
    requires OneLine(text)
    ensures IsLineOver(Line(text), {'\n'}) && '\r' !in Line(text)
  {
    assert Line(text)[..|Line(text)| - 1] == text;
  }

  lemma WellFormedAppend(a: seq<string>, b: seq<string>)
    requires WellFormedLines(a) && WellFormedLines(b)
    ensures WellFormedLines(a + b)
  {
  }

  lemma SectionWellFormed(title: string, body: seq<string>)
    requires OneLine(title) && WellFormedLines(body)
    ensures WellFormedLines(Section(title, body))
  {
    LineIsLine("");
    assert OneLine(Marker + title);
    LineIsLine(Marker + title);
  }

  /** The title line is a well-formed line and no header. */
  lemma TitleWellFormed(name: string)
    requires OneLine(name)
    ensures WellFormedLines([Line("# " + name)])
  {
    assert OneLine("# " + name);
    LineIsLine("# " + name);
  }

  lemma TitleHeaders(name: string)
    ensures Headers([Line("# " + name)]) == []
  {
    TitleIsNoHeader(name);
    assert Headers([Line("# " + name)]) == Headers([]) + [];
  }

  /** The `Information` section is made of well-formed lines. */
  lemma InformationWellFormed(ip: string, os: string)
    requires OneLine(ip) && OneLine(os)
    ensures WellFormedLines(InformationSection(ip, os))
  {
    assert OneLine("- **IP:** " + ip) && OneLine("- **OS:** " + os);
    LineIsLine("- **IP:** " + ip);
    LineIsLine("- **OS:** " + os);
    LineIsLine("- **Difficulty:** Unknown");
    SectionWellFormed("Information", [Line("- **IP:** " + ip), Line("- **OS:** " + os), Line("- **Difficulty:** Unknown")]);
  }

  /** The `Information` section has exactly one header, its own. */
  lemma InformationHeaders(ip: string, os: string)
    ensures Headers(InformationSection(ip, os)) == ["Information"]
  {
    var body := [Line("- **IP:** " + ip), Line("- **OS:** " + os), Line("- **Difficulty:** Unknown")];
    assert PlainLine(body[0]) && PlainLine(body[1]) && PlainLine(body[2]);
    SectionHeaders("Information", body);
  }

  /** The title line and the `Information` section list `Information` only. */
  lemma HeadHeaders(name: string, ip: string, os: string)
    ensures Headers([Line("# " + name)] + InformationSection(ip, os)) == ["Information"]
  {
    TitleHeaders(name);
    InformationHeaders(ip, os);
    HeadersAppend([Line("# " + name)], InformationSection(ip, os));
  }

  /** A placeholder title and note that read back as one header and one
      ordinary line. */
  predicate ValidPlaceholder(p: Placeholder) {
    OneLine(p.title) && p.title != [] && !IsSpace(p.title[|p.title| - 1]) && '#' !in p.title
    && OneLine(p.note) && p.note != [] && p.note[0] == '>'
  }

  /** A placeholder section: well-formed lines, and its title as its one header. */
  lemma NotePart(p: Placeholder)
    requires ValidPlaceholder(p)
    ensures WellFormedLines(NoteSection(p.title, p.note))
    ensures Headers(NoteSection(p.title, p.note)) == [p.title]
  {
    LineIsLine(p.note);
    SectionWellFormed(p.title, [Line(p.note)]);
    SectionHeaders(p.title, [Line(p.note)]);
  }

  lemma {:induction false} PlaceholderSectionsFacts(ps: seq<Placeholder>)
    requires forall i :: 0 <= i < |ps| ==> ValidPlaceholder(ps[i])
    ensures WellFormedLines(PlaceholderSections(ps))
    ensures Headers(PlaceholderSections(ps)) == Titles(ps)
  {
    if ps != [] {
      NotePart(ps[0]);
      PlaceholderSectionsFacts(ps[1..]);
      WellFormedAppend(NoteSection(ps[0].title, ps[0].note), PlaceholderSections(ps[1..]));
      HeadersAppend(NoteSection(ps[0].title, ps[0].note), PlaceholderSections(ps[1..]));
    }
  }

  /** Whatever the placeholder sections, the filled-in template is made of
      well-formed lines. */
  lemma TemplateWithWellFormed(name: string, ip: string, os: string, ps: seq<Placeholder>)
    requires OneLine(name) && OneLine(ip) && OneLine(os)
    requires forall i :: 0 <= i < |ps| ==> ValidPlaceholder(ps[i])
    ensures WellFormedLines(TemplateWith(name, ip, os, ps))
  {
    TitleWellFormed(name);
    InformationWellFormed(ip, os);
    PlaceholderSectionsFacts(ps);
    WellFormedAppend([Line("# " + name)], InformationSection(ip, os));
    WellFormedAppend([Line("# " + name)] + InformationSection(ip, os), PlaceholderSections(ps));
  }

  /** Whatever the placeholder sections, the filled-in template lists
      `Information` and then their titles, whatever the title line says. */
  lemma TemplateWithHeaders(name: string, ip: string, os: string, ps: seq<Placeholder>)
    requires forall i :: 0 <= i < |ps| ==> ValidPlaceholder(ps[i])
    ensures Headers(TemplateWith(name, ip, os, ps)) == ["Information"] + Titles(ps)
  {
    HeadHeaders(name, ip, os);
    PlaceholderSectionsFacts(ps);
    HeadersAppend([Line("# " + name)] + InformationSection(ip, os), PlaceholderSections(ps));
  }

  /** `OneLine`, checked character by character (cheaper on literal text). */
  lemma OneLineByIndex(s: string)
    requires forall i :: 0 <= i < |s| ==> s[i] != '\n' && s[i] != '\r'
    ensures OneLine(s)
  {
  }

  lemma EnumerationValid()
    ensures ValidPlaceholder(Placeholders[0])
  {
    OneLineByIndex(Placeholders[0].title);
    OneLineByIndex(Placeholders[0].note);
  }

  lemma ExploitationValid()
    ensures ValidPlaceholder(Placeholders[1])
  {
    OneLineByIndex(Placeholders[1].title);
    OneLineByIndex(Placeholders[1].note);
  }

  lemma PrivilegeEscalationValid()
    ensures ValidPlaceholder(Placeholders[2])
  {
    OneLineByIndex(Placeholders[2].title);
    OneLineByIndex(Placeholders[2].note);
  }

  lemma LootValid()
    ensures ValidPlaceholder(Placeholders[3])
  {
    OneLineByIndex(Placeholders[3].title);
    OneLineByIndex(Placeholders[3].note);
  }

  lemma DumpValid()
    ensures ValidPlaceholder(Placeholders[4])
  {
    OneLineByIndex(Placeholders[4].title);
    OneLineByIndex(Placeholders[4].note);
  }

  lemma PlaceholdersValid()
    ensures forall i :: 0 <= i < |Placeholders| ==> ValidPlaceholder(Placeholders[i])
  {
    EnumerationValid();
    ExploitationValid();
    PrivilegeEscalationValid();
    LootValid();
    DumpValid();
  }

  lemma TitlesOfPlaceholders()
    ensures ["Information"] + Titles(Placeholders) == SectionNames
  {
  }

  /** A freshly rendered note reads back as the template's lines. */
  lemma RenderReadsBack(name: string, ip: string, os: string)
    requires OneLine(name) && OneLine(ip) && OneLine(os)
    ensures ReadLines(Render(name, ip, os)) == TemplateLines(name, ip, os)
  {
    PlaceholdersValid();
    TemplateWithWellFormed(name, ip, os, Placeholders);
    ReadLinesOfLines(TemplateLines(name, ip, os));
  }

  /** Reading back a freshly rendered note and listing its headers gives
      exactly the six template sections, in order, whatever single-line
      values were filled in. */
  lemma RenderedHeaders(name: string, ip: string, os: string)
    requires OneLine(name) && OneLine(ip) && OneLine(os)
    ensures ReadLines(Render(name, ip, os)) == TemplateLines(name, ip, os)
    ensures Headers(ReadLines(Render(name, ip, os))) == SectionNames
  {
    RenderReadsBack(name, ip, os);
    PlaceholdersValid();
    TemplateWithHeaders(name, ip, os, Placeholders);
    TitlesOfPlaceholders();
  }

  /** The same for the note `cmd_switch` creates, defaults included. */
  lemma NewNoteHeaders(name: string, ip: Option<string>, os: Option<string>)
    requires OneLine(name)
    requires ip.Some? ==> OneLine(ip.value)
    requires os.Some? ==> OneLine(os.value)
    ensures Headers(ReadLines(NewNote(name, ip, os))) == SectionNames
  {
    RenderedHeaders(name, OrDefault(ip, DefaultIp), OrDefault(os, DefaultOs));
  }

  /** The address and system lines of the note `cmd_switch` creates: a
      missing or empty argument shows as its default, any other as given. */
  lemma NewNoteFields(name: string, ip: Option<string>, os: Option<string>)
    requires OneLine(name)
    requires ip.Some? ==> OneLine(ip.value)
    requires os.Some? ==> OneLine(os.value)
    ensures var lines := ReadLines(NewNote(name, ip, os));
      && |lines| > 4
      && (ip.None? || ip.value == [] ==> lines[3] == "- **IP:** X.X.X.X\n")
      && (ip.Some? && ip.value != [] ==> lines[3] == "- **IP:** " + ip.value + "\n")
      && (os.None? || os.value == [] ==> lines[4] == "- **OS:** Unknown\n")
      && (os.Some? && os.value != [] ==> lines[4] == "- **OS:** " + os.value + "\n")
  {
    var i, o := OrDefault(ip, DefaultIp), OrDefault(os, DefaultOs);
    RenderReadsBack(name, i, o);
    var lines := TemplateLines(name, i, o);
    assert lines[3] == Line("- **IP:** " + i);
    assert lines[4] == Line("- **OS:** " + o);
  }

  /** The header line written for a placeholder strips to the marker and
      its title. */
  lemma PlaceholderHeaderLine(p: Placeholder)
    requires ValidPlaceholder(p)
    ensures Strip(Line(Marker + p.title)) == Marker + p.title
  {
    StripLine(Marker + p.title);
  }

  /** A template section holds no header line of another section. */
  lemma SectionNoTarget(title: string, body: seq<string>, header: string)
    requires title != [] && !IsSpace(title[|title| - 1]) && title != header
    requires forall i :: 0 <= i < |body| ==> PlainLine(body[i])
    ensures NoTarget(Section(title, body), header)
  {
    var s := Section(title, body);
    assert Strip(Line("")) == [];
    StripLine(Marker + title);
    MarkerLinesDiffer(title, header);
    PlainLinesNoHeader(body);
    forall j | 2 <= j < |s| ensures !IsTargetLine(s[j], header) {
      assert s[j] == body[j - 2];
      if IsTargetLine(s[j], header) {
        TargetIsHeaderLine(s[j], header);
      }
    }
  }

  /** A placeholder section holds no header line of another section. */
  lemma NoteSectionNoTarget(p: Placeholder, header: string)
    requires ValidPlaceholder(p) && p.title != header
    ensures NoTarget(NoteSection(p.title, p.note), header)
  {
    SectionNoTarget(p.title, [Line(p.note)], header);
  }

  lemma {:induction false} PlaceholderSectionsNoTarget(ps: seq<Placeholder>, header: string)
    requires forall i :: 0 <= i < |ps| ==> ValidPlaceholder(ps[i])
    requires header !in Titles(ps)
    ensures NoTarget(PlaceholderSections(ps), header)
  {
    if ps != [] {
      assert ps[0].title == Titles(ps)[0];
      assert Titles(ps[1..]) == Titles(ps)[1..];
      NoteSectionNoTarget(ps[0], header);
      PlaceholderSectionsNoTarget(ps[1..], header);
      NoTargetAppend(NoteSection(ps[0].title, ps[0].note), PlaceholderSections(ps[1..]), header);
    }
  }

  /** The title line and the `Information` section hold no header line of
      any other section. */
  lemma HeadNoTarget(name: string, ip: string, os: string, header: string)
    requires header != "Information"
    ensures NoTarget([Line("# " + name)] + InformationSection(ip, os), header)
  {
    TitleIsNoHeader(name);
    if IsTargetLine(Line("# " + name), header) {
      TargetIsHeaderLine(Line("# " + name), header);
    }
    var body := [Line("- **IP:** " + ip), Line("- **OS:** " + os), Line("- **Difficulty:** Unknown")];
    assert PlainLine(body[0]) && PlainLine(body[1]) && PlainLine(body[2]);
    SectionNoTarget("Information", body, header);
    NoTargetAppend([Line("# " + name)], InformationSection(ip, os), header);
  }

  lemma {:induction false} PlaceholderSectionsSnoc(ps: seq<Placeholder>, p: Placeholder)
    ensures PlaceholderSections(ps + [p]) == PlaceholderSections(ps) + NoteSection(p.title, p.note)
  {
    if ps == [] {
      assert [p][1..] == [];
    } else {
      assert (ps + [p])[1..] == ps[1..] + [p];
      PlaceholderSectionsSnoc(ps[1..], p);
    }
  }

  /** The filled-in template holds no header line of a section it does
      not list. */
  lemma TemplateNoTarget(name: string, ip: string, os: string, ps: seq<Placeholder>, header: string)
    requires forall i :: 0 <= i < |ps| ==> ValidPlaceholder(ps[i])
    requires header != "Information" && header !in Titles(ps)
    ensures NoTarget(TemplateWith(name, ip, os, ps), header)
  {
    HeadNoTarget(name, ip, os, header);
    PlaceholderSectionsNoTarget(ps, header);
    NoTargetAppend([Line("# " + name)] + InformationSection(ip, os), PlaceholderSections(ps), header);
  }

  /** The filled-in template ends with its last placeholder section. */
  lemma TemplateSnoc(name: string, ip: string, os: string, ps: seq<Placeholder>, p: Placeholder)
    ensures TemplateWith(name, ip, os, ps + [p]) == TemplateWith(name, ip, os, ps) + NoteSection(p.title, p.note)
  {
    PlaceholderSectionsSnoc(ps, p);
    AppendAssoc([Line("# " + name)] + InformationSection(ip, os), PlaceholderSections(ps), NoteSection(p.title, p.note));
  }
}

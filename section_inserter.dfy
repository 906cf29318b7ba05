/** The section inserter of note.py (`insert_content`, note.py:68-98),
    over the note's lines as `readlines` returns them. */
module SectionInserter {
  import opened PyStr
  import opened HeaderIndex

  /** The line a section `header` is searched for with, once stripped. */
  function HeaderMarker(header: string): string {
    Marker + header
  }

  /** The element appended when the section does not exist. */
  function NewHeaderLine(header: string): string {
    "\n" + Marker + header + "\n"
  }

  /** The element inserted for `content`: framed by blank lines. */
  function Payload(content: string): string {
    "\n" + content + "\n"
  }

  /** The target search compares the STRIPPED line with the marker line. */
  predicate IsTargetLine(line: string, header: string) {
    Strip(line) == HeaderMarker(header)
  }

  /** The end-of-section scan looks at the RAW line, unstripped. */
  predicate StartsSection(line: string) {
    StartsWith(line, Marker)
  }

  /** The first target line at or after `i`, or `|lines|` when there is none. */
  function FirstTargetFrom(lines: seq<string>, header: string, i: nat): (t: nat)
    requires i <= |lines|
    ensures i <= t <= |lines|
    ensures forall j :: i <= j < t ==> !IsTargetLine(lines[j], header)
    ensures t < |lines| ==> IsTargetLine(lines[t], header)
    decreases |lines| - i
  {
    if i == |lines| || IsTargetLine(lines[i], header) then i
    else FirstTargetFrom(lines, header, i + 1)
  }

  /** The first raw section start at or after `i`, or `|lines|`. */
  function NextSectionFrom(lines: seq<string>, i: nat): (k: nat)
    requires i <= |lines|
    ensures i <= k <= |lines|
    ensures forall j :: i <= j < k ==> !StartsSection(lines[j])
    ensures k < |lines| ==> StartsSection(lines[k])
    decreases |lines| - i
  {
    if i == |lines| || StartsSection(lines[i]) then i
    else NextSectionFrom(lines, i + 1)
  }

  /** The lines with the target section guaranteed to exist: unchanged when
      a target line is present, else with the new header appended. */
  function WithSection(lines: seq<string>, header: string): seq<string> {
    if FirstTargetFrom(lines, header, 0) < |lines| then lines
    else lines + [NewHeaderLine(header)]
  }

  /** Index of the section's header line in `WithSection(lines, header)`. */
  function TargetIndex(lines: seq<string>, header: string): nat {
    FirstTargetFrom(lines, header, 0)
  }

  /** Where the payload goes in `WithSection(lines, header)`: the first raw
      section start after the target, or the end. */
  function InsertionIndex(lines: seq<string>, header: string): (k: nat)
    ensures k <= |WithSection(lines, header)|
  {
    NextSectionFrom(WithSection(lines, header), TargetIndex(lines, header) + 1)
  }

  /** The lines `insert_content` writes back. */
  function Inserted(lines: seq<string>, header: string, content: string): seq<string> {
    var base := WithSection(lines, header);
    var k := InsertionIndex(lines, header);
    base[..k] + [Payload(content)] + base[k..]
  }

  /** `insert_content(file_path, header_name, content)` on the file's lines. */
  method InsertContent(lines: seq<string>, header: string, content: string) returns (result: seq<string>)
    ensures result == Inserted(lines, header, content)
  {
    var buf := lines;
    var target := -1;
    var i := 0;
    while i < |buf|
      invariant 0 <= i <= |buf| && buf == lines
      invariant forall j :: 0 <= j < i ==> !IsTargetLine(buf[j], header)
      invariant target == -1
    {
      if Strip(buf[i]) == Marker + header {
        target := i;
        break;
      }
      i := i + 1;
    }
    if target == -1 {
      FirstTargetIs(lines, header, 0, |lines|);
      buf := buf + ["\n" + Marker + header + "\n"];
      target := |buf| - 1;
    } else {
      FirstTargetIs(lines, header, 0, target);
    }
    assert buf == WithSection(lines, header) && target == TargetIndex(lines, header);
    var insertIndex := |buf|;
    for j := target + 1 to |buf|
      invariant forall m :: target + 1 <= m < j ==> !StartsSection(buf[m])
      invariant insertIndex == |buf|
    {
      if StartsWith(buf[j], Marker) {
        insertIndex := j;
        break;
      }
    }
    NextSectionIs(buf, target + 1, insertIndex);
    InsertedAt(lines, header, content, buf, insertIndex);
    var payload := "\n" + content + "\n";
    buf := buf[..insertIndex] + [payload] + buf[insertIndex..];
    result := buf;
  }

  lemma InsertedAt(lines: seq<string>, header: string, content: string, base: seq<string>, k: nat)
    requires base == WithSection(lines, header)
    requires k == NextSectionFrom(base, TargetIndex(lines, header) + 1)
    ensures k <= |base|
    ensures Inserted(lines, header, content) == base[..k] + ["\n" + content + "\n"] + base[k..]
  {
  }

  /** The first target line is unique: any index with no target before it
      and a target at it (or at the end) is `FirstTargetFrom`. */
  lemma FirstTargetIs(lines: seq<string>, header: string, i: nat, t: nat)
    requires i <= t <= |lines|
    requires forall j :: i <= j < t ==> !IsTargetLine(lines[j], header)
    requires t < |lines| ==> IsTargetLine(lines[t], header)
    ensures FirstTargetFrom(lines, header, i) == t
  {
  }

  /** The same uniqueness for the end-of-section scan. */
  lemma NextSectionIs(lines: seq<string>, i: nat, k: nat)
    requires i <= k <= |lines|
    requires forall j :: i <= j < k ==> !StartsSection(lines[j])
    requires k < |lines| ==> StartsSection(lines[k])
    ensures NextSectionFrom(lines, i) == k
  {
  }

  /** When the section exists, its FIRST header line is the target (later
      duplicates are never chosen); the content goes in just before the
      next raw section start after it, or at the end; nothing else moves
      and the note grows by one element. */
  lemma InsertIntoExistingSection(lines: seq<string>, header: string, content: string, t: nat)
    requires t < |lines| && IsTargetLine(lines[t], header)
    requires forall j :: 0 <= j < t ==> !IsTargetLine(lines[j], header)
    ensures TargetIndex(lines, header) == t
    ensures var k := InsertionIndex(lines, header);
      && t < k <= |lines|
      && (forall j :: t < j < k ==> !StartsSection(lines[j]))
      && (k < |lines| ==> StartsSection(lines[k]))
      && Inserted(lines, header, content) == lines[..k] + [Payload(content)] + lines[k..]
    ensures |Inserted(lines, header, content)| == |lines| + 1
  {
    FirstTargetIs(lines, header, 0, t);
  }

  /** When no line is the section's header, the header and then the
      content are appended: the note grows by two elements. */
  lemma InsertIntoMissingSection(lines: seq<string>, header: string, content: string)
    requires forall j :: 0 <= j < |lines| ==> !IsTargetLine(lines[j], header)
    ensures Inserted(lines, header, content) == lines + [NewHeaderLine(header), Payload(content)]
    ensures |Inserted(lines, header, content)| == |lines| + 2
  {
    FirstTargetIs(lines, header, 0, |lines|);
    var base := lines + [NewHeaderLine(header)];
    NextSectionIs(base, |lines| + 1, |base|);
  }

  /** A header with no whitespace at its end is found again on the line
      the inserter appends for it. */
  lemma NewHeaderIsTarget(header: string)
    requires header != [] && !IsSpace(header[|header| - 1])
    ensures IsTargetLine(NewHeaderLine(header), header)
  {
    var t := Marker + header;
    var x := t + "\n";
    var s := "\n" + x;
    assert s[1..] == x && IsSpace(s[0]);
    assert LStrip(s) == LStrip(x) == x;
    StripLine(t);
    assert NewHeaderLine(header) == s;
  }

  /** The empty header name is never found (a stripped line never ends in
      the marker's space), so each insert under it appends a fresh header. */
  lemma EmptyHeaderAlwaysAppends(lines: seq<string>, content: string)
    ensures Inserted(lines, "", content) == lines + [NewHeaderLine(""), Payload(content)]
  {
    forall j | 0 <= j < |lines| ensures !IsTargetLine(lines[j], "") {
      var s := Strip(lines[j]);
      assert s == Marker ==> IsSpace(s[|s| - 1]);
    }
    InsertIntoMissingSection(lines, "", content);
  }

  /** What a later command reads back after an insert into an existing
      section of a note ending in a line feed: the note's lines with the
      payload's own lines in place of the payload element. */
  lemma ReadBackInserted(lines: seq<string>, header: string, content: string)
    requires WellFormedLines(lines)
    requires TargetIndex(lines, header) < |lines|
    ensures var k := InsertionIndex(lines, header);
      && k <= |lines|
      && ReadLines(Concat(Inserted(lines, header, content)))
           == lines[..k] + ReadLines(Payload(content)) + lines[k..]
  {
    var t := TargetIndex(lines, header);
    var k := InsertionIndex(lines, header);
    InsertIntoExistingSection(lines, header, content, t);
    ReadBackSplitAt(lines, k, Payload(content));
  }

  /** `ReadBackSplice` at a cut point of one list of well-formed lines. */
  lemma ReadBackSplitAt(lines: seq<string>, k: nat, p: string)
    requires WellFormedLines(lines) && 0 < k <= |lines|
    requires p != [] && p[|p| - 1] == '\n'
    ensures ReadLines(Concat(lines[..k] + [p] + lines[k..])) == lines[..k] + ReadLines(p) + lines[k..]
  {
    assert lines[..k] + lines[k..] == lines;
    ReadBackSplice(lines[..k], p, lines[k..]);
  }

  /** Well-formed lines with one element spliced in, written and read back:
      the element comes back as its own lines. */
  lemma ReadBackSplice(a: seq<string>, p: string, b: seq<string>)
    requires a != [] && WellFormedLines(a + b)
    requires p != [] && p[|p| - 1] == '\n'
    ensures ReadLines(Concat(a + [p] + b)) == a + ReadLines(p) + b
  {
    assert forall l :: l in a ==> l in a + b;
    assert forall l :: l in b ==> l in a + b;
    ConcatSplice(a, p, b);
    ConcatEndsInLine(a);
    ReadLinesAppend(Concat(a), p + Concat(b));
    ReadLinesAppend(p, Concat(b));
    ReadLinesOfLines(a);
    ReadLinesOfLines(b);
  }

  lemma ConcatSplice(a: seq<string>, p: string, b: seq<string>)
    ensures Concat(a + [p] + b) == Concat(a) + (p + Concat(b))
  {
    ConcatAppend(a + [p], b);
    ConcatAppend(a, [p]);
    assert [p][1..] == [];
  }

  /** Two entries logged one after the other into an existing section,
      each by a command that reads the file afresh: when no line of the
      first payload starts a section, the second entry lands right after
      all of the first one's lines, at the end of the section. */
  lemma SuccessiveInsertsKeepOrder(lines: seq<string>, header: string, c1: string, c2: string)
    requires WellFormedLines(lines)
    requires TargetIndex(lines, header) < |lines|
    requires forall l :: l in ReadLines(Payload(c1)) ==> !StartsSection(l)
    ensures var k := InsertionIndex(lines, header);
      var first := ReadLines(Payload(c1));
      var again := ReadLines(Concat(Inserted(lines, header, c1)));
      && k <= |lines|
      && again == lines[..k] + first + lines[k..]
      && Inserted(again, header, c2) == lines[..k] + first + [Payload(c2)] + lines[k..]
  {
    ReadBackInserted(lines, header, c1);
    InsertAfterBlock(lines, header, ReadLines(Payload(c1)), c2);
  }

  /** Inserting into a section whose end is preceded by a block of lines
      that start no section puts the payload after that block. */
  lemma InsertAfterBlock(lines: seq<string>, header: string, xs: seq<string>, content: string)
    requires TargetIndex(lines, header) < |lines|
    requires forall x :: x in xs ==> !StartsSection(x)
    ensures var k := InsertionIndex(lines, header);
      && k <= |lines|
      && Inserted(lines[..k] + xs + lines[k..], header, content)
           == lines[..k] + xs + [Payload(content)] + lines[k..]
  {
    var t := TargetIndex(lines, header);
    var k := InsertionIndex(lines, header);
    assert WithSection(lines, header) == lines;
    var r := lines[..k] + xs + lines[k..];
    SpliceBlockKeepsScans(lines, header, t, k, xs);
    assert WithSection(r, header) == r;
    InsertedAt(r, header, content, r, k + |xs|);
    SpliceAfterBlock(lines[..k], xs, lines[k..], Payload(content));
  }

  /** Splicing `y` right after a block puts it between the block and the rest. */
  lemma SpliceAfterBlock<T>(a: seq<T>, xs: seq<T>, b: seq<T>, y: T)
    ensures var r := a + xs + b;
      r[..|a| + |xs|] + [y] + r[|a| + |xs|..] == a + xs + [y] + b
  {
    var r := a + xs + b;
    assert r[..|a| + |xs|] == a + xs;
    assert r[|a| + |xs|..] == b;
  }

  /** Splicing lines that start no section into the body of the first
      target section leaves that target first and pushes the section's end
      down by their number. */
  lemma SpliceBlockKeepsScans(base: seq<string>, header: string, t: nat, k: nat, xs: seq<string>)
    requires t < |base| && IsTargetLine(base[t], header)
    requires FirstTargetFrom(base, header, 0) == t
    requires t < k <= |base| && k == NextSectionFrom(base, t + 1)
    requires forall x :: x in xs ==> !StartsSection(x)
    ensures var r := base[..k] + xs + base[k..];
      FirstTargetFrom(r, header, 0) == t && NextSectionFrom(r, t + 1) == k + |xs|
  {
    var r := base[..k] + xs + base[k..];
    forall j | 0 <= j < t ensures !IsTargetLine(r[j], header) {
      assert r[j] == base[j];
    }
    assert r[t] == base[t];
    FirstTargetIs(r, header, 0, t);
    forall j | t + 1 <= j < k + |xs| ensures !StartsSection(r[j]) {
      if j < k {
        assert r[j] == base[j];
      } else {
        assert r[j] == xs[j - k] && xs[j - k] in xs;
      }
    }
    if k + |xs| < |r| {
      assert r[k + |xs|] == base[k];
    }
    NextSectionIs(r, t + 1, k + |xs|);
  }

  /** A section the inserter had to create is listed by `get_headers` once
      the file is written and read again, provided the name is one header
      line's worth of text: non-empty, no line break, no whitespace at its
      end and no marker inside it. */
  lemma CreatedSectionIsListed(lines: seq<string>, header: string, content: string)
    requires forall j :: 0 <= j < |lines| ==> !IsTargetLine(lines[j], header)
    requires header != [] && !IsSpace(header[|header| - 1])
    requires '\n' !in header && '\r' !in header && !Contains(header, Marker)
    ensures header in Headers(ReadLines(Concat(Inserted(lines, header, content))))
  {
    var a := Concat(lines) + "\n";
    var b := Marker + header + "\n";
    var c := Payload(content);
    InsertIntoMissingSection(lines, header, content);
    AppendedText(lines, header, content);
    assert Concat(Inserted(lines, header, content)) == a + b + c;
    HeaderLineIsLine(header);
    ReadLinesAroundLine(a, b, c);
    HeaderListedBetween(ReadLines(a), header, ReadLines(c));
  }

  /** The header line written for a one-line name is one well-formed line. */
  lemma HeaderLineIsLine(header: string)
    requires '\n' !in header && '\r' !in header
    ensures IsLineOver(Marker + header + "\n", {'\n'}) && '\r' !in Marker + header + "\n"
  {
    var b := Marker + header + "\n";
    forall j | 0 <= j < |b| - 1 ensures b[j] !in {'\n'} {
      if j >= |Marker| {
        assert b[j] == header[j - |Marker|];
      }
    }
  }

  /** The text of the note once a header and a payload are appended. */
  lemma AppendedText(lines: seq<string>, header: string, content: string)
    ensures Concat(lines + [NewHeaderLine(header), Payload(content)])
         == (Concat(lines) + "\n") + (Marker + header + "\n") + Payload(content)
  {
    var nh := NewHeaderLine(header);
    var c := Payload(content);
    ConcatAppend(lines, [nh, c]);
    assert [nh, c][1..] == [c];
    assert [c][1..] == [];
    assert Concat([c]) == c;
  }

  /** A well-formed header line between any lines is listed. */
  lemma HeaderListedBetween(a: seq<string>, header: string, c: seq<string>)
    requires header != [] && !IsSpace(header[|header| - 1]) && !Contains(header, Marker)
    ensures header in Headers(a + [Marker + header + "\n"] + c)
  {
    var b := Marker + header + "\n";
    HeadersAppend(a + [b], c);
    HeadersAppend(a, [b]);
    HeaderLineText(header);
  }

  /** The lines no line of which is the header line of section `header`. */
  predicate NoTarget(lines: seq<string>, header: string) {
    forall j :: 0 <= j < |lines| ==> !IsTargetLine(lines[j], header)
  }

  /** A line that is the header line of some section is a header line. */
  lemma TargetIsHeaderLine(l: string, header: string)
    requires IsTargetLine(l, header)
    ensures IsHeaderLine(l)
  {
    assert Strip(l)[..|Marker|] == Marker;
  }

  lemma NoTargetAppend(a: seq<string>, b: seq<string>, header: string)
    requires NoTarget(a, header) && NoTarget(b, header)
    ensures NoTarget(a + b, header)
  {
    forall j | 0 <= j < |a + b| ensures !IsTargetLine((a + b)[j], header) {
      if j >= |a| {
        assert (a + b)[j] == b[j - |a|];
      }
    }
  }

  lemma MarkerLinesDiffer(a: string, b: string)
    requires a != b
    ensures Marker + a != Marker + b
  {
    assert (Marker + a)[|Marker|..] == a && (Marker + b)[|Marker|..] == b;
  }
}

/** The header index of note.py (`get_headers`, note.py:56-66): the list of
    second-level section headers of a note, in file order. */
module HeaderIndex {
  import opened Options
  import opened PyStr
  import opened Seqs

  /** The two-level markdown header marker. */
  const Marker: string := "## "

  /** A line is a header line when, stripped, it starts with the marker. */
  predicate IsHeaderLine(line: string) {
    StartsWith(Strip(line), Marker)
  }

  /** The header text the source records for a header line: the stripped
      line with EVERY occurrence of the marker removed (`replace`). */
  function HeaderText(line: string): string {
    RemoveAll(Strip(line), Marker)
  }

  /** The header list of a note given as its lines, as `get_headers` builds it. */
  function Headers(lines: seq<string>): seq<string> {
    FilterMap(lines, IsHeaderLine, HeaderText)
  }

  /** The positions of the header lines, in increasing order. */
  function HeaderLineIndices(lines: seq<string>): seq<nat> {
    KeptIndices(lines, IsHeaderLine)
  }

  /** `get_headers` yields one entry per header line, in file order,
      duplicates kept: its m-th entry is the text of the m-th header line,
      and every header line has its entry. */
  lemma HeadersFollowHeaderLines(lines: seq<string>)
    ensures |Headers(lines)| == |HeaderLineIndices(lines)|
    ensures forall m :: 0 <= m < |Headers(lines)| ==>
              var i := HeaderLineIndices(lines)[m];
              i < |lines| && IsHeaderLine(lines[i]) && Headers(lines)[m] == HeaderText(lines[i])
    ensures forall m, m' :: 0 <= m < m' < |Headers(lines)| ==>
              HeaderLineIndices(lines)[m] < HeaderLineIndices(lines)[m']
    ensures forall i :: 0 <= i < |lines| && IsHeaderLine(lines[i]) ==> i in HeaderLineIndices(lines)
  {
    FilterMapAt(lines, IsHeaderLine, HeaderText);
  }

  /** The header list of a concatenation of notes is the concatenation of
      their header lists: headers are reported in file order. */
  lemma HeadersAppend(a: seq<string>, b: seq<string>)
    ensures Headers(a + b) == Headers(a) + Headers(b)
  {
    FilterMapAppend(a, b, IsHeaderLine, HeaderText);
  }

  /** A note has no headers exactly when none of its lines is a header line. */
  lemma HeadersEmptyIff(lines: seq<string>)
    ensures Headers(lines) == [] <==> forall i :: 0 <= i < |lines| ==> !IsHeaderLine(lines[i])
  {
    HeadersFollowHeaderLines(lines);
    var idx := HeaderLineIndices(lines);
    if idx != [] {
      assert IsHeaderLine(lines[idx[0]]);
    }
  }

  /** `get_headers(file_path)`: `None` stands for a file that does not
      exist; otherwise the file's text is iterated line by line. */
  method GetHeaders(file: Option<string>) returns (headers: seq<string>)
    ensures file.None? ==> headers == []
    ensures file.Some? ==> headers == Headers(ReadLines(file.value))
  {
    headers := [];
    if file.None? {
      return;
    }
    var lines := ReadLines(file.value);
    for i := 0 to |lines|
      invariant headers == Headers(lines[..i])
    {
      var stripped := Strip(lines[i]);
      if StartsWith(stripped, Marker) {
        headers := headers + [RemoveAll(stripped, Marker)];
      }
      assert lines[..i + 1][..i] == lines[..i];
    }
    assert lines[..|lines|] == lines;
  }

  /** The header text with only the leading marker removed, which is what
      the section inserter searches for. */
  function FixedHeaderText(line: string): (h: string)
    requires IsHeaderLine(line)
    ensures Strip(line) == Marker + h
  {
    Strip(line)[|Marker|..]
  }

  /** The header list built with `FixedHeaderText`: one entry per header line. */
  function FixedHeaders(lines: seq<string>): (hs: seq<string>)
    ensures |hs| == |HeaderLineIndices(lines)|
    ensures forall m :: 0 <= m < |hs| ==>
              var i := HeaderLineIndices(lines)[m];
              i < |lines| && Strip(lines[i]) == Marker + hs[m]
  {
    var idx := HeaderLineIndices(lines);
    seq(|idx|, m requires 0 <= m < |idx| => FixedHeaderText(lines[idx[m]]))
  }

  /** The two header lists agree whenever no header carries a second
      marker after its leading one. */
  lemma HeadersAgreeWithoutInnerMarker(lines: seq<string>)
    requires forall i :: 0 <= i < |lines| && IsHeaderLine(lines[i]) ==>
               !Contains(Strip(lines[i])[|Marker|..], Marker)
    ensures Headers(lines) == FixedHeaders(lines)
  {
    HeadersFollowHeaderLines(lines);
    var idx := HeaderLineIndices(lines);
    forall m | 0 <= m < |idx| ensures Headers(lines)[m] == FixedHeaders(lines)[m] {
      HeaderAgreesWithoutInnerMarker(lines, m);
    }
  }

  /** One entry of the two lists agrees when its own header line carries
      no second marker, whatever the other header lines hold. */
  lemma HeaderAgreesWithoutInnerMarker(lines: seq<string>, m: nat)
    requires var idx := HeaderLineIndices(lines);
      m < |idx| && !Contains(Strip(lines[idx[m]])[|Marker|..], Marker)
    ensures m < |Headers(lines)| && Headers(lines)[m] == FixedHeaders(lines)[m]
  {
    HeadersFollowHeaderLines(lines);
    var s := Strip(lines[HeaderLineIndices(lines)[m]]);
    assert s == Marker + s[|Marker|..];
    RemoveAllAbsent(s[|Marker|..], Marker);
  }

  /** The header line written for a well-formed section name is a header
      line whose text is that name. */
  lemma HeaderLineText(header: string)
    requires header != [] && !IsSpace(header[|header| - 1]) && !Contains(header, Marker)
    ensures Headers([Marker + header + "\n"]) == [header]
  {
    var b := Marker + header + "\n";
    StripLine(Marker + header);
    assert IsHeaderLine(b);
    var t := Marker + header;
    assert t[..|Marker|] == Marker && t[|Marker|..] == header;
    assert RemoveAll(t, Marker) == RemoveAll(header, Marker);
    RemoveAllAbsent(header, Marker);
    assert HeaderText(b) == header;
    assert [b][..0] == [];
    assert Headers([b]) == Headers([]) + [HeaderText(b)];
  }
}

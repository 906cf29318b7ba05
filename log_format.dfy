/** The log block `cmd_log` builds (note.py:180-188): a third-level heading
    with the caption and the time, then the content in a `text` code fence,
    folded into a `<details>` element when it has more than 15 lines. */
module LogFormat {
  import opened Options
  import opened PyStr

  const DefaultCaption: string := "Log Entry"

  /** Content with more lines than this is collapsed. */
  const CollapseThreshold: nat := 15

  const FenceOpen: string := "```text\n"
  const FenceClose: string := "\n```"
  const DetailsTag: string := "<details>"
  const DetailsOpen: string := DetailsTag + "\n<summary>Click to Expand Content</summary>\n\n"
  const DetailsClose: string := "\n</details>"

  /** `len(content.splitlines())` */
  function LineCount(content: string): nat {
    |SplitLines(content)|
  }

  /** The heading line; an empty caption shows as `Log Entry`. */
  function Heading(caption: string, time: string): string {
    "### " + (if caption != [] then caption else DefaultCaption) + " (" + time + ")\n"
  }

  function Fenced(content: string): string {
    FenceOpen + content + FenceClose
  }

  predicate Collapses(content: string) {
    LineCount(content) > CollapseThreshold
  }

  /** The part of the block after the heading. */
  function Body(content: string): string {
    if Collapses(content) then DetailsOpen + Fenced(content) + DetailsClose else Fenced(content)
  }

  /** `formatted_block` for the given caption, content and `%H:%M` time. */
  function FormatBlock(caption: string, content: string, time: string): string {
    Heading(caption, time) + Body(content)
  }

  predicate EndsWith(s: string, p: string) {
    |p| <= |s| && s[|s| - |p|..] == p
  }

  /** The content inside a code fence, if `s` is one. */
  function Unwrap(s: string): (r: Option<string>)
    ensures r.Some? ==> s == FenceOpen + r.value + FenceClose
  {
    if |s| >= |FenceOpen| + |FenceClose| && StartsWith(s, FenceOpen) && EndsWith(s, FenceClose) then
      var c := s[|FenceOpen|..|s| - |FenceClose|];
      assert s == s[..|FenceOpen|] + c + s[|s| - |FenceClose|..];
      Some(c)
    else None
  }

  /** Reads a block body back: whether it is collapsed and the content. */
  function ReadBody(body: string): (r: Option<(bool, string)>)
  {
    if |body| >= |DetailsOpen| + |DetailsClose| && StartsWith(body, DetailsOpen) && EndsWith(body, DetailsClose) then
      var inner := Unwrap(body[|DetailsOpen|..|body| - |DetailsClose|]);
      if inner.Some? then Some((true, inner.value)) else None
    else
      var inner := Unwrap(body);
      if inner.Some? then Some((false, inner.value)) else None
  }

  lemma UnwrapFenced(content: string)
    ensures Unwrap(Fenced(content)) == Some(content)
  {
    var s := Fenced(content);
    assert s[..|FenceOpen|] == FenceOpen;
    assert s[|s| - |FenceClose|..] == FenceClose;
    assert s[|FenceOpen|..|s| - |FenceClose|] == content;
  }

  /** A code fence is never mistaken for a `<details>` element. */
  lemma FencedIsNoDetails(content: string)
    ensures !StartsWith(Fenced(content), DetailsOpen)
  {
    assert Fenced(content)[0] == '`';
    assert DetailsOpen[0] == DetailsTag[0] == '<';
  }

  /** Reading a body back gives the content verbatim, and tells collapsed
      from plain exactly as the line count decided. */
  lemma ReadBodyRoundTrip(content: string)
    ensures ReadBody(Body(content)) == Some((Collapses(content), content))
  {
    UnwrapFenced(content);
    if Collapses(content) {
      var b := Body(content);
      assert b[..|DetailsOpen|] == DetailsOpen;
      assert b[|b| - |DetailsClose|..] == DetailsClose;
      assert b[|DetailsOpen|..|b| - |DetailsClose|] == Fenced(content);
    } else {
      FencedIsNoDetails(content);
    }
  }

  /** The block opens with its heading, and the rest reads back as the
      content, collapsed exactly when it has more than 15 lines. */
  lemma FormatBlockReadsBack(caption: string, content: string, time: string)
    ensures StartsWith(FormatBlock(caption, content, time), Heading(caption, time))
    ensures ReadBody(FormatBlock(caption, content, time)[|Heading(caption, time)|..])
         == Some((LineCount(content) > CollapseThreshold, content))
  {
    var h := Heading(caption, time);
    var r := FormatBlock(caption, content, time);
    assert r[..|h|] == h;
    assert r[|h|..] == Body(content);
    ReadBodyRoundTrip(content);
  }

  /** Content made of `n` lines, each ending in a line feed and holding no
      other line break, counts `n` lines. */
  lemma LineCountOfLines(ls: seq<string>)
    requires forall l :: l in ls ==> IsLineOver(l, PyLineBreaks)
    ensures LineCount(Concat(ls)) == |ls|
  {
    SplitAfterLines(ls, PyLineBreaks);
  }

  /** The collapse decision on such content: more than 15 lines folds. */
  lemma CollapsesOfLines(ls: seq<string>)
    requires forall l :: l in ls ==> IsLineOver(l, PyLineBreaks)
    ensures Collapses(Concat(ls)) <==> |ls| > 15
  {
    LineCountOfLines(ls);
  }
}

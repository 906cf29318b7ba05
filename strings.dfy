/** The few pieces of Python's `str` and text-file behaviour that note.py
    relies on: `isspace`/`strip`, `startswith`, `replace(p, "")`,
    `splitlines`, and the line splitting done by `readlines` on a file
    opened in text mode (universal newlines). */
module PyStr {
  import opened Seqs

  /** `c.isspace()` in Python: the Unicode whitespace characters. */
  predicate IsSpace(c: char) {
    var n := c as int;
    (9 <= n <= 13) || (28 <= n <= 32) || n == 0x85 || n == 0xA0 || n == 0x1680
    || (0x2000 <= n <= 0x200A) || n == 0x2028 || n == 0x2029 || n == 0x202F
    || n == 0x205F || n == 0x3000
  }

  /** `s.lstrip()`: leading whitespace dropped. */
  function LStrip(s: string): (r: string)
    ensures |r| <= |s|
    ensures r == [] || !IsSpace(r[0])
  {
    if s != [] && IsSpace(s[0]) then LStrip(s[1..]) else s
  }

  /** `s.rstrip()`: trailing whitespace dropped. */
  function RStrip(s: string): (r: string)
    ensures |r| <= |s|
    ensures r == [] || !IsSpace(r[|r| - 1])
  {
    if s != [] && IsSpace(s[|s| - 1]) then RStrip(s[..|s| - 1]) else s
  }

  /** `s.strip()`: whitespace removed at both ends. */
  function Strip(s: string): (r: string)
    ensures |r| <= |s|
    ensures r == [] || (!IsSpace(r[0]) && !IsSpace(r[|r| - 1]))
  {
    RStripIsPrefix(LStrip(s));
    RStrip(LStrip(s))
  }

  /** `rstrip` removes only whitespace, and only from the back. */
  lemma {:induction false} RStripIsPrefix(s: string)
    ensures RStrip(s) == s[..|RStrip(s)|]
    ensures forall i :: |RStrip(s)| <= i < |s| ==> IsSpace(s[i])
  {
    if s != [] && IsSpace(s[|s| - 1]) {
      RStripIsPrefix(s[..|s| - 1]);
    }
  }

  /** A string that begins with a non-space character keeps its first
      characters under `strip`: the result is a non-empty prefix of it. */
  lemma StripKeepsPrefix(s: string)
    requires s != [] && !IsSpace(s[0])
    ensures 0 < |Strip(s)| && Strip(s) == s[..|Strip(s)|]
  {
    assert LStrip(s) == s;
    RStripIsPrefix(s);
  }

  /** A string with no whitespace at either end is its own `strip`. */
  lemma StripTrimmed(s: string)
    requires s == [] || (!IsSpace(s[0]) && !IsSpace(s[|s| - 1]))
    ensures Strip(s) == s
  {
    assert LStrip(s) == s;
  }

  /** A line `t + "\n"` whose text has no whitespace at either end strips
      back to that text. */
  lemma StripLine(t: string)
    requires t != [] && !IsSpace(t[0]) && !IsSpace(t[|t| - 1])
    ensures Strip(t + "\n") == t
  {
    var s := t + "\n";
    assert LStrip(s) == s;
    assert s[..|s| - 1] == t;
    assert RStrip(s) == RStrip(t);
  }

  /** `s.startswith(p)` */
  predicate StartsWith(s: string, p: string) {
    |p| <= |s| && s[..|p|] == p
  }

  /** `p` occurs in `s` starting at index `i`. */
  predicate OccursAt(s: string, p: string, i: int) {
    0 <= i && i + |p| <= |s| && s[i..i + |p|] == p
  }

  /** `p` occurs somewhere in `s` (Python's `p in s`). */
  predicate Contains(s: string, p: string) {
    exists i | 0 <= i <= |s| :: OccursAt(s, p, i)
  }

  /** `s.replace(p, "")`: every non-overlapping occurrence of `p`, scanning
      left to right, removed. */
  function RemoveAll(s: string, p: string): (r: string)
    requires p != []
    ensures |r| <= |s|
    decreases |s|
  {
    if |s| < |p| then s
    else if s[..|p|] == p then RemoveAll(s[|p|..], p)
    else [s[0]] + RemoveAll(s[1..], p)
  }

  /** Removing a pattern that does not occur changes nothing. */
  lemma {:induction false} RemoveAllAbsent(s: string, p: string)
    requires p != [] && !Contains(s, p)
    ensures RemoveAll(s, p) == s
    decreases |s|
  {
    if |s| >= |p| {
      assert !OccursAt(s, p, 0);
      assert !Contains(s[1..], p) by {
        forall i | OccursAt(s[1..], p, i) ensures false {
          assert s[1..][i..i + |p|] == s[i + 1..i + 1 + |p|];
          assert OccursAt(s, p, i + 1);
        }
      }
      RemoveAllAbsent(s[1..], p);
      assert s == [s[0]] + s[1..];
    }
  }

  /** `"".join(ls)`, which is also what `writelines` puts in a file. */
  function Concat(ls: seq<string>): string {
    if ls == [] then [] else ls[0] + Concat(ls[1..])
  }

  lemma {:induction false} ConcatAppend(a: seq<string>, b: seq<string>)
    ensures Concat(a + b) == Concat(a) + Concat(b)
  {
    if a == [] {
      assert a + b == b;
    } else {
      assert (a + b)[1..] == a[1..] + b;
      ConcatAppend(a[1..], b);
    }
  }

  lemma {:induction false} ConcatLacks(ls: seq<string>, c: char)
    requires forall l :: l in ls ==> c !in l
    ensures c !in Concat(ls)
  {
    if ls != [] {
      assert ls[0] in ls;
      ConcatLacks(ls[1..], c);
    }
  }

  /** Splits `s` after every line break in `br`, keeping the breaks; a
      carriage return directly followed by a line feed is one break when
      `\r` is a break. The last piece has no break if `s` does not end in
      one. This is `s.splitlines(keepends=True)` for Python's line breaks,
      and the splitting `readlines` does once newlines are translated. */
  function SplitAfter(s: string, br: set<char>): (ls: seq<string>)
    ensures Concat(ls) == s
    ensures forall i :: 0 <= i < |ls| ==> ls[i] != []
    ensures s != [] ==> ls != []
    decreases |s|
  {
    if s == [] then []
    else if s[0] == '\r' && '\r' in br && |s| > 1 && s[1] == '\n' then
      var rest := SplitAfter(s[2..], br);
      assert s == "\r\n" + s[2..];
      ["\r\n"] + rest
    else if s[0] in br then
      var rest := SplitAfter(s[1..], br);
      assert s == [s[0]] + s[1..];
      [[s[0]]] + rest
    else
      var rest := SplitAfter(s[1..], br);
      if rest == [] then [[s[0]]]
      else
        assert Concat(rest) == rest[0] + Concat(rest[1..]);
        assert s == [s[0]] + s[1..];
        [[s[0]] + rest[0]] + rest[1..]
  }

  /** A well-formed line over the breaks `br`: it ends in a line feed and
      holds no other break. */
  predicate IsLineOver(l: string, br: set<char>) {
    |l| > 0 && l[|l| - 1] == '\n' && forall j :: 0 <= j < |l| - 1 ==> l[j] !in br
  }

  lemma {:induction false} SplitAfterLine(l: string, rest: string, br: set<char>)
    requires '\n' in br && IsLineOver(l, br)
    ensures SplitAfter(l + rest, br) == [l] + SplitAfter(rest, br)
    decreases |l|
  {
    var s := l + rest;
    if |l| == 1 {
      assert s[1..] == rest;
    } else {
      assert s[0] == l[0] && l[0] !in br;
      assert s[1..] == l[1..] + rest;
      SplitAfterLine(l[1..], rest, br);
      assert [s[0]] + l[1..] == l;
    }
  }

  /** Splitting the concatenation of well-formed lines gives the lines back. */
  lemma {:induction false} SplitAfterLines(ls: seq<string>, br: set<char>)
    requires '\n' in br && forall l :: l in ls ==> IsLineOver(l, br)
    ensures SplitAfter(Concat(ls), br) == ls
  {
    if ls != [] {
      assert ls[0] in ls;
      SplitAfterLine(ls[0], Concat(ls[1..]), br);
      SplitAfterLines(ls[1..], br);
    }
  }

  /** Splitting distributes over a concatenation whose left part ends in a
      break other than a carriage return. */
  lemma {:induction false} SplitAfterAppend(x: string, y: string, br: set<char>)
    requires x == [] || (x[|x| - 1] in br && x[|x| - 1] != '\r')
    ensures SplitAfter(x + y, br) == SplitAfter(x, br) + SplitAfter(y, br)
    decreases |x|, 1
  {
    if x == [] {
      assert x + y == y;
    } else if x[0] == '\r' && '\r' in br && |x| > 1 && x[1] == '\n' {
      SplitAfterAppendPair(x, y, br);
    } else if x[0] in br {
      SplitAfterAppendBreak(x, y, br);
    } else {
      var t := x[1..];
      assert x == [x[0]] + t && x + y == [x[0]] + (t + y);
      SplitAfterAppendJoin(x[0], t, y, br);
    }
  }

  lemma {:induction false} SplitAfterAppendPair(x: string, y: string, br: set<char>)
    requires x != [] && x[|x| - 1] in br && x[|x| - 1] != '\r'
    requires x[0] == '\r' && '\r' in br && |x| > 1 && x[1] == '\n'
    ensures SplitAfter(x + y, br) == SplitAfter(x, br) + SplitAfter(y, br)
    decreases |x|, 0
  {
    var s := x + y;
    assert s[0] == '\r' && s[1] == '\n' && s[2..] == x[2..] + y;
    SplitAfterAppend(x[2..], y, br);
  }

  lemma {:induction false} SplitAfterAppendBreak(x: string, y: string, br: set<char>)
    requires x != [] && x[|x| - 1] in br && x[|x| - 1] != '\r'
    requires !(x[0] == '\r' && '\r' in br && |x| > 1 && x[1] == '\n') && x[0] in br
    ensures SplitAfter(x + y, br) == SplitAfter(x, br) + SplitAfter(y, br)
    decreases |x|, 0
  {
    var s := x + y;
    assert s[0] == x[0] && s[1..] == x[1..] + y;
    assert |x| == 1 ==> x[0] != '\r';
    assert |x| > 1 ==> s[1] == x[1];
    SplitAfterAppend(x[1..], y, br);
  }

  lemma {:induction false} SplitAfterAppendJoin(c: char, t: string, y: string, br: set<char>)
    requires t != [] && t[|t| - 1] in br && t[|t| - 1] != '\r'
    requires c !in br
    ensures SplitAfter([c] + (t + y), br) == SplitAfter([c] + t, br) + SplitAfter(y, br)
    decreases |t|
  {
    SplitAfterAppend(t, y, br);
    SplitAfterJoin(c, t + y, br);
    SplitAfterJoin(c, t, br);
    JoinFirst(c, SplitAfter(t + y, br), SplitAfter(t, br), SplitAfter(y, br));
  }

  lemma JoinFirst(c: char, v: seq<string>, a: seq<string>, b: seq<string>)
    requires v == a + b && a != []
    ensures [[c] + v[0]] + v[1..] == [[c] + a[0]] + a[1..] + b
  {
    assert v[1..] == a[1..] + b;
  }

  /** A character that is no break joins the first piece of what follows. */
  lemma SplitAfterJoin(c: char, t: string, br: set<char>)
    requires c !in br && t != []
    ensures var ls := SplitAfter(t, br);
      ls != [] && SplitAfter([c] + t, br) == [[c] + ls[0]] + ls[1..]
  {
    assert ([c] + t)[1..] == t;
  }

  /** The line breaks of Python's `str.splitlines`. */
  const PyLineBreaks: set<char> :=
    {'\n', '\r', '\U{0B}', '\U{0C}', '\U{1C}', '\U{1D}', '\U{1E}', '\U{85}', '\U{2028}', '\U{2029}'}

  /** `s.splitlines(keepends=True)`; `len(s.splitlines())` is its length. */
  function SplitLines(s: string): seq<string> {
    SplitAfter(s, PyLineBreaks)
  }

  /** Universal-newline translation done when a file is read in text mode:
      `\r\n` and a lone `\r` both become `\n`. */
  function Translate(s: string): (r: string)
    ensures '\r' !in r
    decreases |s|
  {
    if s == [] then []
    else if s[0] == '\r' then
      "\n" + Translate(if |s| > 1 && s[1] == '\n' then s[2..] else s[1..])
    else [s[0]] + Translate(s[1..])
  }

  lemma {:induction false} TranslateWithoutCR(s: string)
    requires '\r' !in s
    ensures Translate(s) == s
    decreases |s|
  {
    if s != [] {
      TranslateWithoutCR(s[1..]);
    }
  }

  /** The length of the break or character `Translate` consumes first. */
  function TranslateStep(s: string): (k: nat)
    requires s != []
    ensures 1 <= k <= |s|
  {
    if s[0] == '\r' && |s| > 1 && s[1] == '\n' then 2 else 1
  }

  lemma TranslateUnfold(s: string)
    requires s != []
    ensures Translate(s) == Translate(s[..TranslateStep(s)]) + Translate(s[TranslateStep(s)..])
  {
    var k := TranslateStep(s);
    var h := s[..k];
    assert h[0] == s[0];
    if k == 2 {
      assert h[1] == '\n' && h[2..] == [];
    } else {
      assert h[1..] == [];
    }
  }

  lemma {:induction false} TranslateAppend(a: string, b: string)
    requires a == [] || a[|a| - 1] != '\r'
    ensures Translate(a + b) == Translate(a) + Translate(b)
    decreases |a|
  {
    if a == [] {
      assert a + b == b;
    } else {
      var k := TranslateStep(a);
      TranslateStepOfAppend(a, b);
      TranslateUnfold(a);
      TranslateUnfold(a + b);
      TranslateAppend(a[k..], b);
      AppendAssoc(Translate(a[..k]), Translate(a[k..]), Translate(b));
    }
  }

  /** A text that does not end in a carriage return is translated with its
      first step unchanged by what follows it. */
  lemma TranslateStepOfAppend(a: string, b: string)
    requires a != [] && a[|a| - 1] != '\r'
    ensures var k := TranslateStep(a);
      && TranslateStep(a + b) == k
      && (a + b)[..k] == a[..k]
      && (a + b)[k..] == a[k..] + b
  {
    var ab := a + b;
    assert ab[0] == a[0];
    assert a[0] == '\r' ==> |a| > 1 && ab[1] == a[1];
  }

  lemma {:induction false} TranslateKeepsFinalNewline(s: string)
    requires s != [] && s[|s| - 1] == '\n'
    ensures Translate(s) != [] && Translate(s)[|Translate(s)| - 1] == '\n'
    decreases |s|
  {
    if |s| > 1 {
      if s[0] == '\r' && s[1] == '\n' {
        if |s| > 2 { TranslateKeepsFinalNewline(s[2..]); }
      } else {
        TranslateKeepsFinalNewline(s[1..]);
      }
    }
  }

  /** `f.readlines()` (and `for line in f`) on a file holding `text`. */
  function ReadLines(text: string): (ls: seq<string>)
    ensures Concat(ls) == Translate(text)
  {
    SplitAfter(Translate(text), {'\n'})
  }

  /** Lines that each end in a line feed and hold no other line feed and no
      carriage return: what `readlines` returns for a text ending in a
      line feed. */
  predicate WellFormedLines(ls: seq<string>) {
    forall l :: l in ls ==> IsLineOver(l, {'\n'}) && '\r' !in l
  }

  /** The lines of a file written from well-formed lines read back unchanged. */
  lemma ReadLinesOfLines(ls: seq<string>)
    requires WellFormedLines(ls)
    ensures ReadLines(Concat(ls)) == ls
  {
    ConcatLacks(ls, '\r');
    TranslateWithoutCR(Concat(ls));
    SplitAfterLines(ls, {'\n'});
  }

  /** Reading a text back splits it around a well-formed line it contains,
      provided the text before that line ends in a line feed. */
  lemma ReadLinesAroundLine(a: string, b: string, c: string)
    requires a != [] && a[|a| - 1] == '\n'
    requires IsLineOver(b, {'\n'}) && '\r' !in b
    ensures ReadLines(a + b + c) == ReadLines(a) + [b] + ReadLines(c)
  {
    assert a + b + c == a + (b + c);
    TranslateAppend(a, b + c);
    TranslateAppend(b, c);
    TranslateWithoutCR(b);
    TranslateKeepsFinalNewline(a);
    SplitAfterAppend(Translate(a), b + Translate(c), {'\n'});
    SplitAfterLine(b, Translate(c), {'\n'});
  }

  /** Reading a text whose first part ends in a line feed reads the two
      parts separately. */
  lemma ReadLinesAppend(x: string, y: string)
    requires x == [] || x[|x| - 1] == '\n'
    ensures ReadLines(x + y) == ReadLines(x) + ReadLines(y)
  {
    if x == [] {
      assert x + y == y;
    } else {
      TranslateAppend(x, y);
      TranslateKeepsFinalNewline(x);
      SplitAfterAppend(Translate(x), Translate(y), {'\n'});
    }
  }

  /** The text of a sequence of lines is the text of any prefix followed by
      that of the rest. */
  lemma ConcatSplit(ls: seq<string>, k: nat)
    requires k <= |ls|
    ensures Concat(ls) == Concat(ls[..k]) + Concat(ls[k..])
  {
    assert ls == ls[..k] + ls[k..];
    ConcatAppend(ls[..k], ls[k..]);
  }

  /** The text of non-empty well-formed lines ends in a line feed. */
  lemma ConcatEndsInLine(ls: seq<string>)
    requires ls != [] && WellFormedLines(ls)
    ensures Concat(ls) != [] && Concat(ls)[|Concat(ls)| - 1] == '\n'
  {
    var n := |ls| - 1;
    assert ls[n] in ls;
    ConcatSplit(ls, n);
    assert ls[n..] == [ls[n]] && [ls[n]][1..] == [];
  }
}

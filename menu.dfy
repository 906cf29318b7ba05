/** The section menu of `cmd_log` (note.py:158-176): the listed headers are
    numbered from 1, followed by "create new section" and "DUMP"; the typed
    choice picks the section the entry goes to, and anything the code cannot
    use falls back to `DUMP`.

    Keyboard input is a parameter: `None` stands for end of input, where
    `input()` raises `EOFError` (as it does once the piped content has been
    read from standard input). Here the error is caught and the entry goes
    to `DUMP`; the caption prompt that follows meets the same end of input
    uncaught, so a piped `note log` writes nothing (`Commands.Log`). */
module Menu {
  import opened Options
  import opened PyStr
  import opened PyInt

  const DefaultSection: string := "DUMP"

  /** `xs[i]` with Python's negative indexing; `None` where it raises
      `IndexError`. */
  function PyIndex<T>(xs: seq<T>, i: int): Option<T> {
    if 0 <= i < |xs| then Some(xs[i])
    else if -|xs| <= i < 0 then Some(xs[|xs| + i])
    else None
  }

  /** The section selected by the menu for the typed `choice` and, when the
      "create new section" entry is chosen, the typed `newName`. */
  function ResolveChoice(choice: Option<string>, headers: seq<string>, newName: Option<string>): (r: string)
    ensures r == DefaultSection || r in headers || (newName.Some? && r == Strip(newName.value))
  {
    if choice.None? then DefaultSection
    else
      var c := Strip(choice.value);
      if c == [] then DefaultSection
      else match ParseInt(c)
        case None => DefaultSection
        case Some(n) =>
          if n == |headers| + 1 then
            (if newName.Some? then Strip(newName.value) else DefaultSection)
          else if n == |headers| + 2 then DefaultSection
          else PyIndex(headers, n - 1).GetOr(DefaultSection)
  }

  /** The number printed in front of a menu entry reads back as that number. */
  lemma MenuNumber(k: nat)
    ensures Strip(ShowInt(k)) == ShowInt(k) && ParseInt(ShowInt(k)) == Some(k)
  {
    ShowNatDigits(k);
    StripTrimmed(ShowInt(k));
    ParseShowInt(k);
  }

  /** Any answer `int()` reads as the number of a listed header selects it
      (`2`, ` 02 `, `+2` alike). */
  lemma ChooseListed(choice: string, headers: seq<string>, k: nat, newName: Option<string>)
    requires 1 <= k <= |headers| && ParseInt(Strip(choice)) == Some(k)
    ensures ResolveChoice(Some(choice), headers, newName) == headers[k - 1]
  {
  }

  /** An answer read as the number of "create new section" selects the
      stripped new name, or `DUMP` at end of input. */
  lemma ChooseNew(choice: string, headers: seq<string>, newName: Option<string>)
    requires ParseInt(Strip(choice)) == Some(|headers| + 1)
    ensures ResolveChoice(Some(choice), headers, newName)
         == (if newName.Some? then Strip(newName.value) else DefaultSection)
  {
  }

  /** An answer read as the number of the `DUMP` entry selects `DUMP`. */
  lemma ChooseDump(choice: string, headers: seq<string>, newName: Option<string>)
    requires ParseInt(Strip(choice)) == Some(|headers| + 2)
    ensures ResolveChoice(Some(choice), headers, newName) == DefaultSection
  {
  }

  /** A blank answer, end of input and anything `int()` rejects select `DUMP`. */
  lemma UnusableChoiceIsDump(choice: Option<string>, headers: seq<string>, newName: Option<string>)
    requires choice.None? || ParseInt(Strip(choice.value)).None?
    ensures ResolveChoice(choice, headers, newName) == DefaultSection
  {
  }

  /** Numbers beyond the menu, at either end, select `DUMP`. */
  lemma OutOfRangeIsDump(choice: string, n: int, headers: seq<string>, newName: Option<string>)
    requires ParseInt(Strip(choice)) == Some(n)
    requires n > |headers| + 2 || n < 1 - |headers|
    ensures ResolveChoice(Some(choice), headers, newName) == DefaultSection
  {
  }

  /** `0` and negative numbers down to `1 - len(headers)` are not rejected:
      Python indexes `headers[n - 1]` from the end. */
  lemma NonPositiveChoice(choice: string, n: int, headers: seq<string>, newName: Option<string>)
    requires ParseInt(Strip(choice)) == Some(n)
    requires 1 - |headers| <= n <= 0
    ensures ResolveChoice(Some(choice), headers, newName) == headers[|headers| + n - 1]
  {
  }

  /** In particular `0` selects the last listed header. */
  lemma ZeroIsLastHeader(headers: seq<string>, newName: Option<string>)
    requires headers != []
    ensures ResolveChoice(Some("0"), headers, newName) == headers[|headers| - 1]
  {
    MenuNumber(0);
    NonPositiveChoice("0", 0, headers, newName);
  }

  /** The menu's own numbers are such answers: typing the number printed
      in front of an entry selects that entry. */
  lemma ChoosePrinted(headers: seq<string>, k: nat, newName: Option<string>)
    requires 1 <= k <= |headers| + 2
    ensures ResolveChoice(Some(ShowInt(k)), headers, newName)
         == if k <= |headers| then headers[k - 1]
            else if k == |headers| + 1 && newName.Some? then Strip(newName.value)
            else DefaultSection
  {
    MenuNumber(k);
  }
}

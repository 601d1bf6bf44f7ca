/**
 * The new-tab page (`newtab.js`): its module state (`quotes`, `lastIndex`)
 * and the text of the quote, author and toast elements, with the operations
 * that load, pick, render and copy a quote.
 */
module NewTab {
  import opened Wrappers
  import opened Text
  import opened QuoteStore
  import opened QuotePicker

  const UnableToLoad := "Unable to load quotes."
  const UnknownAuthor := "Unknown"
  const Copied := "Copied!"
  const CopyFailed := "Copy failed"

  /** `pickRandomIndex()` over a list of `n` quotes, with the random draw
      `Math.floor(Math.random() * n)` passed in as `draw` (only used, and so
      only constrained, when `n >= 2`). */
  function PickRandomIndex(n: nat, lastIndex: int, draw: nat): (i: int)
    requires 2 <= n ==> draw < n
    ensures i == -1 <==> n == 0
    ensures n == 1 ==> i == 0
    ensures 2 <= n ==> 0 <= i < n && i != lastIndex
    ensures 2 <= n && draw != lastIndex ==> i == draw
  {
    if n == 0 then -1
    else if n == 1 then 0
    else AvoidRepeat(n, lastIndex, draw)
  }

  /** The name `renderQuote` shows: the trimmed author, or "Unknown" when the
      author is absent or blank. */
  function DisplayedAuthor(a: Field): (name: string)
    requires !a.NonString?
    ensures name != [] && Trim(name) == name
    ensures a.Str? && !IsBlank(a.value) ==> name == Trim(a.value)
    ensures (a.Absent? || IsBlank(a.value)) ==> name == UnknownAuthor
  {
    match ReadAuthor(a)
    case Named(n) => n
    case Unnamed =>
      PrintableIsNotSpace('U');
      PrintableIsNotSpace('n');
      assert UnknownAuthor[0] == 'U' && UnknownAuthor[|UnknownAuthor| - 1] == 'n';
      TrimOfTrimmed(UnknownAuthor);
      UnknownAuthor
  }

  /** The author line `renderQuote` writes, "— " and the displayed name;
      `None` when `q.author.trim()` throws because the author is a truthy
      non-string. The line is never empty and is its own trim. */
  function AuthorLine(a: Field): (line: Option<string>)
    ensures line.None? <==> a.NonString?
    ensures line.Some? ==> line.value == "— " + DisplayedAuthor(a)
    ensures line.Some? ==> line.value != [] && Trim(line.value) == line.value
  {
    if a.NonString? then None
    else
      var name := DisplayedAuthor(a);
      var line := "— " + name;
      EmDashIsNotSpace();
      assert line[0] == '—' && line[|line| - 1] == name[|name| - 1];
      TrimOfTrimmed(line);
      Some(line)
  }

  /** The string `copyCurrentQuote` writes to the clipboard, built from what
      the quote and author elements show: the trimmed quote text, followed by
      a space and the trimmed author text when that is not empty. */
  function ClipboardText(quoteText: string, authorText: string): (c: string)
    ensures Trim(quoteText) <= c
    ensures c == Trim(quoteText) <==> IsBlank(authorText)
    ensures !IsBlank(authorText) ==> c == Trim(quoteText) + " " + Trim(authorText)
  {
    var text := Trim(quoteText);
    var author := Trim(authorText);
    if author != [] then text + " " + author else text
  }

  /** Copying a rendered quote gives its trimmed text, " — " and the
      displayed author name. */
  lemma CopyOfRenderedQuote(q: Item)
    requires IsValidQuote(q) && !q.author.NonString?
    ensures ClipboardText(TextOf(q), AuthorLine(q.author).value)
         == Trim(TextOf(q)) + " — " + DisplayedAuthor(q.author)
    ensures Trim(TextOf(q)) != []
  {
    var line := AuthorLine(q.author).value;
    CopyWithAuthor(TextOf(q), line);
    DashJoin(Trim(TextOf(q)), DisplayedAuthor(q.author));
  }

  /** With an author text that is already trimmed and not empty, the copied
      string is the trimmed quote text, a space and the author text. */
  lemma CopyWithAuthor(quoteText: string, authorText: string)
    requires authorText != [] && Trim(authorText) == authorText
    ensures ClipboardText(quoteText, authorText) == Trim(quoteText) + " " + authorText
  {
  }

  lemma DashJoin(t: string, name: string)
    ensures t + " " + ("— " + name) == t + " — " + name
  {
  }

  /** With a blank author text, the copied string is the trimmed quote text
      alone. */
  lemma CopyWithoutAuthor(quoteText: string, authorText: string)
    requires IsBlank(authorText)
    ensures ClipboardText(quoteText, authorText) == Trim(quoteText)
  {
  }

  /** Copying while the failure message is shown gives the message alone. */
  lemma CopyOfFailureMessage()
    ensures ClipboardText(UnableToLoad, "") == UnableToLoad
  {
    PrintableIsNotSpace('U');
    PrintableIsNotSpace('.');
    assert UnableToLoad[0] == 'U' && UnableToLoad[|UnableToLoad| - 1] == '.';
    TrimOfTrimmed(UnableToLoad);
    assert IsBlank("");
  }

  /** A quote without an author is shown with the line "— Unknown". */
  lemma UnknownAuthorLine()
    ensures AuthorLine(Absent) == Some("— Unknown")
  {
    assert DisplayedAuthor(Absent) == UnknownAuthor;
    assert "— " + UnknownAuthor == "— Unknown";
  }

  /** The page: the module-level `quotes` and `lastIndex`, the text shown by
      the quote and author elements, and the last toast message shown. */
  class Page {
    var quotes: seq<Item>
    var lastIndex: int
    var quoteText: string
    var authorText: string
    var toast: Option<string>

    /** Only quotes that passed the filter are ever held. */
    ghost predicate Valid()
      reads this
    {
      AllValid(quotes)
    }

    /** The page shows quote `q`. */
    ghost predicate Shows(q: Item)
      reads this
      requires IsValidQuote(q) && !q.author.NonString?
    {
      quoteText == TextOf(q) && authorText == AuthorLine(q.author).value
    }

    /** The page shows the load failure message. */
    ghost predicate ShowsFailure()
      reads this
    {
      quoteText == UnableToLoad && authorText == ""
    }

    /** A freshly loaded page; the elements hold whatever the page markup put
        in them. */
    constructor (initialQuoteText: string, initialAuthorText: string)
      ensures Valid()
      ensures quotes == [] && lastIndex == -1
      ensures quoteText == initialQuoteText && authorText == initialAuthorText
      ensures toast == None
    {
      quotes := [];
      lastIndex := -1;
      quoteText := initialQuoteText;
      authorText := initialAuthorText;
      toast := None;
    }

    /** `showToast(message)`; hiding it again after 1600 ms is not modelled. */
    method ShowToast(message: string)
      modifies this`toast
      ensures toast == Some(message)
    {
      toast := Some(message);
    }

    /** `renderQuote(q)`: writes the text, then the author line. `completed`
        is false when computing the author line throws, in which case the
        author element keeps its old text. */
    method RenderQuote(q: Item) returns (completed: bool)
      requires IsValidQuote(q)
      modifies this`quoteText, this`authorText
      ensures completed <==> !q.author.NonString?
      ensures quoteText == TextOf(q)
      ensures completed ==> Shows(q)
      ensures !completed ==> authorText == old(authorText)
    {
      quoteText := TextOf(q);
      var line := AuthorLine(q.author);
      if line.None? {
        return false;
      }
      authorText := line.value;
      return true;
    }

    /** `showRandomQuote()`: nothing happens on an empty list; otherwise the
        picked index becomes `lastIndex` and that quote is rendered. */
    method ShowRandomQuote(draw: nat) returns (completed: bool)
      requires Valid()
      requires 2 <= |quotes| ==> draw < |quotes|
      modifies this`lastIndex, this`quoteText, this`authorText
      ensures quotes == [] ==>
        completed && lastIndex == old(lastIndex) && quoteText == old(quoteText) && authorText == old(authorText)
      ensures quotes != [] ==> lastIndex == PickRandomIndex(|quotes|, old(lastIndex), draw)
      ensures quotes != [] ==> 0 <= lastIndex < |quotes| && quoteText == TextOf(quotes[lastIndex])
      ensures 2 <= |quotes| ==> lastIndex != old(lastIndex)
      ensures quotes != [] ==> (completed <==> !quotes[lastIndex].author.NonString?)
      ensures quotes != [] && completed ==> Shows(quotes[lastIndex])
      ensures quotes != [] && !completed ==> authorText == old(authorText)
    {
      var i := PickRandomIndex(|quotes|, lastIndex, draw);
      if i == -1 {
        return true;
      }
      lastIndex := i;
      completed := RenderQuote(quotes[i]);
    }

    /** `loadQuotes()` with the outcome of the fetch passed in. A failed fetch
        throws before `quotes` is assigned; an empty list, or a render that
        throws, ends in the same `catch`, which shows the failure message. */
    method LoadQuotes(resp: Response, draw: nat)
      requires Valid()
      requires LoadResult(resp).Some? && 2 <= |LoadResult(resp).value| ==> draw < |LoadResult(resp).value|
      modifies this`quotes, this`lastIndex, this`quoteText, this`authorText
      ensures Valid()
      ensures quotes == LoadResult(resp).GetOr(old(quotes))
      ensures resp.Failed? || quotes == [] ==> lastIndex == old(lastIndex) && ShowsFailure()
      ensures !resp.Failed? && quotes != [] ==>
        && lastIndex == PickRandomIndex(|quotes|, old(lastIndex), draw)
        && 0 <= lastIndex < |quotes|
        && (if quotes[lastIndex].author.NonString? then ShowsFailure() else Shows(quotes[lastIndex]))
    {
      var loaded := LoadResult(resp);
      if loaded.None? {
        quoteText, authorText := UnableToLoad, "";
        return;
      }
      quotes := loaded.value;
      if quotes == [] {
        quoteText, authorText := UnableToLoad, "";
        return;
      }
      var completed := ShowRandomQuote(draw);
      if !completed {
        quoteText, authorText := UnableToLoad, "";
      }
    }

    /** `copyCurrentQuote()`, with the clipboard's acceptance passed in:
        returns the string handed to `navigator.clipboard.writeText` and shows
        the matching toast. */
    method CopyCurrentQuote(clipboardAccepts: bool) returns (clip: string)
      modifies this`toast
      ensures clip == ClipboardText(quoteText, authorText)
      ensures toast == Some(if clipboardAccepts then Copied else CopyFailed)
    {
      clip := ClipboardText(quoteText, authorText);
      if clipboardAccepts {
        ShowToast(Copied);
      } else {
        ShowToast(CopyFailed);
      }
    }
  }

  /** A page whose fetch fails shows the failure message and copies it alone. */
  method LoadFailureScenario() {
    var page := new Page("", "");
    page.LoadQuotes(Failed, 0);
    assert page.quoteText == UnableToLoad && page.authorText == "";
    var clip := page.CopyCurrentQuote(true);
    CopyOfFailureMessage();
    assert clip == UnableToLoad;
  }

  /** Two presses of "next" over at least two quotes show different quotes. */
  method NextTwiceScenario(items: seq<Item>, d0: nat, d1: nat, d2: nat)
    requires 2 <= |Filter(items)|
    requires d0 < |Filter(items)| && d1 < |Filter(items)| && d2 < |Filter(items)|
  {
    var page := new Page("", "");
    page.LoadQuotes(Array(items), d0);
    var first := page.lastIndex;
    var _ := page.ShowRandomQuote(d1);
    var second := page.lastIndex;
    var _ := page.ShowRandomQuote(d2);
    assert first != second && second != page.lastIndex;
  }
}

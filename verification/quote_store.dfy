/**
 * The quote store shared by the new-tab page and the background notifier:
 * the shape of the bundled `data/quotes.json` entries, the filter both
 * `loadQuotes` functions apply to them, and the author test both renderers use.
 */
module QuoteStore {
  import opened Wrappers
  import opened Text

  /** A property of a parsed JSON entry, as the code observes it:
      `Absent` is `undefined` or any other falsy non-string value (`null`,
      `false`, `0`); `Str` is a string; `NonString` is a truthy value that is
      not a string (a non-zero number, `true`, an object, an array). */
  datatype Field = Absent | Str(value: string) | NonString

  /** One element of the parsed JSON array. `NonRecord` is an element whose
      `text` property cannot be a string: a falsy value (`q &&` fails), or a
      number, string, boolean or array. Other properties of a record play no
      part in the code and are not kept. */
  datatype Item = NonRecord | Record(text: Field, author: Field)

  /** The outcome of fetching and parsing the bundled file: the fetch rejected,
      the status was not ok or `res.json()` rejected (`Failed`); the parsed
      value is not an array (`NonArray`); or it is an array of `items`. */
  datatype Response = Failed | NonArray | Array(items: seq<Item>)

  /** The filter predicate of both loaders,
      `q && typeof q.text === "string" && q.text.trim()`, as `newtab.js` and
      `background.js` test it, with "the trimmed text is non-empty" written
      as "the text is not blank" (see IsValidQuoteTrims). A kept entry's text
      holds at least one character. */
  predicate IsValidQuote(q: Item): (b: bool)
    ensures b ==> q.Record? && q.text.Str? && q.text.value != []
  {
    q.Record? && q.text.Str? && !IsBlank(q.text.value)
  }

  /** The filter predicate tests the trimmed text, as `newtab.js` and
      `background.js` do. */
  lemma IsValidQuoteTrims(q: Item)
    ensures IsValidQuote(q) <==> q.Record? && q.text.Str? && Trim(q.text.value) != []
  {
  }

  predicate AllValid(qs: seq<Item>) {
    forall k :: 0 <= k < |qs| ==> IsValidQuote(qs[k])
  }

  /** The text of a quote that passed the filter, verbatim (untrimmed). */
  function TextOf(q: Item): (t: string)
    requires IsValidQuote(q)
    ensures !IsBlank(t)
  {
    q.text.value
  }

  /** `data.filter(...)`: the entries that pass, in their original order. */
  function Filter(items: seq<Item>): (r: seq<Item>)
    ensures |r| <= |items|
    ensures AllValid(r)
    ensures forall k :: 0 <= k < |items| && IsValidQuote(items[k]) ==> items[k] in r
    ensures forall q :: q in r ==> q in items
  {
    if items == [] then []
    else if IsValidQuote(items[0]) then [items[0]] + Filter(items[1..])
    else Filter(items[1..])
  }

  /** `r` can be obtained from `s` by deleting elements, keeping the order. */
  ghost predicate IsSubsequence<T>(r: seq<T>, s: seq<T>)
    decreases |s|
  {
    r == [] || (s != [] && ((r[0] == s[0] && IsSubsequence(r[1..], s[1..])) || IsSubsequence(r, s[1..])))
  }

  /** The filter keeps the order of the entries it keeps. */
  lemma {:induction false} FilterKeepsOrder(items: seq<Item>)
    ensures IsSubsequence(Filter(items), items)
  {
    if items != [] {
      FilterKeepsOrder(items[1..]);
    }
  }

  /** Filtering a concatenation filters each part: together with the
      one-element case this determines the filter completely. */
  lemma {:induction false} FilterAppend(a: seq<Item>, b: seq<Item>)
    ensures Filter(a + b) == Filter(a) + Filter(b)
  {
    if a == [] {
      assert a + b == b;
    } else {
      assert (a + b)[1..] == a[1..] + b;
      FilterAppend(a[1..], b);
    }
  }

  /** A single entry is kept exactly when it is a valid quote. */
  lemma FilterSingle(q: Item)
    ensures Filter([q]) == if IsValidQuote(q) then [q] else []
  {
    assert [q][1..] == [];
  }

  /** The filter keeps every valid entry as many times as it occurs and drops
      every other one. */
  lemma {:induction false} FilterCounts(items: seq<Item>, q: Item)
    ensures multiset(Filter(items))[q] == if IsValidQuote(q) then multiset(items)[q] else 0
  {
    if items != [] {
      FilterCounts(items[1..], q);
      assert items == [items[0]] + items[1..];
    }
  }

  /** A list that passed the filter passes it unchanged. */
  lemma {:induction false} FilterValid(items: seq<Item>)
    requires AllValid(items)
    ensures Filter(items) == items
  {
    if items != [] {
      FilterValid(items[1..]);
    }
  }

  /** An entry whose text is one character is valid exactly when that
      character is not whitespace. */
  lemma SingleCharText(c: char, author: Field)
    ensures IsValidQuote(Record(Str([c]), author)) <==> !IsSpace(c)
  {
    assert [c][0] == c;
  }

  /** A bundled file holding "A", a blank text and "B" by "X" loads as the
      two non-blank quotes. */
  lemma LoadExample()
    ensures LoadResult(Array([Record(Str("A"), Absent), Record(Str(" "), Absent), Record(Str("B"), Str("X"))]))
         == Some([Record(Str("A"), Absent), Record(Str("B"), Str("X"))])
  {
    var a, blank, b := Record(Str("A"), Absent), Record(Str(" "), Absent), Record(Str("B"), Str("X"));
    ExampleEntries();
    FilterOfThree(a, blank, b);
  }

  lemma ExampleEntries()
    ensures IsValidQuote(Record(Str("A"), Absent))
    ensures !IsValidQuote(Record(Str(" "), Absent))
    ensures IsValidQuote(Record(Str("B"), Str("X")))
  {
    PrintableIsNotSpace('A');
    SpaceIsSpace();
    PrintableIsNotSpace('B');
    SingleCharText('A', Absent);
    SingleCharText(' ', Absent);
    SingleCharText('B', Str("X"));
  }

  lemma FilterOfThree(a: Item, b: Item, c: Item)
    requires IsValidQuote(a) && !IsValidQuote(b) && IsValidQuote(c)
    ensures Filter([a, b, c]) == [a, c]
  {
    assert [a, b, c][1..] == [b, c];
    assert [b, c][1..] == [c];
    assert [c][1..] == [];
    assert Filter([c]) == [c];
    assert Filter([b, c]) == [c];
  }

  /** What a successful load hands back (`None` when the load failed before
      the list could be assigned): the filtered array, or the empty list for a
      non-array value. */
  function LoadResult(resp: Response): (r: Option<seq<Item>>)
    ensures r.None? <==> resp.Failed?
    ensures r.Some? ==> AllValid(r.value)
    ensures r.Some? && r.value != [] ==> resp.Array?
    ensures resp.Array? ==> r == Some(Filter(resp.items))
  {
    match resp
    case Failed => None
    case NonArray => Some([])
    case Array(items) => Some(Filter(items))
  }

  /** How `q.author && q.author.trim()` comes out: the trimmed name, no name
      (absent, falsy or blank), or a TypeError because `trim` is not a method
      of a non-string value. */
  datatype AuthorInfo = Named(name: string) | Unnamed | Throws

  function ReadAuthor(a: Field): (r: AuthorInfo)
    ensures r.Throws? <==> a.NonString?
    ensures r.Named? <==> a.Str? && !IsBlank(a.value)
    ensures r.Named? ==> r.name != [] && Trim(r.name) == r.name
    ensures r.Named? ==> r.name == Trim(a.value)
  {
    match a
    case Absent => Unnamed
    case NonString => Throws
    case Str(s) =>
      if s == "" || Trim(s) == "" then Unnamed
      else
        TrimIdempotent(s);
        Named(Trim(s))
  }
}

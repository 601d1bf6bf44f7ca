/**
 * The background service worker (`background.js`): its in-memory cache
 * `QUOTES`, the cursor `lastIndex` and the throttle timestamp `lastShownAt`,
 * and the handler that turns a new-tab event into a desktop notification.
 */
module Background {
  import opened Wrappers
  import opened Text
  import opened QuoteStore
  import opened QuotePicker

  const NewTabUrl := "chrome://newtab/"
  const NewTabTitle := "New Tab"
  /** `MIN_INTERVAL_MS`: the shortest time between two accepted events. */
  const MinIntervalMs := 2500
  const NotificationType := "basic"
  const IconUrl := "assets/icon128.png"
  const NotificationTitle := "MoTABational"

  /** The properties of the created tab the handler reads (each may be
      missing). */
  datatype Tab = Tab(pendingUrl: Option<string>, url: Option<string>, title: Option<string>)

  /** The options passed to `chrome.notifications.create`. */
  datatype Notification = Notification(kind: string, iconUrl: string, title: string, message: string)

  /** `isNewTab`: the tab is the browser's new-tab page by pending URL, URL
      or title. */
  predicate IsNewTab(tab: Tab): (b: bool)
    ensures b ==> tab.pendingUrl.Some? || tab.url.Some? || tab.title.Some?
  {
    tab.pendingUrl == Some(NewTabUrl) || tab.url == Some(NewTabUrl) || tab.title == Some(NewTabTitle)
  }

  /** Each of the three tests recognises a new-tab page on its own, the
      comparisons are exact, and an ordinary page is not one. */
  lemma NewTabExamples()
    ensures IsNewTab(Tab(Some(NewTabUrl), None, None))
    ensures IsNewTab(Tab(None, Some(NewTabUrl), None))
    ensures IsNewTab(Tab(None, Some("https://example.org/"), Some(NewTabTitle)))
    ensures !IsNewTab(Tab(None, Some("chrome://newtab"), Some("New tab")))
    ensures !IsNewTab(Tab(Some("https://example.org/"), Some("https://example.org/"), Some("Example")))
  {
  }

  /** Fewer than `MIN_INTERVAL_MS` milliseconds since the last accepted
      event. A clock that has not moved forward is always throttled. */
  predicate Throttled(lastShownAt: int, now: int): (b: bool)
    ensures now <= lastShownAt ==> b
  {
    now - lastShownAt < MinIntervalMs
  }

  /** The throttle window is exactly 2500 ms: an event 2499 ms after the last
      accepted one is throttled, one 2500 ms after it is not. */
  lemma ThrottleBoundary(lastShownAt: int)
    ensures Throttled(lastShownAt, lastShownAt + MinIntervalMs - 1)
    ensures !Throttled(lastShownAt, lastShownAt + MinIntervalMs)
  {
  }

  /** A tab event the handler gets past its two early returns with: a new-tab
      page, at least 2500 ms after the last accepted event. */
  predicate Accepts(lastShownAt: int, tab: Tab, now: int): (b: bool)
    ensures b ==> IsNewTab(tab) && now >= lastShownAt + MinIntervalMs
  {
    IsNewTab(tab) && !Throttled(lastShownAt, now)
  }

  /** The notification text: the quote text verbatim, followed by " — " and
      the trimmed author only when the author is present and not blank;
      `None` when `q.author.trim()` throws. */
  function Message(q: Item): (m: Option<string>)
    requires IsValidQuote(q)
    ensures m.None? <==> q.author.NonString?
    ensures m.Some? ==> TextOf(q) <= m.value
    ensures m.Some? ==> (m.value == TextOf(q) <==> !ReadAuthor(q.author).Named?)
    ensures m.Some? && ReadAuthor(q.author).Named? ==>
      m.value == TextOf(q) + " — " + Trim(q.author.value)
  {
    match ReadAuthor(q.author)
    case Throws => None
    case Unnamed => Some(TextOf(q))
    case Named(name) => Some(TextOf(q) + " — " + name)
  }

  /** The notification shown for quote `q`, if building its message does not
      throw. */
  function NotificationFor(q: Item): (n: Option<Notification>)
    requires IsValidQuote(q)
    ensures n.None? <==> q.author.NonString?
    ensures n.Some? ==>
      && n.value.kind == NotificationType && n.value.iconUrl == IconUrl
      && n.value.title == NotificationTitle && Message(q) == Some(n.value.message)
  {
    match Message(q)
    case None => None
    case Some(m) => Some(Notification(NotificationType, IconUrl, NotificationTitle, m))
  }

  /** The cache once the handler has made sure quotes are loaded: reloaded
      from the response only when it was empty. */
  function CacheAfterLoad(quotes: seq<Item>, resp: Response): (r: seq<Item>)
    ensures quotes != [] ==> r == quotes
    ensures quotes == [] && resp.Array? ==> r == Filter(resp.items)
    ensures quotes == [] && !resp.Array? ==> r == []
    ensures AllValid(quotes) ==> AllValid(r)
  {
    if quotes == [] then LoadResult(resp).GetOr([]) else quotes
  }

  /** One tab-creation event: the tab and the value of `Date.now()`. */
  datatype Event = Event(tab: Tab, now: int)

  /** `lastShownAt` after handling event `e`: set to the event time exactly
      when the event is accepted. */
  function ShownAtAfter(lastShownAt: int, e: Event): (r: int)
    ensures r == lastShownAt || r - lastShownAt >= MinIntervalMs
    ensures !IsNewTab(e.tab) ==> r == lastShownAt
  {
    if Accepts(lastShownAt, e.tab, e.now) then e.now else lastShownAt
  }

  /** The times of the events the handler accepts, in order, from a worker
      whose `lastShownAt` is `lastShownAt`. */
  function AcceptedTimes(lastShownAt: int, events: seq<Event>): seq<int>
    decreases |events|
  {
    if events == [] then []
    else
      (if Accepts(lastShownAt, events[0].tab, events[0].now) then [events[0].now] else [])
      + AcceptedTimes(ShownAtAfter(lastShownAt, events[0]), events[1..])
  }

  /** Any two of the times `r` are at least `MIN_INTERVAL_MS` apart per step
      between them. */
  predicate Spaced(r: seq<int>) {
    forall i, j :: 0 <= i < j < |r| ==> r[j] - r[i] >= MinIntervalMs * (j - i)
  }

  /** A time at least `MIN_INTERVAL_MS` before the first of a spaced run
      extends it. */
  lemma SpacedCons(t: int, rest: seq<int>)
    requires Spaced(rest)
    requires rest != [] ==> rest[0] - t >= MinIntervalMs
    ensures Spaced([t] + rest)
  {
    var r := [t] + rest;
    forall i, j | 0 <= i < j < |r| ensures r[j] - r[i] >= MinIntervalMs * (j - i) {
      if i == 0 {
        assert r[j] == rest[j - 1];
        if j > 1 {
          assert rest[j - 1] - rest[0] >= MinIntervalMs * (j - 1);
        }
      } else {
        assert r[i] == rest[i - 1] && r[j] == rest[j - 1];
      }
    }
  }

  /** The throttle spaces accepted events: the first comes at least
      `MIN_INTERVAL_MS` after the starting timestamp and any two accepted
      events are at least that far apart per accepted event between them,
      whatever the clock does in between. */
  lemma {:induction false} AcceptedTimesSpaced(lastShownAt: int, events: seq<Event>)
    ensures var r := AcceptedTimes(lastShownAt, events);
      && |r| <= |events|
      && (r != [] ==> r[0] - lastShownAt >= MinIntervalMs)
      && Spaced(r)
    decreases |events|
  {
    if events != [] {
      var e := events[0];
      var next := ShownAtAfter(lastShownAt, e);
      AcceptedTimesSpaced(next, events[1..]);
      var rest := AcceptedTimes(next, events[1..]);
      if Accepts(lastShownAt, e.tab, e.now) {
        assert AcceptedTimes(lastShownAt, events) == [e.now] + rest;
        SpacedCons(e.now, rest);
      } else {
        assert AcceptedTimes(lastShownAt, events) == rest;
      }
    }
  }

  /** Events for tabs that are not new-tab pages are never accepted. */
  lemma {:induction false} OnlyNewTabsAccepted(lastShownAt: int, events: seq<Event>)
    requires forall k :: 0 <= k < |events| ==> !IsNewTab(events[k].tab)
    ensures AcceptedTimes(lastShownAt, events) == []
    decreases |events|
  {
    if events != [] {
      OnlyNewTabsAccepted(lastShownAt, events[1..]);
    }
  }

  /** Two new-tab events 500 ms apart on a fresh worker: only the first is
      accepted. */
  lemma ThrottleExample(t: int)
    requires t >= MinIntervalMs
    ensures var tab := Tab(Some(NewTabUrl), None, None);
      AcceptedTimes(0, [Event(tab, t), Event(tab, t + 500)]) == [t]
  {
    var tab := Tab(Some(NewTabUrl), None, None);
    var es := [Event(tab, t), Event(tab, t + 500)];
    assert IsNewTab(tab);
    assert es[1..] == [Event(tab, t + 500)];
    assert es[1..][1..] == [];
    assert AcceptedTimes(t, es[1..][1..]) == [];
    assert AcceptedTimes(t, es[1..]) == [];
    assert ShownAtAfter(0, es[0]) == t;
  }

  /** The worker's state: `QUOTES`, `lastIndex` and `lastShownAt`. */
  class Notifier {
    var quotes: seq<Item>
    var lastIndex: int
    var lastShownAt: int

    /** Only quotes that passed the filter are ever cached. */
    ghost predicate Valid()
      reads this
    {
      AllValid(quotes)
    }

    /** A worker that has just started. */
    constructor ()
      ensures Valid()
      ensures quotes == [] && lastIndex == -1 && lastShownAt == 0
    {
      quotes := [];
      lastIndex := -1;
      lastShownAt := 0;
    }

    /** `loadQuotes()` with the outcome of the fetch passed in: the filtered
        array, and the empty list on a failure or a non-array value. */
    method LoadQuotes(resp: Response)
      modifies this`quotes
      ensures Valid()
      ensures quotes == LoadResult(resp).GetOr([])
    {
      var loaded := LoadResult(resp);
      if loaded.None? {
        quotes := [];
      } else {
        quotes := loaded.value;
      }
    }

    /** `pickQuote()`: `None` on an empty cache; the only quote, leaving
        `lastIndex` alone, on a cache of one; otherwise a quote at a new index,
        which becomes `lastIndex`. */
    method PickQuote(draw: nat) returns (q: Option<Item>)
      requires Valid()
      requires 2 <= |quotes| ==> draw < |quotes|
      modifies this`lastIndex
      ensures quotes == [] ==> q == None && lastIndex == old(lastIndex)
      ensures |quotes| == 1 ==> q == Some(quotes[0]) && lastIndex == old(lastIndex)
      ensures 2 <= |quotes| ==>
        && lastIndex == AvoidRepeat(|quotes|, old(lastIndex), draw)
        && 0 <= lastIndex < |quotes| && lastIndex != old(lastIndex)
        && q == Some(quotes[lastIndex])
    {
      if quotes == [] {
        return None;
      }
      if |quotes| == 1 {
        return Some(quotes[0]);
      }
      var i := AvoidRepeat(|quotes|, lastIndex, draw);
      lastIndex := i;
      return Some(quotes[i]);
    }

    /** `maybeShowNotificationForTab(tab)`, run to completion, with
        `Date.now()`, the fetch outcome (used only if the cache is empty) and
        the random draw passed in. Returns the notification created, if any. */
    method MaybeShowNotificationForTab(tab: Tab, now: int, resp: Response, draw: nat)
      returns (shown: Option<Notification>)
      requires Valid()
      requires var n := |CacheAfterLoad(quotes, resp)|; 2 <= n ==> draw < n
      modifies this
      ensures Valid()
      ensures lastShownAt == ShownAtAfter(old(lastShownAt), Event(tab, now))
      ensures !Accepts(old(lastShownAt), tab, now) ==>
        shown == None && quotes == old(quotes) && lastIndex == old(lastIndex) && lastShownAt == old(lastShownAt)
      ensures Accepts(old(lastShownAt), tab, now) ==>
        lastShownAt == now && quotes == CacheAfterLoad(old(quotes), resp)
      ensures Accepts(old(lastShownAt), tab, now) && quotes == [] ==>
        shown == None && lastIndex == old(lastIndex)
      ensures Accepts(old(lastShownAt), tab, now) && |quotes| == 1 ==>
        shown == NotificationFor(quotes[0]) && lastIndex == old(lastIndex)
      ensures Accepts(old(lastShownAt), tab, now) && 2 <= |quotes| ==>
        && lastIndex == AvoidRepeat(|quotes|, old(lastIndex), draw)
        && shown == NotificationFor(quotes[lastIndex])
    {
      if !IsNewTab(tab) {
        return None;
      }
      if Throttled(lastShownAt, now) {
        return None;
      }
      lastShownAt := now;
      if quotes == [] {
        LoadQuotes(resp);
      }
      var q := PickQuote(draw);
      if q.None? {
        return None;
      }
      shown := NotificationFor(q.value);
    }
  }

  /** Two new-tab events 500 ms apart on a fresh worker: the second one shows
      nothing and changes nothing. */
  method HalfSecondApartScenario(t: int, resp: Response)
    requires t >= MinIntervalMs
  {
    var worker := new Notifier();
    var tab := Tab(Some(NewTabUrl), None, None);
    var _ := worker.MaybeShowNotificationForTab(tab, t, resp, 0);
    var quotes, lastIndex := worker.quotes, worker.lastIndex;
    var second := worker.MaybeShowNotificationForTab(tab, t + 500, resp, 0);
    assert second == None && worker.lastShownAt == t;
    assert worker.quotes == quotes && worker.lastIndex == lastIndex;
  }
}

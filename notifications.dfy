/** The toast notifications of both scripts: `showNotification` removes the
    notification already in the document, if any, and appends a new one; the
    `show` class is added a tick later; closing (timer, close button or, on the
    portfolio page, the Escape key) removes `show` and detaches the element
    after the hide transition. */
module Notifications {

  datatype Severity = Info | Success | Error

  /** The `type` argument as the scripts spell it. */
  function SeverityName(s: Severity): string {
    match s
    case Info => "info"
    case Success => "success"
    case Error => "error"
  }

  /** A notification the page is asked to show: its text and its type. */
  datatype Notice = Notice(message: string, severity: Severity)

  /** Class attribute of a portfolio notification: `notification notification-<type>`. */
  function PortfolioClass(s: Severity): string {
    "notification notification-" + SeverityName(s)
  }

  /** Class attribute of a site notification: `notification <type>`. */
  function SiteClass(s: Severity): string {
    "notification " + SeverityName(s)
  }

  /** The Font Awesome icon the portfolio puts in front of the message. */
  function PortfolioIcon(s: Severity): string {
    match s
    case Success => "fa-check-circle"
    case Error => "fa-exclamation-circle"
    case Info => "fa-info-circle"
  }

  /** A notification element: its message, its class attribute, its leading icon
      ("" when it has none) and whether it carries `show`. */
  class Toast {
    const message: string
    const className: string
    const icon: string
    var shown: bool

    constructor (message: string, className: string, icon: string)
      ensures this.message == message && this.className == className && this.icon == icon
      ensures !shown
    {
      this.message := message;
      this.className := className;
      this.icon := icon;
      shown := false;
    }

    /** The tick after appending: the element gets the `show` class. */
    method Reveal()
      modifies this`shown
      ensures shown
    {
      shown := true;
    }

    /** `removeNotification` up to the hide transition: `show` is removed. */
    method Hide()
      modifies this`shown
      ensures !shown
    {
      shown := false;
    }
  }

  /** The notifications attached to the document, in document order. */
  function AfterShow(live: seq<Toast>, t: Toast): (r: seq<Toast>)
    ensures |r| >= 1 && r[|r| - 1] == t
    ensures |live| <= 1 ==> r == [t]
    ensures |r| == if live == [] then 1 else |live|
  {
    (if live == [] then [] else live[1..]) + [t]
  }

  /** The document with the element `t` detached (a no-op when it is not attached). */
  function Without(live: seq<Toast>, t: Toast): (r: seq<Toast>)
    ensures t !in r
    ensures forall i :: 0 <= i < |r| ==> r[i] in live
    ensures forall i :: 0 <= i < |live| && live[i] != t ==> live[i] in r
    ensures |r| <= |live|
    decreases |live|
  {
    if live == [] then []
    else if live[0] == t then Without(live[1..], t)
    else [live[0]] + Without(live[1..], t)
  }

  class Page {
    /** The elements with class `notification` in the document, in document order. */
    var live: seq<Toast>

    /** The single-live-notification rule. */
    ghost predicate Valid()
      reads this
    {
      |live| <= 1
    }

    constructor ()
      ensures Valid() && live == []
    {
      live := [];
    }

    /** `showNotification(message, type)`: the first notification in the document is
        removed and a new element, not yet shown, is appended after the others. */
    method Show(message: string, className: string, icon: string) returns (t: Toast)
      modifies this
      ensures fresh(t) && t.message == message && t.className == className && t.icon == icon
      ensures !t.shown
      ensures live == AfterShow(old(live), t)
      ensures old(Valid()) ==> Valid() && live == [t]
    {
      t := new Toast(message, className, icon);
      if live != [] {
        live := live[1..];
      }
      live := live + [t];
    }

    /** The portfolio's `showNotification`, whose class is `notification notification-<type>`. */
    method ShowPortfolio(n: Notice) returns (t: Toast)
      modifies this
      ensures fresh(t) && t.message == n.message && t.className == PortfolioClass(n.severity)
      ensures t.icon == PortfolioIcon(n.severity) && !t.shown
      ensures live == AfterShow(old(live), t)
      ensures old(Valid()) ==> Valid() && live == [t]
    {
      t := Show(n.message, PortfolioClass(n.severity), PortfolioIcon(n.severity));
    }

    /** The site's `showNotification`, whose class is `notification <type>`. */
    method ShowSite(n: Notice) returns (t: Toast)
      modifies this
      ensures fresh(t) && t.message == n.message && t.className == SiteClass(n.severity)
      ensures t.icon == "" && !t.shown
      ensures live == AfterShow(old(live), t)
      ensures old(Valid()) ==> Valid() && live == [t]
    {
      t := Show(n.message, SiteClass(n.severity), "");
    }

    /** The end of the hide transition: `t.remove()` detaches the element,
        whether or not a newer notification already replaced it. */
    method Detach(t: Toast)
      modifies this
      ensures live == Without(old(live), t)
      ensures old(Valid()) ==> Valid()
    {
      live := Without(live, t);
    }

    /** The portfolio's Escape key: the first notification in the document,
        if there is one, starts closing. */
    method OnEscape() returns (closing: Toast?)
      modifies set t | t in live
      ensures closing == (if old(live) == [] then null else old(live)[0])
      ensures closing != null ==> !closing.shown
      ensures live == old(live)
      ensures forall t :: t in live && t != closing ==> t.shown == old(t.shown)
    {
      if live == [] {
        closing := null;
      } else {
        closing := live[0];
        closing.Hide();
      }
    }
  }

  /** Two calls in a row, before the first has closed, leave exactly one
      notification: the second. */
  method ShowTwice(page: Page, first: Notice, second: Notice) returns (t: Toast)
    requires page.Valid()
    modifies page
    ensures page.Valid() && page.live == [t] && t.message == second.message
  {
    var _ := page.ShowSite(first);
    t := page.ShowSite(second);
  }
}

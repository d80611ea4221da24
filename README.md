# Portfolio page scripts — a Dafny model

This project models the behaviour of the two page scripts of a personal
portfolio site. `assets/js/script.js` is the portfolio page; its members are
named `Portfolio…`. `script.js` is the simpler site page; its members are named
`Site…`. Both scripts are DOM event handlers. The model keeps the decision
rules inside those handlers and states them over plain data:

- **EmailPattern.** The e-mail regular expression `^[^\s@]+@[^\s@]+\.[^\s@]+$`.
  It is characterised as "no white space, exactly one `@`, a non-empty local
  part, and a domain with a dot that is neither its first nor its last character".
- **ContactForm.** Both submit handlers. The required-field check runs first,
  then the e-mail check. A valid form enters the loading state. The portfolio
  also defaults the subject and builds the `mailto:` link. After the delay comes
  the completion: success notification, form reset, button restored.
- **Notifications.** The single-live-notification rule of `showNotification`,
  its `show` class, closing and detaching, and the Escape key. A `Page` class
  holds the attached notifications as a sequence of `Toast` objects.
- **ActiveLink.** Both `updateActiveLink` policies, as loops over an array of
  link flags. Each loop is proved against a fold over the sections.
  - The portfolio clears all links and marks the link of every section in view,
    so the last one in view wins.
  - The site sets or clears each section's own link.
- **Navigation.** The menu state machine of both pages: toggle, link click,
  Escape, the toggle's icon, and the navbar's `scrolled` class.
- **BackToTop.** The back-to-top button, as a `Button` object whose scroll
  listener sets its `visible` class from the scroll offset and a threshold.
- **CursorTrail.** The cursor-trail list. It is a bounded first-in first-out
  list of the last ten marks.
- **Counter.** The animated counters, written as a tick loop.
  - The stat cards split their text into digits and suffix.
  - The portfolio's skill bars and the site's skill percentages read their
    target with `parseInt`.
- **Footer.** `setCurrentYear`. This includes the replacement of the
  copyright year in the portfolio's footer.
- **Strings.** The pieces of JavaScript these rules rely on: `\s`, `\d`,
  `parseInt`, `Math.round` and the decimal text of an integer.

## Model

| member | source | states |
|---|---|---|
| EmailPattern.RegexTestIsWellFormed | assets/js/script.js:159-164 | The regex accepts an address exactly when all of these hold: it has no white space, it has exactly one `@`, the part before the `@` is non-empty, and the part after it has a `.` that is neither its first nor its last character. |
| EmailPattern.Examples | script.js:132-137 | The regex accepts `ana@example.com` and rejects `not-an-email`. |
| ContactForm.Validate | assets/js/script.js:153-164 | A form passes exactly when name, e-mail and message are non-empty and the e-mail is well formed. A missing field gives the required-fields message even when the e-mail is also bad. A bad e-mail alone gives the invalid-e-mail message. White-space-only values are not trimmed. |
| ContactForm.Subject | assets/js/script.js:150 | An empty subject field becomes `Contact depuis le portfolio`, and any other value is kept. So the subject is never empty. |
| ContactForm.MailBodyInjective | assets/js/script.js:173 | The mail body `Nom: …\nEmail: …\n\nMessage:\n…` loses nothing. When name and e-mail hold no line break, equal bodies mean equal name, e-mail and message. |
| ContactForm.PortfolioSubmit | assets/js/script.js:144-173 | A submission is rejected exactly when validation fails, always with an error notice. The notice carries the required-fields message when a field is missing, and the invalid-e-mail message when only the address is bad. Otherwise the fields are kept and the button shows the spinner and is disabled. The old label is saved, and the `mailto:` link goes to the fixed recipient with the defaulted subject and the body. |
| ContactForm.SiteSubmit | script.js:119-143 | The same checks in the same order, with the same two messages. Then the loading state, with no subject default and no link. |
| ContactForm.PortfolioRoundTrip | assets/js/script.js:166-188 | A submission that gets through ends with the button exactly as it was before, enabled, and the fields cleared. The browser goes to that form's mail link. |
| ContactForm.SiteExamples | script.js:126-159 | On the site: `not-an-email` is rejected with the invalid-e-mail message. `ana@example.com` enters the loading state and completes with the button as it was. |
| Notifications.AfterShow | assets/js/script.js:195-216 | After a show, the new notification is last. When at most one was attached, it is the only one. The count never grows beyond what it was, except from zero to one. |
| Notifications.Without | assets/js/script.js:240-242 | Detaching removes that element and keeps every other element. |
| Notifications.Page.Show | assets/js/script.js:194-216 | The first attached notification is removed and a fresh one, not yet shown, is appended. This keeps the at-most-one rule, leaving exactly the new one. |
| Notifications.Page.ShowPortfolio | assets/js/script.js:194-216 | The portfolio notice has class `notification notification-<type>` and the icon for its type. |
| Notifications.Page.ShowSite | script.js:164-180 | The site notice has class `notification <type>` and no icon. Afterwards exactly one notification exists. |
| Notifications.Toast.Reveal | assets/js/script.js:218-221 | The tick after appending adds `show`. |
| Notifications.Toast.Hide | assets/js/script.js:238-239 | Closing removes `show`. |
| Notifications.Page.Detach | assets/js/script.js:240-242 | The end of the transition detaches the element and keeps the at-most-one rule. |
| Notifications.Page.OnEscape | assets/js/script.js:668-674 | Escape starts closing the first attached notification, if any. Nothing else changes. |
| Notifications.ShowTwice | script.js:164-180 | Two shows in a row leave one notification: the second. |
| ActiveLink.PortfolioPass | assets/js/script.js:81-93 | The portfolio's pass keeps the number of link flags. |
| ActiveLink.LastInView | assets/js/script.js:81-93 | This finds the last section whose band contains `offset + 100`. It returns none exactly when no section's band does. |
| ActiveLink.PortfolioPassResult | assets/js/script.js:77-94 | With a section in view, only the last such section's link is active afterwards, or no link if that section has none. With no section in view, the flags are unchanged. |
| ActiveLink.PortfolioKeepsAtMostOne | assets/js/script.js:87-92 | The portfolio never leaves two links active once some section is in view, or when at most one was active. |
| ActiveLink.UpdatePortfolio | assets/js/script.js:77-94 | The in-place loop over the flag array computes the portfolio's pass. It has the last-in-view result above. |
| ActiveLink.SitePass | script.js:58-69 | The site's pass keeps the number of link flags. |
| ActiveLink.LastLinking | script.js:58-69 | This finds the last section pointing to link `k`. It returns none exactly when no section does. |
| ActiveLink.SitePassResult | script.js:54-70 | Afterwards each link shows the band test of the last section pointing to it. A link no section points to is untouched. |
| ActiveLink.SiteNoneInViewClears | script.js:64-68 | With no section in view, every link some section points to is cleared. |
| ActiveLink.SiteOverlapBothActive | script.js:64-65 | Two overlapping sections in view, each the last to point to its own link, leave both links active. |
| ActiveLink.SiteAtMostOneWhenDisjoint | script.js:54-70 | When every link belongs to some section and at most one section is in view, at most one link is active afterwards, whatever was active before. |
| ActiveLink.SiteStaleFlag | script.js:45-46 | A link no section points to keeps the flag a click set. So one section in view can leave two links active: the clicked link and the section's link. |
| ActiveLink.UpdateSite | script.js:54-70 | The in-place loop over the flag array computes the site's pass, link by link as above. |
| Navigation.PortfolioNav.Toggle | assets/js/script.js:33-43 | A toggle flips the menu and sets the icon from the new state. |
| Navigation.PortfolioNav.LinkClicked | assets/js/script.js:47-56 | A link click leaves the menu closed with the bars icon. |
| Navigation.PortfolioNav.OnKey | assets/js/script.js:652-666 | Escape on an open menu closes it and shows the bars icon. Any other key, or Escape on a closed menu, changes nothing. Icon consistency is kept. |
| Navigation.PortfolioNav.OnScroll | assets/js/script.js:60-74 | The navbar is `scrolled` exactly past 50 pixels, and the links follow the portfolio's pass. |
| Navigation.SiteNav.Toggle | script.js:29-35 | A toggle flips the menu and replaces the icon according to the new state. |
| Navigation.SiteNav.ClickLink | script.js:39-48 | A click on link `i` closes the menu and shows the bars icon. Link `i` is then the only active link. |
| Navigation.SiteNav.OnScroll | script.js:51 | A scroll applies the site's pass to the links. |
| Navigation.PortfolioToggleTwice | assets/js/script.js:33-43 | Two toggles restore the menu and the icon. |
| Navigation.SiteToggleTwice | script.js:29-35 | Two toggles restore the menu and the icon. |
| BackToTop.Button.Portfolio | assets/js/script.js:2-7 | The portfolio's button shows past `CONFIG.scrollThreshold`, which is 100. |
| BackToTop.Button.Site | script.js:98 | The site's button shows past 300. |
| BackToTop.Button.OnScroll | assets/js/script.js:121-128 | After a scroll event the button has the class `visible` exactly when the page is scrolled past the threshold. Nothing else changes. |
| BackToTop.ScrollTwice | script.js:97-103 | The button has no memory: after two scrolls its state depends on the second offset alone. |
| CursorTrail.Recent | assets/js/script.js:507-513 | The kept marks never number more than ten. |
| CursorTrail.Admit | assets/js/script.js:507-513 | The new mark goes last. Below ten marks nothing is evicted. At ten marks exactly the oldest is evicted. A list of at most ten stays at most ten. |
| CursorTrail.AdmitKeepsRecent | assets/js/script.js:500-513 | Admitting a mark to the last ten marks of a history gives the last ten of the longer history, so order is kept. |
| CursorTrail.Trail.Push | assets/js/script.js:500-519 | `createCursorTrail` keeps the list equal to the last ten marks created. It returns the evicted oldest mark exactly when the list was full. |
| CursorTrail.Trail.OnMouseMove | assets/js/script.js:494-504 | Moves add marks only when the window was wider than 968 pixels at start-up. The mark added sits 5 pixels left of and above the pointer. |
| Counter.RunCounter | assets/js/script.js:389-401 | The tick loop shows these values: on tick `k`, `round(start + k·increment)` while that is below the target; on the first tick that reaches it, `round(end)`; then it stops. |
| Counter.RunIsUnique | assets/js/script.js:393-400 | Start, target and increment determine the displayed sequence. |
| Counter.RunNeverPassesTarget | assets/js/script.js:395-399 | The clamp: no tick shows more than `round(end)`, and the last shows exactly that. |
| Counter.RunClimbs | assets/js/script.js:389-401 | For a climbing counter, the values never decrease and never go below `round(start)`. |
| Counter.RunAtOrBelowStart | assets/js/script.js:394-399 | A target at or below the start is shown on the first tick, which is the last. |
| Counter.LongDurationSettles | assets/js/script.js:390 | With a duration of at least one 16 ms tick, the counter always stops. |
| Counter.AnimateCounter | assets/js/script.js:389-401 | `animateCounter` runs the tick loop with increment `(end - start) / (duration / 16)`. Its last text is `round(end)` followed by the suffix. |
| Counter.StatTarget | assets/js/script.js:383 | A stat's target is the decimal value of the text's digits, or NaN when there are none. |
| Counter.AnimateStatCard | assets/js/script.js:379-387 | A stat counts from 0 to its digits' value with the non-digit text as suffix, and ends on that text. A text without digits shows `NaN` with the suffix for ever. |
| Counter.StatCardRoundTrip | assets/js/script.js:379-387 | A stat written as a number and a digit-free suffix, such as `120+`, ends exactly as written. |
| Counter.StatCardSeparatorMoves | assets/js/script.js:383-384 | A separator inside the number moves behind it: `1,200+` ends as `1200,+`. |
| Counter.AnimateSkillBar | assets/js/script.js:360-377 | A skill bar counts to `parseInt` of its text, with no suffix, and ends on the bare integer. NaN shows `NaN`. |
| Counter.SkillBarEndsBare | assets/js/script.js:366-374 | `85%` is read as 85 and the bar ends on `85`: the text after the number is dropped. The one exception is `0` followed by `x` or `X`. |
| Counter.SiteCounterSettles | script.js:341-347 | The site's counter stops for every target. |
| Counter.SiteSkillCounter | script.js:339-350 | The site counts to `parseInt` of the text in steps of a fiftieth and ends on `<target>%`. NaN shows `NaN%`. |
| Counter.SiteCounterFiftyTicks | script.js:341-347 | A positive target takes exactly fifty ticks, in exact arithmetic. |
| Counter.SiteSkillRoundTrip | script.js:339-349 | `85%` ends as `85%` on the site. |
| Footer.FindYear | assets/js/script.js:599 | This finds the leftmost match of the lead followed by four digits, or reports that none exists. |
| Footer.ReplaceYear | assets/js/script.js:599 | Only the first match is replaced by the lead and the year. Everything before and after it is kept. Without a match the text is unchanged. |
| Footer.AsWrittenNeverMatches | assets/js/script.js:598-599 | As written, `/&copy; \d{4}/` never matches serialized inner HTML, so the footer's serialized inner HTML is never changed. |
| Footer.AsWrittenKeepsOldYear | assets/js/script.js:598-599 | A footer reading `© 2024…` stays at 2024 whatever the current year. |
| Footer.CorrectedIsIdempotent | assets/js/script.js:599 | With the corrected lead `© `, replacing the year twice gives the same result as replacing it once. |
| Footer.CorrectedShowsYear | assets/js/script.js:599 | With the corrected lead, the footer shows `© ` followed by the current year where the old year was. |
| Footer.YearText | assets/js/script.js:600-601 | A `current-year` element's text reads back as the year. |
| Footer.PortfolioSetYearAsWritten | assets/js/script.js:593-604 | As written, every `current-year` element shows the year, and every footer's serialized inner HTML is left unchanged. |
| Footer.PortfolioSetYearCorrected | assets/js/script.js:593-604 | With the sign itself in the pattern, every `current-year` element shows the year. A footer with `© ` and a year shows `© ` and the current year in that place. A footer without one is unchanged. |
| Footer.SiteSetYear | script.js:308-316 | Every `current-year` element shows the year. |
| Strings.Round | assets/js/script.js:399 | `Math.round` returns the integer within one half of its argument, with halves rounded up. |
| Strings.ParseIntOfIntToString | script.js:339 | `parseInt` reads back the decimal text of any integer. |
| Strings.ParseIntOfDigits | assets/js/script.js:383 | `parseInt` of a digit string is its decimal value, even with leading zeros. |
| Strings.ParseIntOfDigitsThenText | assets/js/script.js:366 | `parseInt` stops at the first non-digit: digits then other text give the digits' value, so `85%` and `85x` both read as 85. The one exception is the text `0` followed by `x` or `X`, which starts hexadecimal. |
| Strings.Digits | assets/js/script.js:383 | `replace(/\D/g, '')` keeps only digits. |
| Strings.NonDigits | assets/js/script.js:384 | `replace(/[0-9]/g, '')` keeps only non-digits. |
| Strings.SplitSizes | assets/js/script.js:383-384 | The two parts together have exactly the text's length. |
| Strings.SplitConcat | assets/js/script.js:383-384 | Splitting a concatenation concatenates the splits. |
| Strings.SplitOfDigitsThenSuffix | assets/js/script.js:383-384 | Digits followed by a digit-free suffix split back into exactly those two parts. |
| Strings.NatToStringOfValue | assets/js/script.js:399 | The printed value of a canonical digit string is that string. |
| Strings.ValueOfNatToString | assets/js/script.js:399 | The printed text of a number reads back as the number. |

## Left out

- Event-listener registration, `DOMContentLoaded`, IntersectionObserver wiring and `unobserve` are not modelled. Each handler is modelled as the operation it runs.
- Timers are not modelled. The 10, 300, 500, 1500 and 5000 ms delays are ordering only. Counter ticks are a sequence, not real time. Auto-removal of a notification is the same `Hide` and `Detach` as the close button.
- Smooth scrolling, the back-to-top click's `scrollTo`, particles, the typing effect, scroll progress, project-card glow, injected CSS and console logs have no decision rule to state.
- `encodeURIComponent` is a function parameter of the mail link. `FormData`, `window.location.href` and `new Date().getFullYear()` are foreign calls. Navigation is a returned value and the year is a parameter.
- `contactForm.reset()` is modelled as emptying every field. Default values in the form's markup are not modelled.
- The portfolio reads each field through `#id` and then `[name=…]`. Both lookups are modelled as one value, with a missing field reading as empty.
- Floating point is replaced by exact reals for the counters. Scroll offsets and pointer coordinates are integers, while `pageYOffset` is a double. Nothing is lost there, because every bound an offset is compared against (50, 100, 300, a section's top and height) is an integer, so a fractional offset behaves like its ceiling. Accumulated rounding error could add one extra tick, and `parseInt` of more than 2^53 loses precision; neither is modelled.
- Strings are sequences of Unicode code points, not UTF-16 code units. The `\s` class is listed code point by code point.
- When a page has no `#backToTop` element, no listener is registered. The model starts from the button that exists.
- Skill-bar widths (`style.width`, `data-width`) are not modelled, because they are only CSS values.
- Footer.PortfolioSetYearAsWritten: treats the matched elements as independent, so it assumes no `.current-year` element sits inside a `.footer-bottom` element. Line 599 assigns `innerHTML` on every call, even without a match. That re-parses the footer, so a `.current-year` inside it would be detached before line 601 sets its text, and the page would keep the old year. The re-parse also drops listeners on the footer's descendants. Only the footer's serialized inner HTML is unchanged.
- Footer.PortfolioSetYearCorrected: makes the same assumption of no `.current-year` inside a `.footer-bottom`, because the corrected replacement re-parses the footer the same way.
- Navigation.PortfolioNav.OnScroll: assumes the page has a `.navbar`. Without one, the portfolio's scroll handler throws when it sets the `scrolled` class, before `updateActiveLink` runs, so the links never update.
- ContactForm.PortfolioSubmit: assumes the form has a `button[type="submit"]`. Without one, the handler throws after validation succeeds, so there is no loading state, no mail link and no completion.
- ContactForm.SiteSubmit: assumes the form has a `button[type="submit"]`. Without one, the handler throws after validation succeeds, so there is no loading state and no completion.
- Navigation.SiteNav.ClickLink: assumes the menu toggle exists. Without it the site's handler throws before it updates the links.
- Navigation.PortfolioNav.LinkClicked: assumes the menu toggle exists. Without it, only the icon update is skipped.
- Notifications.Page.Show: a message is stored as text. The scripts interpolate it into HTML, which is not parsed here.
- Footer.Serialized: covers only serialized text and attributes. Comments and raw-text elements, whose contents are serialized verbatim, are not covered.
- Counter.RunCounter: requires the counter to settle (`Settles`). A counter that never reaches its target is not modelled. Only a duration below one 16 ms tick can cause one; the scripts pass only 1500 and 2000.

## Findings

| source | as written | input that shows it | evidently intended | confidence | as-written member | corrected member |
|---|---|---|---|---|---|---|
| assets/js/script.js:599 | The footer's year is replaced through `/&copy; \d{4}/` on `innerHTML`. Serialized inner HTML writes the copyright sign as the character `©` and `&` only as `&amp;`, `&nbsp;`, `&lt;`, `&gt;` or `&quot;`. So the pattern never matches. | A footer written as `&copy; 2024 Aymane` serializes as `© 2024 Aymane` and keeps 2024 in 2026. | Match the sign itself (`/© \d{4}/`), so the copyright year becomes the current year. | high, not executed | Footer.PortfolioSetYearAsWritten | Footer.PortfolioSetYearCorrected |

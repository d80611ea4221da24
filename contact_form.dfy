/** The submit handlers of the contact form. Both check the required fields,
    then the e-mail shape; on success they put the submit button into a loading
    state and, when the delay has passed, show a success notification, reset
    the form and restore the button. The portfolio page (assets/js/script.js)
    also defaults the subject and hands a `mailto:` link to the browser; the
    site page (script.js) only simulates sending. */
module ContactForm {
  import opened Strings
  import opened EmailPattern
  import opened Notifications

  const RequiredMessage := "Veuillez remplir tous les champs obligatoires."
  const InvalidEmailMessage := "Veuillez entrer une adresse email valide."
  const Recipient := "aymanesarhane999@gmail.com"
  const DefaultSubject := "Contact depuis le portfolio"
  const SendingLabel := "<i class=\"fas fa-spinner fa-spin\"></i> Envoi en cours..."
  const PortfolioThanks := "Votre client email va s'ouvrir. Merci pour votre message !"
  const SiteThanks := "Message envoyé avec succès ! Je vous répondrai dès que possible."

  /** The values of the form's fields; a field that is missing or empty reads as "". */
  datatype Fields = Fields(name: string, email: string, subject: string, message: string)

  /** The submit button: its inner HTML and whether it is disabled. */
  datatype Button = Button(html: string, disabled: bool)

  datatype Form = Form(fields: Fields, button: Button)

  /** What a submit event leads to. */
  datatype Submission =
    | Rejected(notice: Notice)
      // an error notification; the form is left as it was
    | Sending(form: Form, savedHtml: string, mailto: Option<string>)
      // the loading state, the label to restore and, on the portfolio page, the mail link

  /** What the delayed completion leads to. */
  datatype Completion = Completion(form: Form, notice: Notice, navigate: Option<string>)

  const Cleared := Fields("", "", "", "")

  predicate RequiredPresent(f: Fields) {
    f.name != "" && f.email != "" && f.message != ""
  }

  /** The two checks, in the order both handlers run them: required fields
      first, then the e-mail regex. `None` means the form may be sent. */
  function Validate(f: Fields): (r: Option<string>)
    ensures r == None <==> RequiredPresent(f) && WellFormedAddress(f.email)
    ensures !RequiredPresent(f) ==> r == Some(RequiredMessage)
    ensures RequiredPresent(f) && !WellFormedAddress(f.email) ==> r == Some(InvalidEmailMessage)
  {
    RegexTestIsWellFormed(f.email);
    if !RequiredPresent(f) then Some(RequiredMessage)
    else if !RegexTest(f.email) then Some(InvalidEmailMessage)
    else None
  }

  /** The portfolio's subject: the field, or the default when it is empty. */
  function Subject(f: Fields): (s: string)
    ensures f.subject == "" ==> s == DefaultSubject
    ensures f.subject != "" ==> s == f.subject
    ensures s != ""
  {
    if f.subject == "" then DefaultSubject else f.subject
  }

  /** The body of the portfolio's mail. */
  function MailBody(f: Fields): string {
    "Nom: " + f.name + ("\nEmail: " + (f.email + ("\n\nMessage:\n" + f.message)))
  }

  /** The portfolio's `mailto:` link; `encode` stands for `encodeURIComponent`. */
  function MailtoLink(f: Fields, encode: string -> string): string {
    "mailto:" + Recipient + "?subject=" + encode(Subject(f)) + "&body=" + encode(MailBody(f))
  }

  predicate NoNewline(s: string) {
    forall i :: 0 <= i < |s| ==> s[i] != '\n'
  }

  /** The body loses nothing: when the name and the e-mail hold no line break
      (a text input cannot hold one, and a valid address holds no white space),
      the body determines the name, the e-mail and the message. */
  lemma MailBodyInjective(f: Fields, g: Fields)
    requires NoNewline(f.name) && NoNewline(g.name) && NoNewline(f.email) && NoNewline(g.email)
    requires MailBody(f) == MailBody(g)
    ensures f.name == g.name && f.email == g.email && f.message == g.message
  {
    var tf, tg := "\n\nMessage:\n" + f.message, "\n\nMessage:\n" + g.message;
    var rf, rg := f.email + tf, g.email + tg;
    var xf, xg := "\nEmail: " + rf, "\nEmail: " + rg;
    assert MailBody(f) == "Nom: " + f.name + xf;
    assert MailBody(g) == "Nom: " + g.name + xg;
    LineAt(f.name, xf, g.name, xg, "Nom: ");
    assert rf == xf[8..] && rg == xg[8..];
    assert "" + f.email + tf == rf && "" + g.email + tg == rg;
    LineAt(f.email, tf, g.email, tg, "");
    assert f.message == tf[11..] && g.message == tg[11..];
  }

  /** A line with no break, followed by text starting with a break, is recovered
      from the whole: it ends at the first break. */
  lemma LineAt(x: string, xr: string, y: string, yr: string, lead: string)
    requires NoNewline(x) && NoNewline(y) && NoNewline(lead)
    requires |xr| > 0 && xr[0] == '\n' && |yr| > 0 && yr[0] == '\n'
    requires lead + x + xr == lead + y + yr
    ensures x == y && xr == yr
  {
    var s := lead + x + xr;
    BreakEndsLine(lead, x, xr);
    BreakEndsLine(lead, y, yr);
    assert |x| == |y|;
    assert x == s[|lead|..|lead| + |x|];
    assert y == s[|lead|..|lead| + |y|];
    assert xr == s[|lead| + |x|..];
    assert yr == s[|lead| + |y|..];
  }

  lemma BreakEndsLine(lead: string, x: string, xr: string)
    requires NoNewline(x) && |xr| > 0 && xr[0] == '\n'
    ensures forall i :: |lead| <= i < |lead| + |x| ==> (lead + x + xr)[i] != '\n'
    ensures (lead + x + xr)[|lead| + |x|] == '\n'
  {
    var s := lead + x + xr;
    forall i | |lead| <= i < |lead| + |x| ensures s[i] != '\n' {
      assert s[i] == x[i - |lead|];
    }
  }

  /** The loading state: the submit button shows the spinner and is disabled. */
  function Loading(form: Form): Form {
    Form(form.fields, Button(SendingLabel, true))
  }

  /** The portfolio's submit handler (assets/js/script.js). */
  function PortfolioSubmit(form: Form, encode: string -> string): (r: Submission)
    ensures r.Rejected? <==> !(RequiredPresent(form.fields) && WellFormedAddress(form.fields.email))
    ensures r.Rejected? ==> r.notice.severity == Error
    ensures !RequiredPresent(form.fields) ==> r == Rejected(Notice(RequiredMessage, Error))
    ensures RequiredPresent(form.fields) && !WellFormedAddress(form.fields.email) ==>
              r == Rejected(Notice(InvalidEmailMessage, Error))
    ensures r.Sending? ==> r.form.fields == form.fields && r.form.button == Button(SendingLabel, true)
    ensures r.Sending? ==> r.savedHtml == form.button.html
    ensures r.Sending? ==> r.mailto == Some(MailtoLink(form.fields, encode))
  {
    match Validate(form.fields)
    case Some(e) => Rejected(Notice(e, Error))
    case None => Sending(Loading(form), form.button.html, Some(MailtoLink(form.fields, encode)))
  }

  /** The site's submit handler (script.js): the same checks, no subject default and no link. */
  function SiteSubmit(form: Form): (r: Submission)
    ensures r.Rejected? <==> !(RequiredPresent(form.fields) && WellFormedAddress(form.fields.email))
    ensures r.Rejected? ==> r.notice.severity == Error
    ensures !RequiredPresent(form.fields) ==> r == Rejected(Notice(RequiredMessage, Error))
    ensures RequiredPresent(form.fields) && !WellFormedAddress(form.fields.email) ==>
              r == Rejected(Notice(InvalidEmailMessage, Error))
    ensures r.Sending? ==> r.form.fields == form.fields && r.form.button == Button(SendingLabel, true)
    ensures r.Sending? ==> r.savedHtml == form.button.html && r.mailto == None
  {
    match Validate(form.fields)
    case Some(e) => Rejected(Notice(e, Error))
    case None => Sending(Loading(form), form.button.html, None)
  }

  /** The delayed completion of a submission: the browser is sent to the mail link
      (portfolio), a success notification is shown, the form is reset and the
      button gets its label back and is enabled again. */
  function Complete(s: Submission, thanks: string): (c: Completion)
    requires s.Sending?
    ensures c.form == Form(Cleared, Button(s.savedHtml, false))
    ensures c.notice == Notice(thanks, Success) && c.navigate == s.mailto
  {
    Completion(Form(Cleared, Button(s.savedHtml, false)), Notice(thanks, Success), s.mailto)
  }

  /** A submission that gets through ends with the button exactly as it was
      before, enabled, and the fields cleared. */
  lemma {:induction false} PortfolioRoundTrip(form: Form, encode: string -> string)
    ensures var s := PortfolioSubmit(form, encode);
      s.Sending? ==>
        var c := Complete(s, PortfolioThanks);
        c.form == Form(Cleared, Button(form.button.html, false))
        && c.navigate == Some(MailtoLink(form.fields, encode))
  {
  }

  /** Two example submissions on the site's handler: one with a bad address, one that is sent. */
  lemma SiteExamples(button: Button)
    ensures SiteSubmit(Form(Fields("Ana", "not-an-email", "", "hi"), button))
      == Rejected(Notice(InvalidEmailMessage, Error))
    ensures var s := SiteSubmit(Form(Fields("Ana", "ana@example.com", "", "hi"), button));
      s.Sending? && s.form.button == Button(SendingLabel, true)
      && Complete(s, SiteThanks).form == Form(Cleared, Button(button.html, false))
  {
    Examples();
    RegexTestIsWellFormed("not-an-email");
    RegexTestIsWellFormed("ana@example.com");
  }
}

/** `processEmail` (app.js) and the part of the mail parser's callback that feeds it:
    classify the subject, extract content from the body, and update the store only
    when both give something. */
module Pipeline {
  import opened Wrappers
  import opened JsText
  import opened SubjectClassifier
  import opened ContentExtractor
  import opened ContentDocument
  import opened ContentStorage

  /** What `processEmail` decides to do with one message. */
  datatype Action = Skip | Apply(page: Page, content: string)

  /** The branching of `processEmail`: a recognised page and a truthy (non-empty)
      extraction lead to an update; anything else is skipped. */
  function Decide(subject: string, body: string, ask: string -> ServiceReply): (a: Action)
    ensures a.Apply? <==> Classify(subject).Some? && Extract(body, ask).Some? && Extract(body, ask).value != ""
    ensures a.Apply? ==> a.page == Classify(subject).value && a.content == Extract(body, ask).value
  {
    match Classify(subject)
    case None => Skip
    case Some(page) =>
      var found := Extract(body, ask);
      if found.Some? && found.value != "" then Apply(page, found.value) else Skip
  }

  /** A subject that names no page is skipped before the service is asked anything. */
  lemma UnrecognisedSubjectNeverAsks(subject: string, body: string, ask1: string -> ServiceReply, ask2: string -> ServiceReply)
    requires Classify(subject) == None
    ensures Decide(subject, body, ask1) == Decide(subject, body, ask2) == Skip
  {
  }

  /** The content that reaches the store is never empty, never the sentinel, and has
      no surrounding white space. */
  lemma AppliedContentIsUsable(subject: string, body: string, ask: string -> ServiceReply)
    requires Decide(subject, body, ask).Apply?
    ensures var c := Decide(subject, body, ask).content; c != "" && c != Sentinel && Trimmed(c)
  {
  }

  /** A reply of only white space trims to "", which is falsy, so nothing is updated. */
  lemma BlankReplySkips(subject: string, body: string, ask: string -> ServiceReply)
    requires Clean(body) != [] && ask(Clean(body)).Reply? && AllSpace(ask(Clean(body)).text)
    ensures Decide(subject, body, ask) == Skip
  {
    BlankReply(body, ask);
  }

  /** `processEmail`: the store changes exactly when the decision is an update, and
      then as `updateContent` changes it. */
  method ProcessEmail(store: ContentStore, subject: string, body: string, ask: string -> ServiceReply, today: string)
    modifies store`file
    ensures Decide(subject, body, ask).Skip? ==> store.file == old(store.file)
    ensures Decide(subject, body, ask).Apply? ==>
              store.file == Updated(old(store.file), store.writable, Name(Decide(subject, body, ask).page),
                                    Decide(subject, body, ask).content, today)
  {
    var pageToUpdate := Classify(subject);
    if pageToUpdate.Some? {
      var newContent := Extract(body, ask);
      if newContent.Some? && newContent.value != "" {
        store.Update(Name(pageToUpdate.value), newContent.value, today);
      }
    }
  }

  /** A message as the mail parser hands it over; absent parts are `None`. */
  datatype ParsedMail = ParsedMail(subject: Option<string>, text: Option<string>, html: Option<string>)

  /** JavaScript's `part || fallback` for a string part that may be absent: an absent
      or empty part gives the fallback. */
  function OrElse(part: Option<string>, fallback: string): (r: string)
    ensures r == fallback || (part.Some? && r == part.value && r != "")
    ensures part.Some? && part.value != "" ==> r == part.value
  {
    if part.Some? && part.value != "" then part.value else fallback
  }

  /** `parsed.text || parsed.html || ''`: the plain-text part when it has text, else the
      HTML part, else nothing. Tag stripping applies to whichever is chosen. */
  function BodyOf(m: ParsedMail): (r: string)
    ensures r == "" <==> (m.text.None? || m.text.value == "") && (m.html.None? || m.html.value == "")
    ensures m.text.Some? && m.text.value != "" ==> r == m.text.value
    ensures (m.text.None? || m.text.value == "") ==> r == OrElse(m.html, "")
  {
    OrElse(m.text, OrElse(m.html, ""))
  }

  /** `parsed.subject || ''`. */
  function SubjectOf(m: ParsedMail): (r: string)
    ensures m.subject.None? ==> r == ""
    ensures m.subject.Some? ==> r == m.subject.value
  {
    OrElse(m.subject, "")
  }

  /** The parser callback: a message the parser rejected (`None`) is skipped; any
      other one goes through `processEmail`. */
  method OnParsed(store: ContentStore, parsed: Option<ParsedMail>, ask: string -> ServiceReply, today: string)
    modifies store`file
    ensures parsed.None? ==> store.file == old(store.file)
    ensures parsed.Some? ==>
              var a := Decide(SubjectOf(parsed.value), BodyOf(parsed.value), ask);
              store.file == (if a.Skip? then old(store.file)
                             else Updated(old(store.file), store.writable, Name(a.page), a.content, today))
  {
    if parsed.Some? {
      ProcessEmail(store, SubjectOf(parsed.value), BodyOf(parsed.value), ask, today);
    }
  }

  /** When the service echoes its input, a plain, already trimmed body sent under a
      recognised subject becomes the new content as it is. */
  lemma EchoedBodyIsApplied(subject: string, body: string, echo: string -> ServiceReply)
    requires Classify(subject).Some?
    requires '<' !in body && Trimmed(body) && body != "" && body != Sentinel
    requires echo(body) == Reply(body)
    ensures Decide(subject, body, echo) == Apply(Classify(subject).value, body)
  {
    CleanPlain(body);
    assert Extract(body, echo) == Some(body);
    var a := Decide(subject, body, echo);
    assert a.Apply? && a.page == Classify(subject).value && a.content == body;
  }

  /** A run with two messages, taken one at a time. The first,
      "About Page" with a reply that echoes the body, updates only `about`. */
  lemma ExampleAboutPage(doc: Document, today: string, echo: string -> ServiceReply)
    requires forall t :: echo(t) == Reply(t)
    ensures Decide("About Page", "New about text", echo) == Apply(About, "New about text")
    ensures Updated(Holds(doc), true, "about", "New about text", today)
            == Holds(Document("New about text", doc.contact, doc.blog))
  {
    AboutPageSubject();
    PlainAboutText();
    assert echo("New about text") == Reply("New about text");
    EchoedBodyIsApplied("About Page", "New about text", echo);
  }

  lemma AboutPageSubject()
    ensures Classify("About Page") == Some(About)
  {
    assert OccursAt("About Page", "About", 0);
    AboutWins("About Page", "About");
  }

  lemma PlainAboutText()
    ensures '<' !in "New about text" && Trimmed("New about text")
    ensures "New about text" != "" && "New about text" != Sentinel
  {
  }

  /** The second, "Newsletter", names no page and is skipped, whatever the service says. */
  lemma ExampleNewsletter(ask: string -> ServiceReply)
    ensures Decide("Newsletter", "hi", ask) == Skip
  {
    var lowered := Lower("Newsletter");
    assert lowered == "newsletter";
    AbsentCharacter(lowered, "about", 'u');
    AbsentCharacter(lowered, "contact", 'c');
    AbsentCharacter(lowered, "blog", 'b');
  }
}

/** The subject classifier of `identifyPageFromSubject` (app.js): a case-insensitive,
    first-match-wins search of the subject for the three page names. */
module SubjectClassifier {
  import opened Wrappers
  import opened JsText

  /** The pages an email can update; `None` of an `Option<Page>` is the source's `null`. */
  datatype Page = About | Contact | Blog

  /** The string the source uses for the page, both as the keyword searched for
      and as the `page` argument of `updateContent`. */
  function Name(p: Page): string {
    match p
    case About => "about"
    case Contact => "contact"
    case Blog => "blog"
  }

  /** Lower-case the subject, then test "about", "contact" and "blog" in that order. */
  function Classify(subject: string): (r: Option<Page>)
    ensures r == Some(About) <==> HasInfix(Lower(subject), "about")
    ensures r == Some(Contact) <==>
              !HasInfix(Lower(subject), "about") && HasInfix(Lower(subject), "contact")
    ensures r == Some(Blog) <==>
              !HasInfix(Lower(subject), "about") && !HasInfix(Lower(subject), "contact")
              && HasInfix(Lower(subject), "blog")
    ensures r == None <==>
              !HasInfix(Lower(subject), "about") && !HasInfix(Lower(subject), "contact")
              && !HasInfix(Lower(subject), "blog")
    ensures r.Some? ==> HasInfix(Lower(subject), Name(r.value))
  {
    var s := Lower(subject);
    if Includes(s, "about") then Some(About)
    else if Includes(s, "contact") then Some(Contact)
    else if Includes(s, "blog") then Some(Blog)
    else None
  }

  /** Case does not matter: a subject and its lower-cased form are classified alike. */
  lemma ClassifyIgnoresCase(subject: string)
    ensures Classify(Lower(subject)) == Classify(subject)
  {
    LowerIdempotent(subject);
  }

  /** A subject containing "about" in any spelling of upper and lower case is an
      `about` update, whatever else it contains. */
  lemma AboutWins(subject: string, word: string)
    requires HasInfix(subject, word) && Lower(word) == "about"
    ensures Classify(subject) == Some(About)
  {
    LowerKeepsInfix(subject, word);
  }

  /** "contact" in any case beats "blog": it decides unless "about" occurs too. */
  lemma ContactBeatsBlog(subject: string, word: string)
    requires HasInfix(subject, word) && Lower(word) == "contact"
    ensures Classify(subject) == (if HasInfix(Lower(subject), "about") then Some(About) else Some(Contact))
  {
    LowerKeepsInfix(subject, word);
  }

  /** "blog" in any case gives `blog` unless an earlier keyword occurs. */
  lemma BlogIsLast(subject: string, word: string)
    requires HasInfix(subject, word) && Lower(word) == "blog"
    ensures Classify(subject) == (if HasInfix(Lower(subject), "about") then Some(About)
                                  else if HasInfix(Lower(subject), "contact") then Some(Contact)
                                  else Some(Blog))
  {
    LowerKeepsInfix(subject, word);
  }

  /** Example subjects and the page each one selects. */
  lemma ExampleAbout()
    ensures Classify("About the team") == Some(About)
    ensures Classify("about and blog") == Some(About)
  {
    assert OccursAt("About the team", "About", 0);
    AboutWins("About the team", "About");
    assert OccursAt("about and blog", "about", 0);
    AboutWins("about and blog", "about");
  }

  lemma ExampleContact()
    ensures Classify("Let's grab contacts") == Some(Contact)
  {
    LowerContacts();
    var s := "let's grab contacts";
    AbsentCharacter(s, "about", 'u');
    assert OccursAt(s, "contact", 11);
  }

  lemma LowerContacts()
    ensures Lower("Let's grab contacts") == "let's grab contacts"
  {
  }

  lemma ExampleBlog()
    ensures Classify("My Blog post") == Some(Blog)
  {
    var s := Lower("My Blog post");
    assert s == "my blog post";
    AbsentCharacter(s, "about", 'u');
    AbsentCharacter(s, "contact", 'n');
    assert OccursAt(s, "blog", 3);
  }

  lemma ExampleNone()
    ensures Classify("hello") == None
  {
    var s := Lower("hello");
    assert s == "hello";
    AbsentCharacter(s, "about", 'u');
    AbsentCharacter(s, "contact", 'n');
    AbsentCharacter(s, "blog", 'b');
  }
}

/** The persisted content document and the merge rule of `updateContent` (app.js). */
module ContentDocument {

  /** One blog post: the UTC calendar date it was added (YYYY-MM-DD) and its text. */
  datatype BlogEntry = BlogEntry(date: string, content: string)

  /** The whole of `content.json`: two page texts and the blog posts, oldest first. */
  datatype Document = Document(about: string, contact: string, blog: seq<BlogEntry>)

  /** `defaultContent`: placeholder texts and no posts. */
  const Default: Document := Document("Default about content", "Default contact content", [])

  /** The switch of `updateContent` applied to a loaded document: "about" and
      "contact" overwrite their field, "blog" appends a post dated `today`, and any
      other page name leaves the document as it was. */
  function Merge(doc: Document, page: string, content: string, today: string): (r: Document)
    ensures page == "about" ==> r.about == content && r.contact == doc.contact && r.blog == doc.blog
    ensures page == "contact" ==> r.contact == content && r.about == doc.about && r.blog == doc.blog
    ensures page == "blog" ==>
              && r.about == doc.about && r.contact == doc.contact
              && |r.blog| == |doc.blog| + 1
              && r.blog[..|doc.blog|] == doc.blog
              && r.blog[|doc.blog|] == BlogEntry(today, content)
    ensures page != "about" && page != "contact" && page != "blog" ==> r == doc
  {
    match page
    case "about" => doc.(about := content)
    case "contact" => doc.(contact := content)
    case "blog" => doc.(blog := doc.blog + [BlogEntry(today, content)])
    case _ => doc
  }

  /** Two writes to the same text page: the second one wins. */
  lemma LastWriteWins(doc: Document, page: string, first: string, second: string, d1: string, d2: string)
    requires page == "about" || page == "contact"
    ensures Merge(Merge(doc, page, first, d1), page, second, d2) == Merge(doc, page, second, d2)
  {
  }

  /** One call of `updateContent`: which page, what text, and the date it ran on. */
  datatype Edit = Edit(page: string, content: string, today: string)

  /** A document after a sequence of updates, applied in order. */
  function MergeAll(doc: Document, edits: seq<Edit>): Document
    decreases |edits|
  {
    if edits == [] then doc
    else MergeAll(Merge(doc, edits[0].page, edits[0].content, edits[0].today), edits[1..])
  }

  /** The posts a sequence of updates adds, in the order the updates came. */
  function NewPosts(edits: seq<Edit>): seq<BlogEntry>
    decreases |edits|
  {
    if edits == [] then []
    else (if edits[0].page == "blog" then [BlogEntry(edits[0].today, edits[0].content)] else [])
         + NewPosts(edits[1..])
  }

  /** The text of the last update to `page` in `edits`, or `fallback` when there is none. */
  function LastText(edits: seq<Edit>, page: string, fallback: string): string
    decreases |edits|
  {
    if edits == [] then fallback
    else if edits[|edits| - 1].page == page then edits[|edits| - 1].content
    else LastText(edits[..|edits| - 1], page, fallback)
  }

  /** The posts are never reordered or removed: after any sequence of updates the
      old posts are followed by exactly the new ones, in order. */
  lemma {:induction false} BlogOnlyAppends(doc: Document, edits: seq<Edit>)
    ensures MergeAll(doc, edits).blog == doc.blog + NewPosts(edits)
    decreases |edits|
  {
    if edits != [] {
      var e := edits[0];
      var next := Merge(doc, e.page, e.content, e.today);
      BlogOnlyAppends(next, edits[1..]);
      if e.page == "blog" {
        assert next.blog == doc.blog + [BlogEntry(e.today, e.content)];
      }
    }
  }

  /** Applying one more update after a sequence. */
  lemma {:induction false} MergeAllSnoc(doc: Document, edits: seq<Edit>, e: Edit)
    ensures MergeAll(doc, edits + [e]) == Merge(MergeAll(doc, edits), e.page, e.content, e.today)
    decreases |edits|
  {
    if edits == [] {
      assert edits + [e] == [e];
    } else {
      assert (edits + [e])[1..] == edits[1..] + [e];
      MergeAllSnoc(Merge(doc, edits[0].page, edits[0].content, edits[0].today), edits[1..], e);
    }
  }

  /** After any sequence of updates, each text page holds the last text sent to it,
      or its old text when none was. */
  lemma {:induction false} TextPagesHoldLastWrite(doc: Document, edits: seq<Edit>)
    ensures MergeAll(doc, edits).about == LastText(edits, "about", doc.about)
    ensures MergeAll(doc, edits).contact == LastText(edits, "contact", doc.contact)
    decreases |edits|
  {
    if edits != [] {
      var init := edits[..|edits| - 1];
      var e := edits[|edits| - 1];
      assert edits == init + [e];
      MergeAllSnoc(doc, init, e);
      TextPagesHoldLastWrite(doc, init);
    }
  }
}

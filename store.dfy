/** `loadContent`, `saveContent` and `updateContent` (app.js): the content file
    as a field of a store object, read, repaired and written back in place. */
module ContentStorage {
  import opened ContentDocument

  /** What `loadContent` finds at `content.json`. */
  datatype FileState =
    | Missing              // `fs.access` fails with ENOENT
    | Unreadable           // `fs.access` or `fs.readFile` fails with any other error
    | Blank                // the text is empty once trimmed
    | Garbled              // the text is not empty but `JSON.parse` throws
    | Holds(doc: Document) // the text parses; read as a document

  /** The three states that `loadContent` repairs by writing the default document. */
  predicate NeedsRepair(f: FileState) {
    f.Missing? || f.Blank? || f.Garbled?
  }

  /** The document `loadContent` returns for a file state. */
  function Recover(f: FileState): Document {
    if f.Holds? then f.doc else Default
  }

  /** The file state after `loadContent`: the default document is written back for a
      missing, blank or garbled file when the write succeeds; otherwise nothing changes. */
  function Repair(f: FileState, writable: bool): FileState {
    if NeedsRepair(f) && writable then Holds(Default) else f
  }

  /** A load right after a load sees the same document and changes nothing more. */
  lemma LoadIsIdempotent(f: FileState, writable: bool)
    ensures Recover(Repair(f, writable)) == Recover(f)
    ensures Repair(Repair(f, writable), writable) == Repair(f, writable)
  {
  }

  /** With writes working, every state but an unreadable file comes out of a load as a
      stored document, and a missing, blank or garbled one as the default document. */
  lemma LoadHeals(f: FileState)
    requires !f.Unreadable?
    ensures Repair(f, true) == Holds(Recover(f))
    ensures NeedsRepair(f) ==> Recover(f) == Default
  {
  }

  /** The file state after `updateContent` on a store in state `f`: when writes work
      the file ends up holding the merged document, even for an unknown page and even
      when it was unreadable before; when they do not, it is unchanged. */
  function Updated(f: FileState, writable: bool, page: string, content: string, today: string): FileState {
    if writable then Holds(Merge(Recover(f), page, content, today)) else f
  }

  /** The content store: the state of `content.json` and whether the file system
      currently accepts writes to it. */
  class ContentStore {
    var file: FileState
    var writable: bool

    constructor (file: FileState, writable: bool)
      ensures this.file == file && this.writable == writable
    {
      this.file := file;
      this.writable := writable;
    }

    /** `saveContent`: writes the whole document; a failed write is swallowed and
        leaves the file as it was. */
    method Save(doc: Document)
      modifies this`file
      ensures file == (if writable then Holds(doc) else old(file))
    {
      if writable {
        file := Holds(doc);
      }
    }

    /** `loadContent`: the stored document, or the default one. A missing, blank or
        garbled file is repaired with the default document; an unreadable one is left alone. */
    method Load() returns (doc: Document)
      modifies this`file
      ensures old(file).Holds? ==> doc == old(file).doc && file == old(file)
      ensures old(file).Unreadable? ==> doc == Default && file == old(file)
      ensures NeedsRepair(old(file)) ==> doc == Default && file == (if writable then Holds(Default) else old(file))
      ensures doc == Recover(old(file)) && file == Repair(old(file), writable)
    {
      match file
      case Holds(d) =>
        doc := d;
      case Unreadable =>
        doc := Default;
      case _ =>
        Save(Default);
        doc := Default;
    }

    /** `updateContent`: load, merge the new content into what was loaded, save. */
    method Update(page: string, content: string, today: string)
      modifies this`file
      ensures file == Updated(old(file), writable, page, content, today)
    {
      var doc := Load();
      doc := Merge(doc, page, content, today);
      Save(doc);
    }
  }

  /** An unknown page changes no text, yet the document is still written back, so a
      missing, blank or garbled file becomes the default document. */
  lemma UnknownPageStillSaves(f: FileState, page: string, content: string, today: string)
    requires page != "about" && page != "contact" && page != "blog"
    ensures Updated(f, true, page, content, today) == Holds(Recover(f))
    ensures Updated(f, false, page, content, today) == f
  {
  }

  /** A transient read error loses the stored posts and texts: the next update writes
      the default document with only that update merged in. */
  lemma UpdateAfterReadErrorOverwrites(page: string, content: string, today: string)
    ensures Updated(Unreadable, true, page, content, today) == Holds(Merge(Default, page, content, today))
  {
  }

  /** The file state after a sequence of `updateContent` calls, in order. */
  function UpdatedAll(f: FileState, writable: bool, edits: seq<Edit>): FileState
    decreases |edits|
  {
    if edits == [] then f
    else UpdatedAll(Updated(f, writable, edits[0].page, edits[0].content, edits[0].today), writable, edits[1..])
  }

  /** With writes working, a sequence of updates leaves in the file the loaded document
      with every update merged in order, so the blog keeps its old posts as a prefix
      and each text page holds its last write. */
  lemma {:induction false} UpdatesAccumulate(f: FileState, edits: seq<Edit>)
    requires edits != []
    ensures UpdatedAll(f, true, edits) == Holds(MergeAll(Recover(f), edits))
    ensures Recover(UpdatedAll(f, true, edits)).blog == Recover(f).blog + NewPosts(edits)
    decreases |edits|
  {
    var e := edits[0];
    var next := Updated(f, true, e.page, e.content, e.today);
    if |edits| > 1 {
      UpdatesAccumulate(next, edits[1..]);
    }
    BlogOnlyAppends(Recover(f), edits);
  }

  /** With writes failing, no sequence of updates changes the file. */
  lemma {:induction false} FailedWritesChangeNothing(f: FileState, edits: seq<Edit>)
    ensures UpdatedAll(f, false, edits) == f
    decreases |edits|
  {
    if edits != [] {
      FailedWritesChangeNothing(f, edits[1..]);
    }
  }
}

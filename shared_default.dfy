/** `loadContent` and `updateContent` (app.js) as written, with the module-level
    `defaultContent` object shared by reference: every reset path returns that one
    object, and `updateContent` then edits it in place, so later resets hand out the
    edited object instead of the placeholders. The rest of the model copies the
    default instead (`ContentStorage`); this module shows where the two part. */
module SharedDefault {
  import opened ContentDocument
  import opened ContentStorage

  /** What the two functions can reach: the file, and the current value of the one
      `defaultContent` object. */
  datatype Heap = Heap(file: FileState, shared: Document)

  /** A load's result: the document, whether it is the shared object itself, and the heap after. */
  datatype Loaded = Loaded(doc: Document, aliased: bool, heap: Heap)

  /** `loadContent` as written: a parsed file gives a fresh object; every other path
      returns the shared object, after writing it out for the three repair states. */
  function LoadAsWritten(h: Heap, writable: bool): (r: Loaded)
    ensures r.aliased <==> !h.file.Holds?
    ensures r.aliased ==> r.doc == h.shared
    ensures h.file.Holds? ==> r.doc == h.file.doc
    ensures r.heap.shared == h.shared
    ensures r.heap.file == (if NeedsRepair(h.file) && writable then Holds(h.shared) else h.file)
  {
    match h.file
    case Holds(d) => Loaded(d, false, h)
    case Unreadable => Loaded(h.shared, true, h)
    case _ => Loaded(h.shared, true, if writable then h.(file := Holds(h.shared)) else h)
  }

  /** `updateContent` as written: the merge edits the loaded object in place, which is
      the shared default whenever the load did not parse a file. */
  function UpdateAsWritten(h: Heap, writable: bool, page: string, content: string, today: string): (r: Heap)
    ensures !h.file.Holds? ==> r.shared == Merge(h.shared, page, content, today)
    ensures h.file.Holds? ==> r.shared == h.shared
    ensures writable ==> r.file == Holds(Merge(if h.file.Holds? then h.file.doc else h.shared, page, content, today))
    ensures !writable ==> r.file == h.file
  {
    var loaded := LoadAsWritten(h, writable);
    var doc := Merge(loaded.doc, page, content, today);
    var edited := if loaded.aliased then loaded.heap.(shared := doc) else loaded.heap;
    if writable then edited.(file := Holds(doc)) else edited
  }

  /** As long as nobody has edited the shared object, the code as written behaves
      exactly like the copying store of `ContentStorage`. */
  lemma AgreesWhileDefaultUntouched(h: Heap, writable: bool, page: string, content: string, today: string)
    requires h.shared == Default
    ensures LoadAsWritten(h, writable).doc == Recover(h.file)
    ensures LoadAsWritten(h, writable).heap.file == Repair(h.file, writable)
    ensures UpdateAsWritten(h, writable, page, content, today).file == Updated(h.file, writable, page, content, today)
  {
  }

  /** The discrepancy, on concrete inputs: the file is missing, an "about" email sets
      the text to "Hello", then the file is emptied; the reset that follows returns
      and writes "Hello" where the placeholder was meant. */
  lemma DefaultLeaksIntoReset(today: string)
    ensures var h1 := UpdateAsWritten(Heap(Missing, Default), true, "about", "Hello", today);
            var reset := LoadAsWritten(h1.(file := Blank), true);
            && reset.doc.about == "Hello"
            && reset.heap.file == Holds(Document("Hello", Default.contact, []))
            && reset.doc != Default
  {
  }

  /** `updateContent` with the evidently intended fix: the merge edits a copy of
      what was loaded, so the shared default is never touched. */
  function UpdateCopying(h: Heap, writable: bool, page: string, content: string, today: string): (r: Heap)
    ensures r.shared == h.shared
    ensures h.shared == Default ==> r.file == Updated(h.file, writable, page, content, today)
  {
    var loaded := LoadAsWritten(h, writable);
    var copy := Merge(loaded.doc, page, content, today);
    if writable then loaded.heap.(file := Holds(copy)) else loaded.heap
  }

  /** A sequence of fixed updates, in order. */
  function UpdateAllCopying(h: Heap, writable: bool, edits: seq<Edit>): Heap
    decreases |edits|
  {
    if edits == [] then h
    else UpdateAllCopying(UpdateCopying(h, writable, edits[0].page, edits[0].content, edits[0].today), writable, edits[1..])
  }

  /** With the fix, no history of updates changes what a reset returns and writes:
      the placeholder document, and the file follows the copying store of `ContentStorage`. */
  lemma {:induction false} CopyingNeverLeaks(h: Heap, writable: bool, edits: seq<Edit>)
    requires h.shared == Default
    ensures UpdateAllCopying(h, writable, edits).shared == Default
    ensures UpdateAllCopying(h, writable, edits).file == UpdatedAll(h.file, writable, edits)
    ensures forall g | NeedsRepair(g) ::
              LoadAsWritten(UpdateAllCopying(h, writable, edits).(file := g), writable).doc == Default
    decreases |edits|
  {
    if edits != [] {
      var e := edits[0];
      CopyingNeverLeaks(UpdateCopying(h, writable, e.page, e.content, e.today), writable, edits[1..]);
    }
  }

  /** The scenario of `DefaultLeaksIntoReset` with the fix: the reset gives the placeholders back. */
  lemma CopyingFixesLeak(today: string)
    ensures var h1 := UpdateCopying(Heap(Missing, Default), true, "about", "Hello", today);
            var reset := LoadAsWritten(h1.(file := Blank), true);
            && h1.file == Holds(Document("Hello", Default.contact, []))
            && reset.doc == Default
            && reset.heap.file == Holds(Default)
  {
  }
}

# Email-to-website content updates, modelled in Dafny

The system reads unread emails and turns each into an update of a small website
content document (`content.json`: an `about` text, a `contact` text and a list of
blog posts). The subject picks the page. The body, with markup stripped, is sent to a
text-generation service, whose trimmed reply becomes the new content unless it is the
sentinel "No update content found". The document is stored in a file that repairs
itself when it is missing, empty or unparseable.

This project models the content-update logic of `app.js`:

- `js_text.dfy` (`JsText`): the JavaScript string primitives the code relies on.
  These are `trim` (with ECMAScript's exact white-space set), `toLowerCase` and `includes`.
- `classifier.dfy` (`SubjectClassifier`): `identifyPageFromSubject`.
- `extractor.dfy` (`ContentExtractor`): the non-network part of `extractContentFromBody`.
  It covers the `/<[^>]*>?/gm` tag strip, the trim, the early `null` on an empty body,
  the sentinel test and the `catch`. The service is an oracle `ask: string -> ServiceReply`.
- `document.dfy` (`ContentDocument`): the document and the merge switch of `updateContent`.
  It also proves lemmas about any sequence of updates.
- `store.dfy` (`ContentStorage`): the class `ContentStore`. It holds the file state and
  whether writes succeed, with the methods `Load` (`loadContent`), `Save` (`saveContent`)
  and `Update` (`updateContent`).
- `pipeline.dfy` (`Pipeline`): `processEmail` and the part of the parser callback that
  picks the subject and body (`parsed.text || parsed.html || ''`).
- `shared_default.dfy` (`SharedDefault`): `loadContent`/`updateContent` as written,
  with the shared `defaultContent` object (see Findings).

Inputs the code takes from its environment are parameters:
- the service reply is the oracle `ask`;
- the date of a blog post is `today`;
- the file's condition is an abstract `FileState`;
- whether the file system accepts writes is the store's `writable` field.

In these points the model follows the code as written:
- The tag strip applies to the plain-text body as well, not only to an HTML fallback (app.js:109, 220).
- The empty-body test comes after stripping and trimming.
- A post's date is the UTC date of `toISOString`, not a server-local date.
- `updateContent` accepts an unknown page name; it leaves the document unchanged and still writes it back.
- `saveContent` is a plain `writeFile`, with no atomicity.

## Model

| member | source | states |
|---|---|---|
| `JsText.Trim` | app.js:109 | the result has no surrounding white space |
| `JsText.TrimIsMiddle` | app.js:109 | the trimmed text is a contiguous piece of the input with only white space around it, and it is empty iff the input is all white space |
| `JsText.TrimStartCutsSpace` | app.js:109 | what is cut from the front is all white space |
| `JsText.TrimEndCutsSpace` | app.js:109 | what is cut from the back is all white space |
| `JsText.TrimIdempotent` | app.js:109 | trimming twice gives the same as trimming once |
| `JsText.TrimPadded` | app.js:132 | trimming `pre + x + post` gives exactly `x` when `pre` and `post` are white space and `x` has no surrounding white space |
| `JsText.TrimKeepsCharacters` | app.js:109 | every character of the trimmed text occurs in the original |
| `JsText.Includes` | app.js:101-103 | the left-to-right search answers true iff the word occurs somewhere in the text |
| `JsText.InfixOfTail` | app.js:101-103 | when the word is not a prefix of the text, it occurs in the text iff it occurs in the text without its first character |
| `JsText.Lower` | app.js:100 | same length; each letter A to Z becomes the code point 32 higher (its lower-case letter), every other character is kept |
| `JsText.LowerIdempotent` | app.js:100 | lower-casing a lower-cased text changes nothing |
| `JsText.LowerKeepsInfix` | app.js:100-101 | when a word occurs in a text, its lower-cased form occurs in the lower-cased text |
| `SubjectClassifier.Classify` | app.js:99-105 | `about` iff the lower-cased subject contains "about"; `contact` iff it contains "contact" but not "about"; `blog` iff "blog" but neither earlier word; `null` iff none of the three |
| `SubjectClassifier.ClassifyIgnoresCase` | app.js:100 | a subject and its lower-cased form are classified alike |
| `SubjectClassifier.AboutWins` | app.js:101 | a subject containing "about" in any mix of cases is an `about` update, whatever else it contains |
| `SubjectClassifier.ContactBeatsBlog` | app.js:102 | a subject containing "contact" in any case is `contact` unless it also contains "about" |
| `SubjectClassifier.BlogIsLast` | app.js:101-103 | a subject containing "blog" in any case is `blog` unless "about" or "contact" occurs, which then win in that order |
| `SubjectClassifier.ExampleAbout` | app.js:99-105 | "About the team" and "about and blog" are `about` |
| `SubjectClassifier.ExampleContact` | app.js:99-105 | "Let's grab contacts" is `contact` |
| `SubjectClassifier.ExampleBlog` | app.js:99-105 | "My Blog post" is `blog` |
| `SubjectClassifier.ExampleNone` | app.js:99-105 | "hello" is `null` |
| `ContentExtractor.CloseAt` | app.js:109 | finds the position of the first '>', or the end of the text when there is none |
| `ContentExtractor.TagLength` | app.js:109 | the regex match at a '<' has no '>' inside it; it ends just after the first '>' or at the end of the text |
| `ContentExtractor.StripTags` | app.js:109 | the stripped text contains no '<' and is no longer than the input |
| `ContentExtractor.StripPlain` | app.js:109 | text without '<' is unchanged by the strip |
| `ContentExtractor.StripIdempotent` | app.js:109 | stripping twice gives the same as stripping once |
| `ContentExtractor.StripClosedTag` | app.js:109 | a closed tag `<...>` is removed with everything between its brackets, and the text before it is kept |
| `ContentExtractor.StripUnclosedTag` | app.js:109 | a '<' with no '>' after it removes the whole rest of the text |
| `ContentExtractor.Clean` | app.js:108-111 | the cleaned body has no '<' and no surrounding white space |
| `ContentExtractor.CleanEmptyIffBlank` | app.js:108-111 | the cleaned body is empty iff the stripped body is all white space |
| `ContentExtractor.CleanPlain` | app.js:108-111 | a body with no '<' and no surrounding white space is cleaned to itself |
| `ContentExtractor.Extract` | app.js:107-140 | `null` for an empty cleaned body or a failed call; otherwise the trimmed reply, or `null` when it equals the sentinel; a result is never the sentinel and has no surrounding white space |
| `ContentExtractor.EmptyBodyNeverAsks` | app.js:109-114 | a body that is only markup and white space gives `null`, whatever the service would reply |
| `ContentExtractor.PaddedSentinel` | app.js:132-135 | the sentinel surrounded by any white space still gives `null` |
| `ContentExtractor.BlankReply` | app.js:132-135 | a reply of only white space gives the empty string, not `null` |
| `ContentExtractor.PaddedReply` | app.js:132-135 | a reply with any white space around a text is judged by that text: the sentinel gives `null`, any other text is returned exactly |
| `ContentDocument.Merge` | app.js:144-162 | "about" and "contact" overwrite that field and keep the rest; "blog" keeps both texts and adds one post `{today, content}` after the old ones; any other page leaves the document unchanged |
| `ContentDocument.LastWriteWins` | app.js:145-152 | two updates of the same text page leave the second value |
| `ContentDocument.MergeAllSnoc` | app.js:142-164 | applying one more update after a sequence is the same as merging it into the sequence's result |
| `ContentDocument.BlogOnlyAppends` | app.js:153-157 | after any sequence of updates, the blog is the old posts followed by the new posts in the order sent |
| `ContentDocument.TextPagesHoldLastWrite` | app.js:145-152 | after any sequence of updates, each text page holds the last text sent to it, or its old text when none was sent |
| `ContentStorage.LoadIsIdempotent` | app.js:61-86 | a second load right after a load returns the same document and changes the file no further |
| `ContentStorage.LoadHeals` | app.js:63-83 | with writes working, a missing, blank or garbled file becomes the stored default document, and that is what the load returns |
| `ContentStorage.UnknownPageStillSaves` | app.js:160-163 | an unknown page changes no field, but the loaded document is still written back |
| `ContentStorage.UpdateAfterReadErrorOverwrites` | app.js:142-164 | after a read error other than "not found", an update writes the default document with only that update merged in |
| `ContentStorage.UpdatesAccumulate` | app.js:142-164 | with writes working, a sequence of updates leaves the file holding the loaded document with every update merged, and the old posts stay a prefix |
| `ContentStorage.FailedWritesChangeNothing` | app.js:90-97 | with writes failing, no sequence of updates changes the file |
| `ContentStorage.ContentStore.Save` | app.js:90-97 | the file holds the document when the write succeeds; a failed write is swallowed and leaves the file as it was |
| `ContentStorage.ContentStore.Load` | app.js:61-87 | a parsed file returns its document; an unreadable file returns the default and is not written; missing, blank or garbled files return the default, which is written back when writes work |
| `ContentStorage.ContentStore.Update` | app.js:142-164 | the new file state is the loaded document with the merge applied, when writes work; otherwise the file is unchanged |
| `Pipeline.Decide` | app.js:166-182 | the message becomes an update iff the subject names a page and extraction gives a non-empty string; the update carries that page and that string |
| `Pipeline.UnrecognisedSubjectNeverAsks` | app.js:170-171 | a subject that names no page is skipped, whatever the service would reply |
| `Pipeline.AppliedContentIsUsable` | app.js:172-174 | content that reaches the store is non-empty, is not the sentinel, and has no surrounding white space |
| `Pipeline.BlankReplySkips` | app.js:173 | a white-space-only reply is falsy once trimmed, so the message is skipped |
| `Pipeline.ProcessEmail` | app.js:166-182 | the store is left alone when the decision is to skip; otherwise it changes as `updateContent` changes it, for the chosen page and content |
| `Pipeline.OrElse` | app.js:220-221 | JavaScript's `part || fallback`: an absent or empty part gives the fallback, any other part gives itself |
| `Pipeline.SubjectOf` | app.js:221 | `parsed.subject \|\| ''`: an absent subject gives "", a present one gives itself |
| `Pipeline.BodyOf` | app.js:220 | the body is the plain-text part when it has text, else the HTML part; it is empty only when neither part has text |
| `Pipeline.OnParsed` | app.js:213-222 | a message the parser rejected changes nothing; any other one is processed with its subject (or "") and its chosen body |
| `Pipeline.EchoedBodyIsApplied` | app.js:170-175 | with a service that echoes its input, a plain trimmed body under a recognised subject becomes the new content unchanged |
| `Pipeline.ExampleAboutPage` | app.js:166-182 | "About Page" with an echoed "New about text" updates `about` to that text and leaves `contact` and `blog` unchanged |
| `Pipeline.ExampleNewsletter` | app.js:170-181 | "Newsletter" names no page and is skipped |
| `SharedDefault.LoadAsWritten` | app.js:61-87 | a parsed file gives its own document; every other path returns the shared default object itself; the three repair states write that object out when writes work |
| `SharedDefault.UpdateAsWritten` | app.js:142-164 | an update on a file that did not parse edits the shared default object in place; when writes work the file then holds the merged document (of the parsed file, or of the shared object), and when they fail it is unchanged |
| `SharedDefault.AgreesWhileDefaultUntouched` | app.js:47-51 | while the shared object still holds the placeholders, the code as written behaves exactly like the copying store |
| `SharedDefault.DefaultLeaksIntoReset` | app.js:143-154 | concrete case: missing file, then an "about" update with "Hello", then the file is emptied; the reset returns and writes "Hello" instead of the placeholder |
| `SharedDefault.UpdateCopying` | app.js:142-164 | the fixed update never touches the shared object; from an untouched default it matches `ContentStorage.Updated` |
| `SharedDefault.CopyingNeverLeaks` | app.js:61-87 | with the fix, after any sequence of updates, the shared object is still the placeholder document; every reset returns it; the file follows the copying store |
| `SharedDefault.CopyingFixesLeak` | app.js:61-87 | the scenario of `DefaultLeaksIntoReset` with the fix: the reset returns and writes the placeholder document |

## Left out

- `checkEmails` (app.js:184-257) is not modelled. This covers the IMAP connection, `openBox`, the `UNSEEN` search, the fetch with `markSeen` and the stream callbacks.
  - These are event-driven I/O.
  - The `'end'` handler resolves without waiting for the `processEmail` promises, so neither the order of messages nor their completion is guaranteed.
  - Because of this, the model proves statements about one message at a time and about any sequence of updates. It does not claim that a run processes messages in order.
  - Two `updateContent` calls of one run can also interleave their load and save: A loads, B loads, A saves, B saves, and A's update is lost. `UpdatesAccumulate`, `BlogOnlyAppends` and `TextPagesHoldLastWrite` describe updates that run one after another; the interleaved case is not modelled.
  - The "empty search, nothing processed" step is not modelled either.
- The request to the text-generation service (app.js:117-130) is left out. Model name, prompts and `max_tokens` are library details. Only the reply enters the model, through the oracle `ask`. The diagnostic that a failure logs is dropped.
- The Express routes, including the `/api/content` fallback (app.js:259-295), are not modelled. Neither are the `process.on` handlers (app.js:298-307) or the winston logger (app.js:16-32). Logging has no effect on the modelled state.
- JSON text and the `fs` calls are not modelled. The file is the abstract `FileState`.
  - `Blank` stands for text that is empty after `trim`.
  - `Garbled` stands for text that `JSON.parse` rejects.
  - A parsed file is assumed to hold a well-formed three-field document, because app.js:71 does not check its shape. A parsed file without a `blog` array would make `push` throw. The resulting rejection is not modelled.
  - A written document is assumed to be read back unchanged.
- The clock at app.js:155 is not modelled. The post date is the parameter `today`.
- `JsText.Lower` changes only the letters A to Z; the rest of Unicode case mapping is not modelled. Classification is unaffected, because the only non-ASCII characters that `toLowerCase` maps into ASCII are U+0130 (to "i" plus a combining dot) and U+212A (to "k"). Neither "i" nor "k" appears in "about", "contact" or "blog".
- `ContentStorage.ContentStore.Save`: a failed write leaves the file unchanged in the model. A real `writeFile` that fails part-way may leave the file truncated; that partial write is not modelled.
- The two writes in one update (repair and final save) either both succeed or both fail, because they share the store's `writable` condition. Mixed outcomes are not modelled.
- `ContentStorage` copies the default document. The code as written shares one `defaultContent` object by reference, which `SharedDefault` models (see Findings).

## Findings

| source | as written | input that shows it | evidently intended | confidence | as-written member | corrected member |
|---|---|---|---|---|---|---|
| app.js:47-51 | `loadContent` returns the module-level `defaultContent` object itself on every reset path (app.js:68, 76, 82, 85). `updateContent` then assigns its fields or pushes onto its `blog` (app.js:146, 150, 154). So later resets return and write the edited object. | file missing; an email "About" with reply "Hello"; then the file is emptied; the next load | a reset returns and writes the placeholder document | high; not executed | `SharedDefault.DefaultLeaksIntoReset` | `SharedDefault.CopyingNeverLeaks` |

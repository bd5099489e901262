/** The part of `extractContentFromBody` (app.js) that does not talk to the network:
    tag stripping, trimming, the early return on an empty body and the decision
    on the text-generation service's reply. The service is an oracle `ask`. */
module ContentExtractor {
  import opened Wrappers
  import opened JsText

  /** What the text-generation service gives back for one request: a reply text,
      or a failure (network, authentication, or a reply without `choices[0].message.content`). */
  datatype ServiceReply = Failure | Reply(text: string)

  /** The reply the prompt asks the service to give when the email holds no content. */
  const Sentinel: string := "No update content found"

  /** The number of characters of `t` before its first '>' (all of `t` when it has none). */
  function CloseAt(t: string): (k: nat)
    ensures k <= |t|
    ensures '>' !in t[..k]
    ensures k == |t| || t[k] == '>'
  {
    if t == [] || t[0] == '>' then 0 else 1 + CloseAt(t[1..])
  }

  /** The length of the match of `<[^>]*>?` at the start of `s`: the '<', every
      character up to the next '>', and that '>' when there is one. */
  function TagLength(s: string): (n: nat)
    requires s != [] && s[0] == '<'
    ensures 1 <= n <= |s|
    ensures forall i | 1 <= i < n - 1 :: s[i] != '>'
    ensures n == |s| || s[n - 1] == '>'
    ensures n == 1 || s[n - 1] != '>' ==> n == |s| && '>' !in s[1..]
  {
    var k := CloseAt(s[1..]);
    assert s[1..][..k] == s[1..1 + k];
    if 1 + k < |s| then k + 2 else k + 1
  }

  /** `s.replace(/<[^>]*>?/gm, '')`: scanning from the left, every '<' is removed
      together with the text up to and including the next '>', or with the rest
      of the text when no '>' follows. */
  function StripTags(s: string): (r: string)
    ensures '<' !in r
    ensures |r| <= |s|
    decreases |s|
  {
    if s == [] then []
    else if s[0] == '<' then StripTags(s[TagLength(s)..])
    else [s[0]] + StripTags(s[1..])
  }

  /** Text without '<' passes through unchanged. */
  lemma {:induction false} StripPlain(s: string)
    requires '<' !in s
    ensures StripTags(s) == s
  {
    if s != [] {
      StripPlain(s[1..]);
    }
  }

  /** Stripping twice is stripping once. */
  lemma StripIdempotent(s: string)
    ensures StripTags(StripTags(s)) == StripTags(s)
  {
    StripPlain(StripTags(s));
  }

  /** A closed tag `<…>` disappears with everything between its brackets. */
  lemma {:induction false} StripClosedTag(x: string, t: string, y: string)
    requires '<' !in x && '>' !in t
    ensures StripTags(x + ['<'] + t + ['>'] + y) == x + StripTags(y)
  {
    var s := x + ['<'] + t + ['>'] + y;
    if x == [] {
      assert s == ['<'] + t + ['>'] + y;
      var u := s[1..];
      assert u == t + ['>'] + y;
      var k := CloseAt(u);
      assert forall i | 0 <= i < |t| :: u[i] == t[i];
      assert u[|t|] == '>';
      assert k == |t|;
      assert s[|t| + 2..] == y;
    } else {
      assert s[1..] == x[1..] + ['<'] + t + ['>'] + y;
      StripClosedTag(x[1..], t, y);
    }
  }

  /** A '<' that no '>' follows removes the rest of the text, so a plain-text
      body such as "x < y and more" keeps only "x ". */
  lemma {:induction false} StripUnclosedTag(x: string, t: string)
    requires '<' !in x && '>' !in t
    ensures StripTags(x + ['<'] + t) == x
  {
    var s := x + ['<'] + t;
    if x == [] {
      assert s == ['<'] + t;
      assert s[1..] == t;
      assert TagLength(s) == |s|;
    } else {
      assert s[1..] == x[1..] + ['<'] + t;
      StripUnclosedTag(x[1..], t);
    }
  }

  /** The text the service is asked about: tags stripped, then trimmed. */
  function Clean(body: string): (r: string)
    ensures '<' !in r
    ensures Trimmed(r)
  {
    var stripped := StripTags(body);
    var r := Trim(stripped);
    assert '<' !in r by {
      if '<' in r { TrimKeepsCharacters(stripped, '<'); }
    }
    r
  }

  /** The cleaned body is empty exactly when the body is only markup and white space. */
  lemma CleanEmptyIffBlank(body: string)
    ensures Clean(body) == [] <==> AllSpace(StripTags(body))
  {
    TrimIsMiddle(StripTags(body));
  }

  /** A body with no markup and no surrounding white space is sent to the service as it is. */
  lemma CleanPlain(body: string)
    requires '<' !in body && Trimmed(body)
    ensures Clean(body) == body
  {
    var none: string := [];
    StripPlain(body);
    TrimPadded(none, body, none);
    assert none + body + none == body;
  }

  /** `extractContentFromBody` with the service as the oracle `ask`: `None` for an
      empty cleaned body, a failed call or the sentinel reply, else the trimmed reply. */
  function Extract(body: string, ask: string -> ServiceReply): (r: Option<string>)
    ensures Clean(body) == [] ==> r == None
    ensures Clean(body) != [] && ask(Clean(body)).Failure? ==> r == None
    ensures Clean(body) != [] && ask(Clean(body)).Reply? ==>
              r == (if Trim(ask(Clean(body)).text) == Sentinel then None
                    else Some(Trim(ask(Clean(body)).text)))
    ensures r.Some? ==> r.value != Sentinel && Trimmed(r.value)
  {
    var text := Clean(body);
    if text == [] then None
    else
      match ask(text)
      case Failure => None
      case Reply(raw) =>
        var content := Trim(raw);
        if content == Sentinel then None else Some(content)
  }

  /** A body that is only markup and white space never reaches the service: the
      result is `None` whatever the service would have said. */
  lemma EmptyBodyNeverAsks(body: string, ask1: string -> ServiceReply, ask2: string -> ServiceReply)
    requires AllSpace(StripTags(body))
    ensures Extract(body, ask1) == Extract(body, ask2) == None
  {
    CleanEmptyIffBlank(body);
  }

  /** The sentinel counts however much white space surrounds it in the reply. */
  lemma PaddedSentinel(body: string, ask: string -> ServiceReply, pre: string, post: string)
    requires Clean(body) != [] && AllSpace(pre) && AllSpace(post)
    requires ask(Clean(body)) == Reply(pre + Sentinel + post)
    ensures Extract(body, ask) == None
  {
    SentinelIsTrimmed();
    PaddedReply(body, ask, pre, Sentinel, post);
  }

  lemma SentinelIsTrimmed()
    ensures Trimmed(Sentinel)
  {
  }

  /** A reply that is only white space is returned as the empty string, not `None`;
      it is the caller's truthiness test that then skips it. */
  lemma BlankReply(body: string, ask: string -> ServiceReply)
    requires Clean(body) != [] && ask(Clean(body)).Reply? && AllSpace(ask(Clean(body)).text)
    ensures Extract(body, ask) == Some("")
  {
    TrimIsMiddle(ask(Clean(body)).text);
  }

  /** A reply is judged by its text without the surrounding white space: the
      sentinel gives `None`, any other text comes back exactly. */
  lemma {:induction false} PaddedReply(body: string, ask: string -> ServiceReply, pre: string, x: string, post: string)
    requires Clean(body) != [] && AllSpace(pre) && AllSpace(post) && Trimmed(x)
    requires ask(Clean(body)) == Reply(pre + x + post)
    ensures Extract(body, ask) == (if x == Sentinel then None else Some(x))
  {
    TrimPadded(pre, x, post);
  }
}

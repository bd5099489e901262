/** The three JavaScript string primitives the content pipeline relies on:
    `String.prototype.trim`, `toLowerCase` and `includes`. */
module JsText {

  /** The code points `trim` removes besides the range U+2000 to U+200A: ECMAScript's
      WhiteSpace (tab, vertical tab, form feed, space, no-break space, byte-order mark
      and the other space separators of category Zs) and LineTerminator (LF, CR, LS, PS). */
  const SpaceChars: set<char> :=
    {'\t', '\n', '\U{000B}', '\U{000C}', '\r', ' ', '\U{00A0}', '\U{1680}',
     '\U{2028}', '\U{2029}', '\U{202F}', '\U{205F}', '\U{3000}', '\U{FEFF}'}

  /** A character `trim` removes. */
  predicate IsSpace(c: char) {
    c in SpaceChars || ('\U{2000}' <= c <= '\U{200A}')
  }

  /** Every character of `s` from index `lo` up to (not including) `hi` is white space. */
  predicate SpaceBetween(s: string, lo: int, hi: int)
    requires 0 <= lo <= hi <= |s|
  {
    forall k | lo <= k < hi :: IsSpace(s[k])
  }

  predicate AllSpace(s: string) {
    SpaceBetween(s, 0, |s|)
  }

  /** No surrounding white space: what `trim` always delivers. */
  predicate Trimmed(s: string) {
    s == [] || (!IsSpace(s[0]) && !IsSpace(s[|s| - 1]))
  }

  /** Drops the leading white space: the result is a suffix of `s` that does not start with white space. */
  function TrimStart(s: string): (r: string)
    ensures |r| <= |s| && r == s[|s| - |r|..]
    ensures r == [] || !IsSpace(r[0])
  {
    if s != [] && IsSpace(s[0]) then TrimStart(s[1..]) else s
  }

  /** What `TrimStart` cuts off is all white space. */
  lemma {:induction false} TrimStartCutsSpace(s: string)
    ensures SpaceBetween(s, 0, |s| - |TrimStart(s)|)
    decreases |s|
  {
    if s != [] && IsSpace(s[0]) {
      var tail := s[1..];
      TrimStartCutsSpace(tail);
      forall k | 1 <= k < |s| - |TrimStart(s)| ensures IsSpace(s[k]) {
        assert s[k] == tail[k - 1];
      }
    }
  }

  /** Drops the trailing white space: the result is a prefix of `s` that does not end with white space. */
  function TrimEnd(s: string): (r: string)
    ensures |r| <= |s| && r == s[..|r|]
    ensures r == [] || !IsSpace(r[|r| - 1])
  {
    if s != [] && IsSpace(s[|s| - 1]) then TrimEnd(s[..|s| - 1]) else s
  }

  /** What `TrimEnd` cuts off is all white space. */
  lemma {:induction false} TrimEndCutsSpace(s: string)
    ensures SpaceBetween(s, |TrimEnd(s)|, |s|)
    decreases |s|
  {
    if s != [] && IsSpace(s[|s| - 1]) {
      var init := s[..|s| - 1];
      TrimEndCutsSpace(init);
      forall k | |TrimEnd(s)| <= k < |s| - 1 ensures IsSpace(s[k]) {
        assert s[k] == init[k];
      }
    }
  }

  /** `r` sits at offset `i` of `s` with nothing but white space around it. */
  predicate PaddedAt(s: string, r: string, i: int) {
    0 <= i <= |s| - |r| && s[i..i + |r|] == r && SpaceBetween(s, 0, i) && SpaceBetween(s, i + |r|, |s|)
  }

  /** `String.prototype.trim`: no white space is left at either end. */
  function Trim(s: string): (r: string)
    ensures Trimmed(r)
  {
    var t := TrimStart(s);
    var r := TrimEnd(t);
    assert r != [] ==> r[0] == t[0];
    r
  }

  /** The trimmed text is the contiguous middle of `s` between its leading and
      trailing white space, and it is empty exactly when `s` is all white space. */
  lemma TrimIsMiddle(s: string)
    ensures exists i :: PaddedAt(s, Trim(s), i)
    ensures Trim(s) == [] <==> AllSpace(s)
  {
    var t := TrimStart(s);
    TrimStartCutsSpace(s);
    TrimEndCutsSpace(t);
    PaddedPieces(s, t, TrimEnd(t));
    assert PaddedAt(s, Trim(s), |s| - |t|);
  }

  /** A suffix `t` after white space, then a prefix `r` of `t` before white space:
      `r` is padded in `s`, and it is empty exactly when `s` is all white space. */
  lemma {:induction false} PaddedPieces(s: string, t: string, r: string)
    requires |t| <= |s| && t == s[|s| - |t|..] && SpaceBetween(s, 0, |s| - |t|)
    requires |r| <= |t| && r == t[..|r|] && SpaceBetween(t, |r|, |t|)
    requires t == [] || !IsSpace(t[0])
    requires r == [] || !IsSpace(r[|r| - 1])
    ensures PaddedAt(s, r, |s| - |t|)
    ensures r == [] <==> AllSpace(s)
  {
    var i := |s| - |t|;
    assert s[i..i + |r|] == r;
    forall k | i + |r| <= k < |s| ensures IsSpace(s[k]) {
      assert s[k] == t[k - i];
    }
    assert r == [] ==> t == [];
  }

  /** Every character of the trimmed text comes from the original. */
  lemma TrimKeepsCharacters(s: string, c: char)
    requires c in Trim(s)
    ensures c in s
  {
    var r := Trim(s);
    TrimIsMiddle(s);
    var i :| PaddedAt(s, r, i);
    var k :| 0 <= k < |r| && r[k] == c;
    assert s[i + k] == c;
  }

  lemma {:induction false} TrimStartOfTrimmed(s: string)
    requires s == [] || !IsSpace(s[0])
    ensures TrimStart(s) == s
  {
  }

  lemma {:induction false} TrimEndOfTrimmed(s: string)
    requires s == [] || !IsSpace(s[|s| - 1])
    ensures TrimEnd(s) == s
  {
  }

  /** Trimming twice is trimming once. */
  lemma TrimIdempotent(s: string)
    ensures Trim(Trim(s)) == Trim(s)
  {
    TrimStartOfTrimmed(Trim(s));
    TrimEndOfTrimmed(Trim(s));
  }

  /** `trim` removes exactly the padding around a text that has none of its own. */
  lemma {:induction false} TrimPadded(pre: string, x: string, post: string)
    requires AllSpace(pre) && AllSpace(post) && Trimmed(x)
    ensures Trim(pre + x + post) == x
  {
    if x == [] {
      TrimIsMiddle(pre + x + post);
      assert AllSpace(pre + x + post) by {
        forall k | 0 <= k < |pre + x + post| ensures IsSpace((pre + x + post)[k]) {
          if k >= |pre| { assert (pre + x + post)[k] == post[k - |pre|]; }
        }
      }
    } else {
      assert pre + x + post == pre + (x + post);
      TrimStartPadded(pre, x + post);
      TrimEndPadded(x, post);
    }
  }

  lemma {:induction false} TrimStartPadded(pre: string, y: string)
    requires AllSpace(pre) && (y == [] || !IsSpace(y[0]))
    ensures TrimStart(pre + y) == y
  {
    if pre == [] {
      assert pre + y == y;
      TrimStartOfTrimmed(y);
    } else {
      assert (pre + y)[1..] == pre[1..] + y;
      assert IsSpace(pre[0]);
      TrimStartPadded(pre[1..], y);
    }
  }

  lemma {:induction false} TrimEndPadded(x: string, post: string)
    requires AllSpace(post) && x != [] && !IsSpace(x[|x| - 1])
    ensures TrimEnd(x + post) == x
  {
    if post == [] {
      assert x + post == x;
      TrimEndOfTrimmed(x);
    } else {
      assert (x + post)[..|x + post| - 1] == x + post[..|post| - 1];
      assert IsSpace(post[|post| - 1]);
      TrimEndPadded(x, post[..|post| - 1]);
    }
  }

  /** `toLowerCase` on the letters A to Z; every other character is kept. */
  function LowerChar(c: char): char {
    if 'A' <= c <= 'Z' then (c as int + 32) as char else c
  }

  /** `toLowerCase`, character by character. */
  function Lower(s: string): (r: string)
    ensures |r| == |s|
    ensures forall i | 0 <= i < |s| ::
              r[i] == (if 'A' <= s[i] <= 'Z' then (s[i] as int + 32) as char else s[i])
  {
    seq(|s|, i requires 0 <= i < |s| => LowerChar(s[i]))
  }

  /** Lower-casing a lower-cased string changes nothing. */
  lemma LowerIdempotent(s: string)
    ensures Lower(Lower(s)) == Lower(s)
  {
  }

  /** Lower-casing commutes with taking a slice. */
  lemma LowerSlice(s: string, i: int, j: int)
    requires 0 <= i <= j <= |s|
    ensures Lower(s)[i..j] == Lower(s[i..j])
  {
  }

  /** `w` occurs in `s` as a contiguous piece: what `s.includes(w)` answers. */
  predicate HasInfix(s: string, w: string) {
    exists i | 0 <= i <= |s| - |w| :: OccursAt(s, w, i)
  }

  /** `w` occurs in `s` starting at position `i`. */
  predicate OccursAt(s: string, w: string, i: int) {
    0 <= i <= |s| - |w| && s[i..i + |w|] == w
  }

  /** A search for `w` in `s` that tries each starting position from the left. */
  function Includes(s: string, w: string): (r: bool)
    ensures r <==> HasInfix(s, w)
    decreases |s|
  {
    if |w| > |s| then false
    else if s[..|w|] == w then
      assert OccursAt(s, w, 0);
      true
    else
      InfixOfTail(s, w);
      Includes(s[1..], w)
  }

  /** When `w` is not a prefix of `s`, it occurs in `s` exactly when it occurs in the tail. */
  lemma {:induction false} InfixOfTail(s: string, w: string)
    requires |w| <= |s| && s[..|w|] != w
    ensures HasInfix(s, w) <==> HasInfix(s[1..], w)
  {
    var tail := s[1..];
    if HasInfix(tail, w) {
      var i :| 0 <= i <= |tail| - |w| && OccursAt(tail, w, i);
      assert s[i + 1..i + 1 + |w|] == tail[i..i + |w|];
      assert OccursAt(s, w, i + 1);
    }
    if HasInfix(s, w) {
      var i :| 0 <= i <= |s| - |w| && OccursAt(s, w, i);
      assert i != 0;
      assert tail[i - 1..i - 1 + |w|] == s[i..i + |w|];
      assert OccursAt(tail, w, i - 1);
    }
  }

  /** An occurrence of `w` is an occurrence of its lower-cased form once `s` is lower-cased:
      this is why a case-insensitive `includes` is `Lower(s).includes(Lower(w))`. */
  lemma LowerKeepsInfix(s: string, w: string)
    requires HasInfix(s, w)
    ensures HasInfix(Lower(s), Lower(w))
  {
    var i :| 0 <= i <= |s| - |w| && OccursAt(s, w, i);
    LowerSlice(s, i, i + |w|);
    assert OccursAt(Lower(s), Lower(w), i);
  }

  /** A word with a character that `s` lacks cannot occur in `s`. */
  lemma AbsentCharacter(s: string, w: string, c: char)
    requires c in w && c !in s
    ensures !HasInfix(s, w)
  {
  }
}

/**
 The icon reference parser: the rule pattern `^i-(\w+)-(.+)$` of the icons
 preset, written out by hand. In a JavaScript regular expression without the
 `u` flag, `\w` is `[A-Za-z0-9_]` and `.` is any character except the four
 line terminators. Because `\w` excludes `-`, the collection id is the longest
 run of word characters after `i-`, and the icon id is everything after the
 `-` that ends that run.
 */
module Reference {
  import opened Wrappers

  /** A parsed reference: the two capture groups of the rule pattern. */
  datatype IconRef = IconRef(collection: string, icon: string)

  /** `\w` in a non-Unicode JavaScript regular expression. */
  predicate IsWordChar(c: char) {
    ('a' <= c <= 'z') || ('A' <= c <= 'Z') || ('0' <= c <= '9') || c == '_'
  }

  /** Characters that `.` does not match: LF, CR, LINE SEPARATOR, PARAGRAPH SEPARATOR. */
  predicate IsLineTerminator(c: char) {
    c == '\n' || c == '\r' || c == '\U{2028}' || c == '\U{2029}'
  }

  /** `s` matches `\w+`. */
  predicate IsWord(s: string) {
    |s| > 0 && forall i :: 0 <= i < |s| ==> IsWordChar(s[i])
  }

  /** `s` matches `.+`. */
  predicate IsLine(s: string) {
    |s| > 0 && forall i :: 0 <= i < |s| ==> !IsLineTerminator(s[i])
  }

  /** The two capture groups are what the pattern could have captured. */
  predicate WellFormed(r: IconRef) {
    IsWord(r.collection) && IsLine(r.icon)
  }

  /** The class name a reference is written as. */
  function Token(r: IconRef): string {
    "i-" + r.collection + "-" + r.icon
  }

  /** Length of the longest prefix of `s` made of word characters. */
  function WordPrefixLength(s: string): (k: nat)
    ensures k <= |s|
    ensures forall i :: 0 <= i < k ==> IsWordChar(s[i])
    ensures k < |s| ==> !IsWordChar(s[k])
  {
    if |s| == 0 || !IsWordChar(s[0]) then 0
    else 1 + WordPrefixLength(s[1..])
  }

  /** True when no character of `s` is a line terminator (the loop behind `.+`). */
  function NoLineTerminator(s: string): (b: bool)
    ensures b <==> forall i :: 0 <= i < |s| ==> !IsLineTerminator(s[i])
  {
    if |s| == 0 then true
    else !IsLineTerminator(s[0]) && NoLineTerminator(s[1..])
  }

  /** Match `^i-(\w+)-(.+)$` against a class name; `None` when it does not match. */
  function Parse(token: string): (r: Option<IconRef>)
    ensures r.Some? ==> WellFormed(r.value) && Token(r.value) == token
  {
    if |token| < 2 || token[..2] != "i-" then None
    else
      var rest := token[2..];
      var k := WordPrefixLength(rest);
      if k == 0 || k + 1 >= |rest| || rest[k] != '-' then None
      else if !NoLineTerminator(rest[k + 1..]) then None
      else
        var r := IconRef(rest[..k], rest[k + 1..]);
        assert Token(r) == token by {
          assert rest == rest[..k] + "-" + rest[k + 1..];
          assert token == token[..2] + rest;
        }
        Some(r)
  }

  /** The longest word prefix of `w + "-" + t` is exactly the word `w`. */
  lemma {:induction false} WordPrefixStopsAtDash(w: string, t: string)
    requires forall i :: 0 <= i < |w| ==> IsWordChar(w[i])
    ensures WordPrefixLength(w + "-" + t) == |w|
  {
    if |w| > 0 {
      assert (w + "-" + t)[1..] == w[1..] + "-" + t;
      WordPrefixStopsAtDash(w[1..], t);
    }
  }

  /** Every well-formed reference is recovered from its class name: the split is unique. */
  lemma ParseToken(r: IconRef)
    requires WellFormed(r)
    ensures Parse(Token(r)) == Some(r)
  {
    var token := Token(r);
    var rest := token[2..];
    assert rest == r.collection + "-" + r.icon;
    var k := WordPrefixLength(rest);
    WordPrefixStopsAtDash(r.collection, r.icon);
    assert rest[..k] == r.collection;
    assert rest[k + 1..] == r.icon;
  }

  /** The pattern matches exactly the class names of well-formed references. */
  lemma ParseMatchesExactly(token: string)
    ensures Parse(token).Some? <==> exists r :: WellFormed(r) && Token(r) == token
  {
    if exists r :: WellFormed(r) && Token(r) == token {
      var r :| WellFormed(r) && Token(r) == token;
      ParseToken(r);
    }
  }
}

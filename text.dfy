/** Text helpers the post resolvers rely on: the whitespace trimming that
    `String.prototype.trim` performs, and the code-point-wise lexicographic
    order in which the document store compares string fields such as
    `createdAt`. */
module Text {

  /** The code points `String.prototype.trim` strips: the WhiteSpace
      productions of the ECMAScript language specification (TAB, VT, FF,
      SPACE, NO-BREAK SPACE, ZERO WIDTH NO-BREAK SPACE and every other
      Unicode "Space_Separator") and its LineTerminator productions (LF, CR,
      LINE SEPARATOR, PARAGRAPH SEPARATOR). */
  predicate IsWhitespace(c: char) {
    || c == '\U{0009}' || c == '\U{000B}' || c == '\U{000C}' || c == '\U{0020}'
    || c == '\U{00A0}' || c == '\U{FEFF}'
    || c == '\U{1680}' || ('\U{2000}' <= c <= '\U{200A}') || c == '\U{202F}'
    || c == '\U{205F}' || c == '\U{3000}'
    || c == '\U{000A}' || c == '\U{000D}' || c == '\U{2028}' || c == '\U{2029}'
  }

  predicate AllWhitespace(s: string) {
    forall i :: 0 <= i < |s| ==> IsWhitespace(s[i])
  }

  /** The length of the whitespace run at the start of `s`. */
  function LeadingWhitespace(s: string): (n: nat)
    ensures n <= |s|
    ensures AllWhitespace(s[..n])
    ensures n < |s| ==> !IsWhitespace(s[n])
  {
    if s == [] || !IsWhitespace(s[0]) then 0
    else
      var k := LeadingWhitespace(s[1..]);
      assert s[1..][..k] == s[1..k + 1];
      1 + k
  }

  /** The position just after the last character of `s` that is not
      whitespace (0 when there is none). */
  function ContentEnd(s: string): (n: nat)
    ensures n <= |s|
    ensures AllWhitespace(s[n..])
    ensures n > 0 ==> !IsWhitespace(s[n - 1])
  {
    if s == [] || !IsWhitespace(s[|s| - 1]) then |s|
    else
      var k := ContentEnd(s[..|s| - 1]);
      assert s[k..] == s[..|s| - 1][k..] + [s[|s| - 1]];
      k
  }

  /** `s.trim()`: `s` without its leading and trailing whitespace. The
      result is the infix of `s` that starts after the leading whitespace,
      everything after it is whitespace, and it neither starts nor ends
      with whitespace. */
  function Trim(s: string): (r: string)
    ensures LeadingWhitespace(s) + |r| <= |s|
    ensures r == s[LeadingWhitespace(s)..LeadingWhitespace(s) + |r|]
    ensures AllWhitespace(s[LeadingWhitespace(s) + |r|..])
    ensures r != [] ==> !IsWhitespace(r[0]) && !IsWhitespace(r[|r| - 1])
  {
    var a := LeadingWhitespace(s);
    var b := ContentEnd(s);
    if b <= a then
      assert s[a..] == s[b..][a - b..];
      []
    else
      s[a..b]
  }

  /** The condition `body.trim() === ""`: it holds exactly when the
      leading whitespace run covers the whole string. */
  function IsBlank(s: string): (b: bool)
    ensures b <==> LeadingWhitespace(s) == |s|
  {
    Trim(s) == []
  }

  /** A string trims to nothing exactly when every character of it is
      whitespace. */
  lemma BlankIffAllWhitespace(s: string)
    ensures IsBlank(s) <==> AllWhitespace(s)
  {
    var a := LeadingWhitespace(s);
    if IsBlank(s) {
      assert s[..a] == s;
    } else {
      var r := Trim(s);
      assert r[0] == s[a];
    }
  }

  /** `s` holds at least one character that is not whitespace. */
  predicate HasContent(s: string) {
    s != [] && (!IsWhitespace(s[0]) || HasContent(s[1..]))
  }

  lemma {:induction false} HasContentIffNotAllWhitespace(s: string)
    ensures HasContent(s) <==> !AllWhitespace(s)
  {
    if s != [] {
      HasContentIffNotAllWhitespace(s[1..]);
      assert AllWhitespace(s) <==> IsWhitespace(s[0]) && AllWhitespace(s[1..]) by {
        if IsWhitespace(s[0]) && AllWhitespace(s[1..]) {
          forall i | 0 <= i < |s| ensures IsWhitespace(s[i]) {
            if i > 0 { assert s[i] == s[1..][i - 1]; }
          }
        }
      }
    }
  }

  /** A body passes the emptiness check exactly when it has content. */
  lemma HasContentIffNotBlank(s: string)
    ensures HasContent(s) <==> !IsBlank(s)
  {
    HasContentIffNotAllWhitespace(s);
    BlankIffAllWhitespace(s);
  }

  /** `a` sorts no later than `b`: lexicographic order on code points, a
      proper prefix sorting first. */
  predicate LexLe(a: string, b: string) {
    a == [] || (b != [] && (a[0] < b[0] || (a[0] == b[0] && LexLe(a[1..], b[1..]))))
  }

  /** Every string sorts no later than itself. */
  lemma {:induction false} LexLeReflexive(a: string)
    ensures LexLe(a, a)
  {
    if a != [] { LexLeReflexive(a[1..]); }
  }

  /** Any two strings are comparable. */
  lemma {:induction false} LexLeTotal(a: string, b: string)
    ensures LexLe(a, b) || LexLe(b, a)
  {
    if a != [] && b != [] && a[0] == b[0] { LexLeTotal(a[1..], b[1..]); }
  }

  lemma {:induction false} LexLeTransitive(a: string, b: string, c: string)
    requires LexLe(a, b) && LexLe(b, c)
    ensures LexLe(a, c)
  {
    if a != [] && b != [] && c != [] && a[0] == b[0] == c[0] {
      LexLeTransitive(a[1..], b[1..], c[1..]);
    }
  }

  lemma {:induction false} LexLeAntisymmetric(a: string, b: string)
    requires LexLe(a, b) && LexLe(b, a)
    ensures a == b
  {
    if a != [] && b != [] {
      LexLeAntisymmetric(a[1..], b[1..]);
      assert a == [a[0]] + a[1..] && b == [b[0]] + b[1..];
    }
  }
}

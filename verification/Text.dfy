/** Go's ordering of strings, as used by sort.Strings and by the less functions. */
module Text {

  /** Lexicographic order on code points; Dafny's own `<` on strings is the prefix order. */
  predicate Less(a: string, b: string) {
    b != [] && (a == [] || a[0] < b[0] || (a[0] == b[0] && Less(a[1..], b[1..])))
  }

  /** The first k characters agree, and then a ends or has the smaller character. */
  predicate SmallerAt(a: string, b: string, k: nat) {
    k <= |a| && k < |b| && a[..k] == b[..k] && (k == |a| || a[k] < b[k])
  }

  ghost predicate Smaller(a: string, b: string) {
    exists k: nat :: SmallerAt(a, b, k)
  }

  lemma {:induction false} LessIff(a: string, b: string)
    ensures Less(a, b) <==> Smaller(a, b)
  {
    if b != [] && a != [] && a[0] == b[0] {
      LessIff(a[1..], b[1..]);
      if k: nat :| SmallerAt(a[1..], b[1..], k) {
        assert a[..k + 1] == [a[0]] + a[1..][..k] && b[..k + 1] == [b[0]] + b[1..][..k];
        assert SmallerAt(a, b, k + 1);
      }
      if k: nat :| SmallerAt(a, b, k) {
        assert k > 0 && a[1..][..k - 1] == a[..k][1..] && b[1..][..k - 1] == b[..k][1..];
        assert SmallerAt(a[1..], b[1..], k - 1);
      }
    } else if b != [] {
      assert SmallerAt(a, b, 0) <==> Less(a, b);
      forall k: nat | 0 < k <= |a| && k < |b|
        ensures a[..k] != b[..k]
      {
        assert a[..k][0] == a[0] && b[..k][0] == b[0];
      }
    }
  }

  lemma {:induction false} LessTotal(a: string, b: string)
    requires a != b
    ensures Less(a, b) || Less(b, a)
  {
    if a != [] && b != [] && a[0] == b[0] {
      assert a == [a[0]] + a[1..] && b == [b[0]] + b[1..];
      LessTotal(a[1..], b[1..]);
    }
  }

  lemma {:induction false} LessAsymmetric(a: string, b: string)
    requires Less(a, b)
    ensures !Less(b, a) && a != b
  {
    if a != [] && a[0] == b[0] {
      LessAsymmetric(a[1..], b[1..]);
    }
  }

  lemma {:induction false} LessTransitive(a: string, b: string, c: string)
    requires Less(a, b) && Less(b, c)
    ensures Less(a, c)
  {
    if a != [] && a[0] == b[0] == c[0] {
      LessTransitive(a[1..], b[1..], c[1..]);
    }
  }

  lemma NotLessTransitive(a: string, b: string, c: string)
    requires !Less(b, a) && !Less(c, b)
    ensures !Less(c, a)
    ensures a == c ==> a == b
  {
    if a != b && b != c {
      LessTotal(a, b);
      LessTotal(b, c);
      LessTransitive(a, b, c);
      LessAsymmetric(a, c);
    }
  }

  /** unicode.IsSpace */
  predicate IsSpace(c: char) {
    || '\t' <= c <= '\r' || c == ' ' || c == '\U{85}' || c == '\U{A0}' || c == '\U{1680}'
    || '\U{2000}' <= c <= '\U{200A}' || c == '\U{2028}' || c == '\U{2029}' || c == '\U{202F}' || c == '\U{205F}'
      || c == '\U{3000}'
  }

  /** strings.TrimSpace */
  function TrimSpace(s: string): string {
    TrimRight(TrimLeft(s))
  }

  function TrimLeft(s: string): string {
    if s != [] && IsSpace(s[0]) then TrimLeft(s[1..]) else s
  }

  function TrimRight(s: string): string {
    if s != [] && IsSpace(s[|s| - 1]) then TrimRight(s[..|s| - 1]) else s
  }

  /** The code points of Unicode's White_Space property. */
  const WHITE_SPACE := "\t\n\U{B}\U{C}\r \U{85}\U{A0}\U{1680}\U{2000}\U{2001}\U{2002}\U{2003}\U{2004}\U{2005}"
    + "\U{2006}\U{2007}\U{2008}\U{2009}\U{200A}\U{2028}\U{2029}\U{202F}\U{205F}\U{3000}"

  ghost predicate Blank(s: string) {
    forall c :: c in s ==> c in WHITE_SPACE
  }

  /** The text without the white space around it. */
  ghost predicate IsTrimmed(s: string, d: string) {
    && d != "" && d[0] !in WHITE_SPACE && d[|d| - 1] !in WHITE_SPACE
    && exists l, r :: Blank(l) && Blank(r) && s == l + d + r
  }

  ghost predicate NotBlank(s: string) {
    !Blank(s)
  }

  lemma SpaceIff(c: char)
    ensures IsSpace(c) <==> c in WHITE_SPACE
  {
  }

  lemma {:induction false} TrimLeftCuts(s: string) returns (l: string)
    ensures Blank(l) && s == l + TrimLeft(s)
    ensures TrimLeft(s) != "" ==> TrimLeft(s)[0] !in WHITE_SPACE
  {
    l := "";
    if s != "" {
      SpaceIff(s[0]);
      if IsSpace(s[0]) {
        l := TrimLeftCuts(s[1..]);
        l := [s[0]] + l;
      }
    }
  }

  lemma {:induction false} TrimRightCuts(s: string) returns (r: string)
    ensures Blank(r) && s == TrimRight(s) + r
    ensures TrimRight(s) != "" ==> TrimRight(s)[|TrimRight(s)| - 1] !in WHITE_SPACE
  {
    r := "";
    if s != "" {
      SpaceIff(s[|s| - 1]);
      if IsSpace(s[|s| - 1]) {
        r := TrimRightCuts(s[..|s| - 1]);
        r := r + [s[|s| - 1]];
      }
    }
  }

  lemma {:induction false} TrimLeftOf(l: string, s: string)
    requires Blank(l) && (s == "" || s[0] !in WHITE_SPACE)
    ensures TrimLeft(l + s) == s
  {
    if l != "" {
      SpaceIff(l[0]);
      assert (l + s)[1..] == l[1..] + s;
      TrimLeftOf(l[1..], s);
    } else if s != "" {
      SpaceIff(s[0]);
      assert l + s == s;
    }
  }

  lemma {:induction false} TrimRightOf(s: string, r: string)
    requires Blank(r) && (s == "" || s[|s| - 1] !in WHITE_SPACE)
    ensures TrimRight(s + r) == s
  {
    if r != "" {
      SpaceIff(r[|r| - 1]);
      assert (s + r)[..|s + r| - 1] == s + r[..|r| - 1];
      TrimRightOf(s, r[..|r| - 1]);
    } else if s != "" {
      SpaceIff(s[|s| - 1]);
      assert s + r == s;
    }
  }

  /** TrimSpace takes off all white space there is at either end, and nothing else. */
  lemma TrimIff(s: string, d: string)
    ensures TrimSpace(s) == "" <==> Blank(s)
    ensures d != "" ==> (TrimSpace(s) == d <==> IsTrimmed(s, d))
  {
    var t := TrimLeft(s);
    var l := TrimLeftCuts(s);
    var r := TrimRightCuts(t);
    var trimmed := TrimSpace(s);
    assert t == trimmed + r && s == l + trimmed + r;
    assert trimmed != "" ==> trimmed[0] == t[0];
    assert trimmed != "" ==> trimmed[0] in s;
    if IsTrimmed(s, d) {
      TrimmedOnce(s, d);
    }
  }

  lemma TrimmedOnce(s: string, d: string)
    requires IsTrimmed(s, d)
    ensures TrimSpace(s) == d
  {
    var l, r :| Blank(l) && Blank(r) && s == l + d + r;
    assert s == l + (d + r);
    TrimLeftOf(l, d + r);
    TrimRightOf(d, r);
  }

  /** strings.ToLower, for ASCII letters and the two other letters whose lower case is ASCII. */
  function ToLower(s: string): (r: string)
    ensures |r| == |s|
  {
    if s == [] then [] else [LowerOf(s[0])] + ToLower(s[1..])
  }

  lemma {:induction false} LowerAt(s: string)
    ensures forall i :: 0 <= i < |s| ==> ToLower(s)[i] == LowerOf(s[i])
  {
    if s != [] {
      LowerAt(s[1..]);
      assert forall i :: 0 < i < |s| ==> s[i] == s[1..][i - 1];
    }
  }

  function LowerOf(c: char): char {
    if 'A' <= c <= 'Z' then c + 32 as char
    else if c == '\U{212A}' then 'k'
    else if c == '\U{130}' then 'i'
    else c
  }

  /** strings.Join */
  function Join(parts: seq<string>, sep: string): string {
    if parts == [] then "" else if |parts| == 1 then parts[0] else parts[0] + sep + Join(parts[1..], sep)
  }

  predicate IsAlphanumeric(c: char) {
    'a' <= c <= 'z' || '0' <= c <= '9'
  }

  /** A label of section 2.1 of RFC 1123, in lower case. */
  predicate IsDns1123Label(s: string) {
    && 0 < |s| <= 63
    && IsAlphanumeric(s[0]) && IsAlphanumeric(s[|s| - 1])
    && forall i :: 0 <= i < |s| ==> IsAlphanumeric(s[i]) || s[i] == '-'
  }
}

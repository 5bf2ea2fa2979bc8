/** The optional value used wherever the source has a nullable reference or an Optional. */
module Optional {
  datatype Option<+T> = None | Some(value: T)
}

/**
 * The two java.lang.String operations the core relies on: compareTo (the order of registry
 * keys and of query rows) and isBlank (the payee and datum-head rules).
 */
module JavaStrings {

  /**
   * String.compareTo: the difference of the first pair of differing characters, or, when one
   * string is a prefix of the other, the difference of the lengths. Characters here are Unicode
   * scalar values, where Java compares UTF-16 units; the two orders agree below U+E000, and so
   * on the hex and ASCII keys the service compares.
   */
  function CompareTo(a: string, b: string): (r: int)
    ensures r == 0 <==> a == b
    decreases |a|
  {
    if |a| == 0 || |b| == 0 then |a| - |b|
    else if a[0] != b[0] then (a[0] as int) - (b[0] as int)
    else CompareTo(a[1..], b[1..])
  }

  /** `a.compareTo(b) < 0`: the strict lexicographic order on strings. */
  predicate Less(a: string, b: string) {
    CompareTo(a, b) < 0
  }

  lemma LessIrreflexive(a: string)
    ensures !Less(a, a)
  {
  }

  lemma {:induction false} CompareToAntisymmetric(a: string, b: string)
    ensures CompareTo(a, b) == -CompareTo(b, a)
    decreases |a|
  {
    if |a| > 0 && |b| > 0 && a[0] == b[0] {
      CompareToAntisymmetric(a[1..], b[1..]);
    }
  }

  lemma LessAsymmetric(a: string, b: string)
    ensures Less(a, b) ==> !Less(b, a)
  {
    CompareToAntisymmetric(a, b);
  }

  lemma LessTotal(a: string, b: string)
    ensures a == b || Less(a, b) || Less(b, a)
  {
    CompareToAntisymmetric(a, b);
  }

  lemma {:induction false} LessTransitive(a: string, b: string, c: string)
    requires Less(a, b) && Less(b, c)
    ensures Less(a, c)
    decreases |a|
  {
    if |a| > 0 && a[0] == b[0] && b[0] == c[0] {
      LessTransitive(a[1..], b[1..], c[1..]);
    }
  }

  /** The empty string, the key of the registry head, is below every other string. */
  lemma EmptyIsLeast(s: string)
    requires s != ""
    ensures Less("", s)
  {
  }

  /** Character.isWhitespace: the Unicode space, line and paragraph separators other than the
      no-break spaces U+00A0, U+2007 and U+202F, and the controls U+0009 to U+000D, U+001C to U+001F. */
  predicate IsWhitespace(c: char) {
    || ('\U{9}' <= c <= '\U{D}')
    || ('\U{1C}' <= c <= '\U{1F}')
    || c == ' '
    || c == '\U{1680}'
    || ('\U{2000}' <= c <= '\U{2006}')
    || ('\U{2008}' <= c <= '\U{200A}')
    || c == '\U{2028}'
    || c == '\U{2029}'
    || c == '\U{205F}'
    || c == '\U{3000}'
  }

  /** String.isBlank: empty, or nothing but white space. */
  predicate IsBlank(s: string)
    ensures s == "" ==> IsBlank(s)
    ensures IsBlank(s) ==> forall i :: 0 <= i < |s| ==> !('!' <= s[i] <= '~')
  {
    forall i :: 0 <= i < |s| ==> IsWhitespace(s[i])
  }
}

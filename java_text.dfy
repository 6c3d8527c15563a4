/** The few `java.lang.String` and Apache commons-lang `StringUtils`
    operations that the thread-dump reader relies on, written out over
    `seq<char>`. */
module JavaText {

  /** `s.startsWith(p)` */
  predicate StartsWith(s: string, p: string) {
    |p| <= |s| && s[..|p|] == p
  }

  /** `s.contains(p)`: `p` starts at some position of `s`. */
  predicate Contains(s: string, p: string)
    decreases |s|
  {
    StartsWith(s, p) || (|s| > 0 && Contains(s[1..], p))
  }

  /** `p` occurs in `s` at index `k`. */
  predicate OccursAt(s: string, p: string, k: nat) {
    k + |p| <= |s| && s[k..k + |p|] == p
  }

  /** `Contains` holds exactly when `p` occurs in `s` at some index. */
  lemma {:induction false} ContainsIff(s: string, p: string)
    ensures Contains(s, p) <==> exists k: nat :: OccursAt(s, p, k)
    decreases |s|
  {
    if StartsWith(s, p) {
      assert s[0..|p|] == s[..|p|];
      assert OccursAt(s, p, 0);
    }
    if exists k: nat :: OccursAt(s, p, k) {
      var k: nat :| OccursAt(s, p, k);
      if k == 0 {
        assert s[..|p|] == s[0..|p|];
      } else {
        assert s[1..][k - 1..k - 1 + |p|] == s[k..k + |p|];
        assert OccursAt(s[1..], p, k - 1);
        ContainsIff(s[1..], p);
      }
    }
    if |s| > 0 && Contains(s[1..], p) {
      ContainsIff(s[1..], p);
      var k: nat :| OccursAt(s[1..], p, k);
      assert s[1..][k..k + |p|] == s[k + 1..k + 1 + |p|];
      assert OccursAt(s, p, k + 1);
    }
  }

  /** `Character.isWhitespace(c)`: the Unicode space, line and paragraph
      separators other than the non-breaking ones, plus the ASCII controls
      TAB, LF, VT, FF, CR and FS, GS, RS, US. The set is the one of Java 9
      and later (Unicode 8 and later), where U+180E MONGOLIAN VOWEL
      SEPARATOR is no longer a space; Java 8 still counts it. */
  predicate IsWhitespace(c: char) {
    c == ' ' || ('\t' <= c <= '\r') || ('\U{1C}' <= c <= '\U{1F}')
    || c == '\U{1680}' || ('\U{2000}' <= c <= '\U{200A}' && c != '\U{2007}')
    || c == '\U{2028}' || c == '\U{2029}' || c == '\U{205F}' || c == '\U{3000}'
  }

  /** `StringUtils.isBlank(s)` for a non-null `s`: empty or whitespace only. */
  predicate IsBlank(s: string) {
    forall k :: 0 <= k < |s| ==> IsWhitespace(s[k])
  }

  /** `StringUtils.isNotBlank(s)` */
  predicate IsNotBlank(s: string) {
    !IsBlank(s)
  }

  /** Appending is associative (a `StringBuilder` may be read either way). */
  lemma AppendAssoc(a: string, b: string, c: string)
    ensures (a + b) + c == a + (b + c)
  {
  }

  /** Characters that `String.trim` removes: every code point up to U+0020. */
  predicate IsTrimmed(c: char) {
    c <= ' '
  }

  /** Neither the first nor the last character is trimmable. */
  predicate UntrimmedEnds(r: string) {
    r == [] || (!IsTrimmed(r[0]) && !IsTrimmed(r[|r| - 1]))
  }

  /** The first loop of `String.trim`: the index of the first character
      from `i` on that is not trimmable, or `|s|` when there is none. */
  function FirstKept(s: string, i: nat): (r: nat)
    requires i <= |s|
    ensures i <= r <= |s| && (r == |s| || !IsTrimmed(s[r]))
    ensures forall k :: i <= k < r ==> IsTrimmed(s[k])
    decreases |s| - i
  {
    if i < |s| && IsTrimmed(s[i]) then FirstKept(s, i + 1) else i
  }

  /** The second loop of `String.trim`: the end of the last character
      before `j`, and not before `lo`, that is not trimmable, or `lo` when
      there is none. */
  function LastKept(s: string, lo: nat, j: nat): (r: nat)
    requires lo <= j <= |s|
    ensures lo <= r <= j && (r == lo || !IsTrimmed(s[r - 1]))
    ensures forall k :: r <= k < j ==> IsTrimmed(s[k])
    decreases j
  {
    if j > lo && IsTrimmed(s[j - 1]) then LastKept(s, lo, j - 1) else j
  }

  /** `s.trim()`: the longest infix of `s` that neither starts nor ends
      with a trimmable character. */
  function Trim(s: string): (r: string)
    ensures UntrimmedEnds(r)
    ensures TrimmedAt(s, r, FirstKept(s, 0))
  {
    var a := FirstKept(s, 0);
    s[a..LastKept(s, a, |s|)]
  }

  /** `r` is the infix of `s` at `k`, and every character of `s` before
      and after it is trimmable. */
  predicate TrimmedAt(s: string, r: string, k: nat) {
    k + |r| <= |s| && r == s[k..k + |r|]
    && (forall i :: 0 <= i < k ==> IsTrimmed(s[i]))
    && (forall i :: k + |r| <= i < |s| ==> IsTrimmed(s[i]))
  }

  /** At most one infix of `s` has only trimmable characters around it and
      untrimmable ends. */
  lemma TrimmedAtUnique(s: string, r1: string, k1: nat, r2: string, k2: nat)
    requires TrimmedAt(s, r1, k1) && UntrimmedEnds(r1)
    requires TrimmedAt(s, r2, k2) && UntrimmedEnds(r2)
    ensures r1 == r2
  {
    if r1 != [] {
      assert r1[0] == s[k1] && r1[|r1| - 1] == s[k1 + |r1| - 1];
    }
    if r2 != [] {
      assert r2[0] == s[k2] && r2[|r2| - 1] == s[k2 + |r2| - 1];
    }
    if r1 != [] && r2 != [] {
      assert k1 == k2 && |r1| == |r2|;
    }
  }

  /** The two properties of `Trim` pin it down: any infix of `s` with only
      trimmable characters around it and untrimmable ends is the trimmed
      string. */
  lemma TrimDetermined(s: string, r: string, k: nat)
    requires TrimmedAt(s, r, k) && UntrimmedEnds(r)
    ensures r == Trim(s)
  {
    TrimmedAtUnique(s, r, k, Trim(s), FirstKept(s, 0));
  }

  /** Trimming twice is trimming once. */
  lemma TrimIdempotent(s: string)
    ensures Trim(Trim(s)) == Trim(s)
  {
    var t := Trim(s);
    assert TrimmedAt(t, t, 0);
    TrimDetermined(t, t, 0);
  }
}

/** The parts of Go's strings package that the modelled code relies on. */
module Text {

  /** unicode.IsSpace. */
  predicate IsSpace(c: char) {
    || '\t' <= c <= '\r' || c == ' ' || c == '\U{0085}' || c == '\U{00A0}' || c == '\U{1680}'
    || '\U{2000}' <= c <= '\U{200A}' || c == '\U{2028}' || c == '\U{2029}' || c == '\U{202F}'
    || c == '\U{205F}' || c == '\U{3000}'
  }

  /** The first character from i on that is no space. */
  function FirstKept(s: string, i: nat): (n: nat)
    requires i <= |s|
    ensures i <= n <= |s| && (n < |s| ==> !IsSpace(s[n]))
    ensures i < |s| && !IsSpace(s[i]) ==> n == i
    decreases |s| - i
  {
    if i == |s| || !IsSpace(s[i]) then i else FirstKept(s, i + 1)
  }

  /** The end of s without the spaces before j, but not before i. */
  function LastKept(s: string, i: nat, j: nat): (n: nat)
    requires i <= j <= |s|
    ensures i <= n <= j && (n > i ==> !IsSpace(s[n - 1]))
    ensures i < j && !IsSpace(s[j - 1]) ==> n == j
  {
    if j == i || !IsSpace(s[j - 1]) then j else LastKept(s, i, j - 1)
  }

  /** strings.TrimSpace. */
  function TrimSpace(s: string): (r: string)
    ensures Trimmed(r)
    ensures Trimmed(s) ==> r == s
  {
    var from := FirstKept(s, 0);
    s[from..LastKept(s, from, |s|)]
  }

  predicate Trimmed(s: string) {
    s == [] || (!IsSpace(s[0]) && !IsSpace(s[|s| - 1]))
  }

  /** Spaces go at both ends, and nothing else does. */
  lemma {:induction false} TrimsToMiddle(before: string, middle: string, after: string)
    requires (forall c :: c in before ==> IsSpace(c)) && (forall c :: c in after ==> IsSpace(c))
    requires middle != "" ==> !IsSpace(middle[0]) && !IsSpace(middle[|middle| - 1])
    ensures TrimSpace(before + middle + after) == middle
  {
    hide IsSpace, FirstKept, LastKept;
    var s := before + middle + after;
    var i, j := |before|, |before| + |middle|;
    assert forall k :: 0 <= k < i ==> s[k] == before[k] && s[k] in before;
    assert forall k :: j <= k < |s| ==> s[k] == after[k - j] && s[k] in after;
    if middle == "" {
      assert FirstKept(s, 0) == |s|;
    } else {
      assert s[i] == middle[0] && s[j - 1] == middle[|middle| - 1];
      SkipsTo(s, 0, i);
      DropsTo(s, i, j, |s|);
      assert s[i..j] == middle;
    }
  }

  lemma {:induction false} SkipsTo(s: string, i: nat, n: nat)
    requires i <= n < |s| && !IsSpace(s[n]) && forall k :: i <= k < n ==> IsSpace(s[k])
    ensures FirstKept(s, i) == n
    decreases n - i
  {
    if i < n { SkipsTo(s, i + 1, n); }
  }

  lemma {:induction false} DropsTo(s: string, i: nat, n: nat, j: nat)
    requires i < n <= j <= |s| && !IsSpace(s[n - 1]) && forall k :: n <= k < j ==> IsSpace(s[k])
    ensures LastKept(s, i, j) == n
    decreases j - n
  {
    if n < j { DropsTo(s, i, n, j - 1); }
  }

  predicate HasPrefix(s: string, prefix: string) {
    prefix <= s
  }

  predicate HasSuffix(s: string, suffix: string) {
    |suffix| <= |s| && s[|s| - |suffix|..] == suffix
  }
}

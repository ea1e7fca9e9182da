/** The two java.lang.String operations the queries rely on, over ASCII:
    `equalsIgnoreCase` (borough matching) and `indexOf` (crime description matching). */
module Text {

  /** ASCII upper-casing of one character; every other character is left as it is. */
  function Upper(c: char): char
  {
    if 'a' <= c <= 'z' then (c as int - 32) as char else c
  }

  /** Case-insensitive equality: same length and the same letters up to case. */
  function EqualsIgnoreCase(a: string, b: string): (eq: bool)
    ensures a == b ==> eq
    ensures eq ==> |a| == |b|
  {
    |a| == |b| && forall i :: 0 <= i < |a| ==> Upper(a[i]) == Upper(b[i])
  }

  /** Case-insensitive equality is transitive. */
  lemma EqualsIgnoreCaseTrans(a: string, b: string, c: string)
    requires EqualsIgnoreCase(a, b) && EqualsIgnoreCase(b, c)
    ensures EqualsIgnoreCase(a, c)
  {
    forall i | 0 <= i < |a| ensures Upper(a[i]) == Upper(c[i]) {
      assert Upper(a[i]) == Upper(b[i]) == Upper(c[i]);
    }
  }

  /** `sub` occurs in `s` starting at position `k`. */
  predicate OccursAt(s: string, sub: string, k: int)
  {
    0 <= k && k + |sub| <= |s| && s[k..k + |sub|] == sub
  }

  /** Java's `s.indexOf(sub, from)`: the first position at or after `from` where `sub`
      occurs, or -1 when there is none. */
  function IndexOf(s: string, sub: string, from: nat): (k: int)
    ensures k == -1 || (from <= k && OccursAt(s, sub, k))
    ensures k == -1 ==> forall j :: from <= j ==> !OccursAt(s, sub, j)
    ensures k != -1 ==> forall j :: from <= j < k ==> !OccursAt(s, sub, j)
    decreases |s| - from
  {
    if from + |sub| > |s| then -1
    else if s[from..from + |sub|] == sub then from
    else IndexOf(s, sub, from + 1)
  }

  /** `s.indexOf(sub) >= 0`, the substring test of the crime-trend query. */
  predicate Contains(s: string, sub: string)
  {
    IndexOf(s, sub, 0) >= 0
  }

  /** The substring test holds exactly when `sub` occurs somewhere in `s`;
      in particular the empty string is contained in every string. */
  lemma ContainsIff(s: string, sub: string)
    ensures Contains(s, sub) <==> exists k :: OccursAt(s, sub, k)
    ensures sub == [] ==> Contains(s, sub)
  {
    if sub == [] {
      assert OccursAt(s, sub, 0);
    }
    if Contains(s, sub) {
      assert OccursAt(s, sub, IndexOf(s, sub, 0));
    }
  }
}

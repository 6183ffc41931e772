/** Substring search over strings, the `String.prototype.includes` the
    keyword and account filters rely on. */
module TextSearch {

  /** `k` occurs in `t` at offset `i`. */
  ghost predicate OccursAt(t: string, k: string, i: int)
  {
    0 <= i && i + |k| <= |t| && t[i..i + |k|] == k
  }

  /** `t.includes(k)`: scans `t` from the left for `k`; the empty string
      occurs in every string. */
  function Includes(t: string, k: string): (r: bool)
    ensures r <==> exists i :: OccursAt(t, k, i)
    decreases |t|
  {
    if |k| > |t| then
      assert forall i :: !OccursAt(t, k, i);
      false
    else if t[..|k|] == k then
      assert OccursAt(t, k, 0);
      true
    else
      var rest := Includes(t[1..], k);
      ShiftOccurrence(t, k);
      rest
  }

  /** When `k` is not a prefix of `t`, its occurrences in `t` are those in
      `t[1..]`, shifted by one. */
  lemma ShiftOccurrence(t: string, k: string)
    requires |k| <= |t| && t[..|k|] != k
    ensures (exists i :: OccursAt(t, k, i)) <==> (exists j :: OccursAt(t[1..], k, j))
  {
    if i :| OccursAt(t, k, i) {
      assert i != 0;
      assert t[1..][i - 1..i - 1 + |k|] == t[i..i + |k|];
      assert OccursAt(t[1..], k, i - 1);
    }
    if j :| OccursAt(t[1..], k, j) {
      assert t[j + 1..j + 1 + |k|] == t[1..][j..j + |k|];
      assert OccursAt(t, k, j + 1);
    }
  }

  /** What occurs in a part of a string occurs in the whole. */
  lemma IncludesInConcat(a: string, b: string, k: string)
    ensures Includes(a, k) ==> Includes(a + b, k)
    ensures Includes(b, k) ==> Includes(a + b, k)
  {
    if i :| OccursAt(a, k, i) {
      assert (a + b)[i..i + |k|] == a[i..i + |k|];
      assert OccursAt(a + b, k, i);
    }
    if j :| OccursAt(b, k, j) {
      assert (a + b)[|a| + j..|a| + j + |k|] == b[j..j + |k|];
      assert OccursAt(a + b, k, |a| + j);
    }
  }
}

/** Blanks around a text, and the text without them. */
module Blanks {
  predicate Blank(c: char) { c == ' ' || c == '\n' || c == '\t' || c == '\r' }

  predicate AllBlank(s: string) { forall k :: 0 <= k < |s| ==> Blank(s[k]) }

  function FirstInk(s: string, i: nat := 0): (k: nat)
    requires i <= |s|
    ensures i <= k <= |s| && (k < |s| ==> !Blank(s[k])) && forall j :: i <= j < k ==> Blank(s[j])
    decreases |s| - i
  {
    if i < |s| && Blank(s[i]) then FirstInk(s, i + 1) else i
  }

  function LastInk(s: string, n: nat): (k: nat)
    requires n <= |s|
    ensures k <= n && (k > 0 ==> !Blank(s[k - 1])) && forall j :: k <= j < n ==> Blank(s[j])
  {
    if n > 0 && Blank(s[n - 1]) then LastInk(s, n - 1) else n
  }

  function Trim(s: string): (t: string)
    ensures Trimmed(t)
  {
    var left := s[FirstInk(s)..];
    left[..LastInk(left, |left|)]
  }

  predicate Trimmed(s: string) {
    s != "" ==> !Blank(s[0]) && !Blank(s[|s| - 1])
  }

  predicate RightTrimmed(s: string) {
    s != "" ==> !Blank(s[|s| - 1])
  }

  /** Trimming takes away the blanks around, whatever they are, and nothing else. */
  lemma TrimIs(before: string, s: string, after: string)
    requires AllBlank(before) && AllBlank(after) && Trimmed(s)
    ensures Trim(before + s + after) == s
  {
    var all := before + s + after;
    var k := FirstInk(all);
    assert forall j :: 0 <= j < |all| ==>
      all[j] == if j < |before| then before[j] else if j < |before| + |s| then s[j - |before|] else after[j - |before| - |s|];
    if s == "" {
      assert k == |all|;
    } else {
      assert k == |before| by {
        assert all[|before|] == s[0];
        assert forall j :: 0 <= j < |before| ==> Blank(all[j]);
      }
      var left := all[k..];
      assert left == s + after;
      var n := LastInk(left, |left|);
      assert left[|s| - 1] == s[|s| - 1];
      assert forall j :: |s| <= j < |left| ==> Blank(left[j]);
    }
  }

  /** A text is its trimmed self with blanks around. */
  lemma TrimSplits(s: string) returns (front: string, back: string)
    ensures AllBlank(front) && AllBlank(back) && s == front + Trim(s) + back
  {
    var k := FirstInk(s);
    var left := s[k..];
    var n := LastInk(left, |left|);
    front, back := s[..k], left[n..];
    assert left == left[..n] + back;
  }
}

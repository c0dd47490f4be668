/** Two algorithms over C strings, in place: replacing all occurrences as far as there is
    room, and trimming. */
module CString {
  import opened Wrappers
  import opened Bytes
  import opened Blanks

  const NUL := '\0'

  predicate MatchAt(s: string, i: nat, pattern: string) {
    i + |pattern| <= |s| && s[i..i + |pattern|] == pattern
  }

  /** strstr: the first occurrence from `p` on. */
  function FirstMatch(s: string, p: nat, pattern: string): (q: Option<nat>)
    requires p <= |s|
    ensures q.Some? ==> p <= q.value && q.value + |pattern| <= |s| && MatchAt(s, q.value, pattern) && forall k :: p <= k < q.value ==> !MatchAt(s, k, pattern)
    ensures q.None? ==> forall k :: p <= k <= |s| ==> !MatchAt(s, k, pattern)
    decreases |s| - p
  {
    if MatchAt(s, p, pattern) then Some(p) else if p == |s| then None else FirstMatch(s, p + 1, pattern)
  }

  /** All occurrences replaced, from left to right, without regard for room. */
  function ReplacedAll(s: string, p: nat, pattern: string, with: string): string
    requires p <= |s| && pattern != ""
    decreases |s| - p
  {
    var q := FirstMatch(s, p, pattern);
    if q.None? then s[p..] else s[p..q.value] + (with + ReplacedAll(s, q.value + |pattern|, pattern, with))
  }

  function Take(s: string, n: nat): string {
    if n < |s| then s[..n] else s
  }

  function Copies(with: string, n: nat): string {
    if n == 0 then "" else with + Copies(with, n - 1)
  }

  /** What is to be written from `p` on. The empty pattern is found where the search begins, over
      and over again: only the room, for less than `n` characters, ends that. */
  function Wanted(s: string, p: nat, pattern: string, with: string, n: nat): string
    requires p <= |s|
  {
    if pattern == "" then Copies(with, n) else ReplacedAll(s, p, pattern, with)
  }

  /** Writes the first `size - 1` characters of the replaced text, and the terminator. With
      neither a pattern nor a new text the loop would not end. */
  method Streplace(dest: array<char>, size: nat, source: string, pattern: string, with: string) returns (length: nat)
    requires 0 < size <= dest.Length && (pattern != "" || with != "")
    modifies dest
    ensures length < size && dest[length] == NUL
    ensures dest[..length] == Take(Wanted(source, 0, pattern, with, size), size - 1)
    ensures dest[size..] == old(dest[size..])
  {
    hide MatchAt, FirstMatch, Wanted, Take;
    var m: nat, left: nat, p: nat := 0, size - 1, 0;
    ghost var n, full := size, Wanted(source, 0, pattern, with, size);
    assert dest[..0] + full == full;
    while true
      invariant p <= |source| && m + left == size - 1 && left < n
      invariant dest[..m] + Wanted(source, p, pattern, with, n) == full
      invariant dest[size..] == old(dest[size..])
      decreases |source| - p, left
    {
      WantedStep(source, p, pattern, with, n);
      var q := FirstMatch(source, p, pattern);
      if q.None? {
        TakeOfThree(dest[..m], source[p..], "", left);
        assert dest[..m] + source[p..] + "" == full;
        length := Finish(dest, m, source[p..], left);
        return;
      }
      ghost var n' := if pattern == "" then n - 1 else n;
      ghost var rest := Wanted(source, q.value + |pattern|, pattern, with, n');
      var stop;
      stop, m, left := Put(dest, m, source[p..q.value], left, size, with + rest);
      if stop {
        return m;
      }
      stop, m, left := Put(dest, m, with, left, size, rest);
      if stop {
        return m;
      }
      p, n := q.value + |pattern|, n';
    }
  }

  lemma WantedStep(s: string, p: nat, pattern: string, with: string, n: nat)
    requires p <= |s| && n > 0
    ensures var q, n' := FirstMatch(s, p, pattern), if pattern == "" then n - 1 else n;
      if q.None? then pattern != "" && Wanted(s, p, pattern, with, n) == s[p..]
      else
        && p <= q.value && q.value + |pattern| <= |s|
        && Wanted(s, p, pattern, with, n) == s[p..q.value] + (with + Wanted(s, q.value + |pattern|, pattern, with, n'))
  {
    if pattern == "" {
      assert MatchAt(s, p, "");
      assert s[p..p] + (with + Copies(with, n - 1)) == Copies(with, n);
    } else {
      hide MatchAt, FirstMatch, ReplacedAll;
      ReplacedStep(s, p, pattern, with);
    }
  }

  /** For an empty pattern the destination is filled with the new text over and over. */
  lemma {:induction false} CopiesFill(with: string, n: nat)
    requires with != ""
    ensures |Copies(with, n)| >= n && (n > 0 ==> with <= Copies(with, n))
    ensures forall k :: |with| <= k < |Copies(with, n)| ==> Copies(with, n)[k] == Copies(with, n)[k - |with|]
  {
    if n > 0 {
      CopiesFill(with, n - 1);
      var w, rest := |with|, Copies(with, n - 1);
      forall k | w <= k < w + |rest| ensures (with + rest)[k] == (with + rest)[k - w] {
        assert (with + rest)[k] == rest[k - w];
      }
    }
  }

  lemma ReplacedStep(s: string, p: nat, pattern: string, with: string)
    requires p <= |s| && pattern != ""
    ensures var q := FirstMatch(s, p, pattern);
      if q.None? then ReplacedAll(s, p, pattern, with) == s[p..]
      else
        && p <= q.value && q.value + |pattern| <= |s|
        && ReplacedAll(s, p, pattern, with) == s[p..q.value] + (with + ReplacedAll(s, q.value + |pattern|, pattern, with))
  {
    hide MatchAt;
  }

  lemma TakeOfThree(a: string, piece: string, rest: string, left: nat)
    requires left < |piece| || rest == ""
    ensures Take(a + piece + rest, |a| + left) == a + Take(piece, left)
    ensures Take(a + (piece + rest), |a| + left) == a + Take(piece, left)
  {
    assert a + (piece + rest) == a + piece + rest;
  }

  /** Writes a piece behind what has been written, or only its beginning and the terminator if
      there is no room for all of it. */
  method Put(dest: array<char>, m: nat, piece: string, left: nat, size: nat, ghost rest: string) returns (stop: bool, m': nat, left': nat)
    requires 0 < size <= dest.Length && m + left == size - 1
    modifies dest
    ensures dest[size..] == old(dest[size..]) && m' < size
    ensures stop ==> dest[m'] == NUL && dest[..m'] == Take(old(dest[..m]) + (piece + rest), size - 1)
    ensures !stop ==> m' + left' == size - 1 && dest[..m'] + rest == old(dest[..m]) + (piece + rest)
  {
    hide Take;
    if |piece| > left {
      TakeOfThree(dest[..m], piece, rest, left);
      m' := Finish(dest, m, piece, left);
      return true, m', 0;
    }
    assert dest[..m] + piece + rest == dest[..m] + (piece + rest);
    CopyInto(dest, m, piece);
    return false, m + |piece|, left - |piece|;
  }

  /** The last piece, as much of it as there is room for, and the terminator. */
  method Finish(dest: array<char>, m: nat, piece: string, left: nat) returns (length: nat)
    requires m + left < dest.Length
    modifies dest
    ensures length <= m + left && dest[length] == NUL && dest[..length] == old(dest[..m]) + Take(piece, left)
    ensures dest[m + left + 1..] == old(dest[m + left + 1..])
  {
    var part := Take(piece, left);
    CopyInto(dest, m, part);
    length := m + |part|;
    dest[length] := NUL;
  }

  /** How many occurrences are replaced. */
  function Occurrences(s: string, p: nat, pattern: string): nat
    requires p <= |s| && pattern != ""
    decreases |s| - p
  {
    var q := FirstMatch(s, p, pattern);
    if q.None? then 0 else 1 + Occurrences(s, q.value + |pattern|, pattern)
  }

  /** Every occurrence gives its room for that of the new text. */
  lemma {:induction false} ReplacedLength(s: string, p: nat, pattern: string, with: string)
    requires p <= |s| && pattern != ""
    ensures |ReplacedAll(s, p, pattern, with)| == |s| - p + Occurrences(s, p, pattern) * (|with| - |pattern|)
    decreases |s| - p
  {
    hide MatchAt, FirstMatch;
    ReplacedStep(s, p, pattern, with);
    var q := FirstMatch(s, p, pattern);
    if q.Some? {
      var e := q.value + |pattern|;
      ReplacedLength(s, e, pattern, with);
      Product(Occurrences(s, e, pattern), |with| - |pattern|);
    }
  }

  lemma Product(k: nat, d: int)
    ensures (1 + k) * d == k * d + d
  {
  }

  /** Put back in its own place, the pattern gives the old text. */
  lemma {:induction false} ReplacedByItself(s: string, p: nat, pattern: string)
    requires p <= |s| && pattern != ""
    ensures ReplacedAll(s, p, pattern, pattern) == s[p..]
    decreases |s| - p
  {
    hide MatchAt;
    var q := FirstMatch(s, p, pattern);
    if q.Some? {
      var e := q.value + |pattern|;
      ReplacedByItself(s, e, pattern);
      MatchIs(s, q.value, pattern);
      assert s[p..] == s[p..q.value] + (s[q.value..e] + s[e..]);
    }
  }

  lemma MatchIs(s: string, i: nat, pattern: string)
    requires MatchAt(s, i, pattern)
    ensures i + |pattern| <= |s| && s[i..i + |pattern|] == pattern
  {
  }

  // ---------------------------------------------------------------- trimming

  /** strlen. */
  method StrLen(str: array<char>, ghost n: nat) returns (len: nat)
    requires n < str.Length && str[n] == NUL && forall k :: 0 <= k < n ==> str[k] != NUL
    ensures len == n
  {
    len := 0;
    while str[len] != NUL
      invariant len <= n
      decreases n - len
    {
      len := len + 1;
    }
  }

  lemma TrimmedPart(s: string, i: nat, j: nat)
    requires i <= j <= |s| && AllBlank(s[..i]) && AllBlank(s[j..])
    requires i < j ==> !Blank(s[i]) && !Blank(s[j - 1])
    ensures Trim(s) == s[i..j]
  {
    assert s[..i] + s[i..j] + s[j..] == s;
    TrimIs(s[..i], s[i..j], s[j..]);
  }

  lemma PartOf(s: string, n: nat, i: nat, j: nat)
    requires i <= j <= n <= |s|
    ensures s[..n][i..j] == s[i..j]
  {
  }

  /** Cuts the blanks off at both ends of the string in the buffer. */
  method Strtrim(str: array<char>, ghost n: nat) returns (newLen: nat)
    requires n < str.Length && str[n] == NUL && forall k :: 0 <= k < n ==> str[k] != NUL
    modifies str
    ensures newLen < str.Length && str[newLen] == NUL && str[..newLen] == Trim(old(str[..n]))
    ensures str[n + 1..] == old(str[n + 1..])
  {
    ghost var s := str[..n];
    var len := StrLen(str, n);
    var i := 0;
    while i < len && Blank(str[i])
      invariant i <= len && forall k :: 0 <= k < i ==> Blank(s[k])
    {
      i := i + 1;
    }
    var j := len;
    while j > i && Blank(str[j - 1])
      invariant i <= j <= len && forall k :: j <= k < len ==> Blank(s[k])
    {
      j := j - 1;
    }
    TrimmedPart(s, i, j);
    hide Trim;
    newLen := j - i;
    if newLen == len {
      assert s[i..j] == s;
    } else {
      PartOf(str[..], n, i, j);
      CutOut(str, i, newLen, n);
    }
  }

  /** Moves a part of the string to the front and ends it there. */
  method CutOut(str: array<char>, from: nat, newLen: nat, ghost n: nat)
    requires from + newLen <= n < str.Length && newLen < n
    modifies str
    ensures str[newLen] == NUL && str[..newLen] == old(str[from..from + newLen])
    ensures str[n + 1..] == old(str[n + 1..])
  {
    if newLen == 0 {
      str[0] := NUL;
    } else {
      MoveDown(str, from, newLen);
      str[newLen] := NUL;
    }
  }
}

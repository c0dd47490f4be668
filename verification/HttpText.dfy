/** The character-level helpers of the HTTP message engine: C locale classes, header
    name matching, and the two number scanners that the parser relies on. */
module HttpText {
  import opened Wrappers
  import opened Bytes

  /** `size_t` is 32 bits wide here: the parser stores a `%d` conversion in it. */
  const SIZE_UNKNOWN: Word := 0xFFFF_FFFF

  /** isspace in the C locale: tab, newline, vertical tab, form feed, return, blank. */
  predicate IsSpace(c: char) {
    c == ' ' || '\t' <= c <= '\r'
  }

  /** Where `s[..j]` ends once its trailing blanks are cut off. */
  function TrimEnd(s: string, j: nat): (r: nat)
    requires j <= |s|
    ensures r <= j
    ensures r > 0 ==> !IsSpace(s[r - 1])
  {
    if j > 0 && IsSpace(s[j - 1]) then TrimEnd(s, j - 1) else j
  }

  function TrimRight(s: string): string {
    s[..TrimEnd(s, |s|)]
  }

  /** The first non-blank position of `s` from `i` on. */
  function SkipSpace(s: string, i: nat): (r: nat)
    requires i <= |s|
    ensures i <= r <= |s|
    ensures r < |s| ==> !IsSpace(s[r])
    decreases |s| - i
  {
    if i < |s| && IsSpace(s[i]) then SkipSpace(s, i + 1) else i
  }

  function Lower(c: char): char {
    if 'A' <= c <= 'Z' then (c as int + 32) as char else c
  }

  predicate EqualNoCaseFrom(a: string, b: string, i: nat)
    requires i <= |a| == |b|
    decreases |a| - i
  {
    i == |a| || (Lower(a[i]) == Lower(b[i]) && EqualNoCaseFrom(a, b, i + 1))
  }

  /** Equal lengths and `_strnicmp(a, b, len) == 0`. */
  predicate EqualNoCase(a: string, b: string) {
    |a| == |b| && EqualNoCaseFrom(a, b, 0)
  }

  /** The same character, or a letter and its other case. */
  predicate SameLetter(c: char, d: char) {
    || c == d
    || ('A' <= c <= 'Z' && 'a' <= d <= 'z' && c as int - 'A' as int == d as int - 'a' as int)
    || ('a' <= c <= 'z' && 'A' <= d <= 'Z' && c as int - 'a' as int == d as int - 'A' as int)
  }

  predicate Respells(a: string, b: string) {
    |a| == |b| && forall i :: 0 <= i < |a| ==> SameLetter(a[i], b[i])
  }

  /** Texts are matched whatever the case of their letters, and only so. */
  lemma EqualNoCaseIff(a: string, b: string)
    ensures EqualNoCase(a, b) <==> Respells(a, b)
  {
    if |a| == |b| {
      EqualFromIff(a, b, 0);
    }
  }

  lemma {:induction false} EqualFromIff(a: string, b: string, i: nat)
    requires i <= |a| == |b|
    ensures EqualNoCaseFrom(a, b, i) <==> forall k :: i <= k < |a| ==> SameLetter(a[k], b[k])
    decreases |a| - i
  {
    if i < |a| {
      LowerIff(a[i], b[i]);
      EqualFromIff(a, b, i + 1);
    }
  }

  lemma LowerIff(c: char, d: char)
    ensures Lower(c) == Lower(d) <==> SameLetter(c, d)
  {
  }

  /** `strchrn(line, len, ':')` from position `i` on: the search gives up at a NUL. */
  function FindColon(s: string, i: nat): (r: Option<nat>)
    requires i <= |s|
    ensures r.Some? ==> i <= r.value < |s|
    decreases |s| - i
  {
    if i == |s| || s[i] == '\0' then None
    else if s[i] == ':' then Some(i)
    else FindColon(s, i + 1)
  }

  // ---------------------------------------------------------------- decimal

  predicate IsDigit(c: char) { '0' <= c <= '9' }

  function DigitEnd(s: string, i: nat): (r: nat)
    requires i <= |s|
    ensures i <= r <= |s|
    decreases |s| - i
  {
    if i < |s| && IsDigit(s[i]) then DigitEnd(s, i + 1) else i
  }

  function DigitValue(c: char): nat {
    if IsDigit(c) then c as int - '0' as int else 0
  }

  function Decimal(s: string, i: nat, j: nat): nat
    requires i <= j <= |s|
  {
    if i == j then 0 else 10 * Decimal(s, i, j - 1) + DigitValue(s[j - 1])
  }

  predicate IsSign(c: char) { c == '-' || c == '+' }

  /** A `%d` or `%lu` conversion. `NoInput`: nothing but white space is left to read. */
  datatype Number = Digits(value: Word, end: nat) | NoDigits | NoInput

  /** Skips white space, then reads an optional sign and digits. The stored value is the
      conversion modulo the word size. */
  function NumberAt(mem: string, i: nat): (n: Number)
    requires i <= |mem|
    ensures n.Digits? ==> i < n.end <= |mem|
  {
    var j := SkipSpace(mem, i);
    if j == |mem| then NoInput
    else
      var from := if IsSign(mem[j]) then j + 1 else j;
      var end := DigitEnd(mem, from);
      if end == from then NoDigits
      else
        var v := Decimal(mem, from, end) % TWO32;
        Digits(if mem[j] == '-' then (TWO32 - v) % TWO32 else v, end)
  }

  /** `sscanf(mem, "%d", &size)` */
  function ScanInt(mem: string): Option<Word> {
    var n := NumberAt(mem, 0);
    if n.Digits? then Some(n.value) else None
  }

  /** What may follow a line in memory: at least the newline that ended it. */
  predicate StartsBlank(after: string) { after != "" && IsSpace(after[0]) }

  lemma {:induction false} DigitsStopAt(value: string, after: string, i: nat)
    requires i <= |value| && StartsBlank(after)
    ensures DigitEnd(value + after, i) == DigitEnd(value, i)
    decreases |value| - i
  {
    if i < |value| {
      DigitsStopAt(value, after, i + 1);
    }
  }

  lemma {:induction false} DecimalPrefix(value: string, after: string, i: nat, j: nat)
    requires i <= j <= |value|
    ensures Decimal(value + after, i, j) == Decimal(value, i, j)
    decreases j
  {
    if i < j {
      DecimalPrefix(value, after, i, j - 1);
    }
  }

  /** Blanks that end inside the text end there whatever follows. */
  lemma {:induction false} SpaceStays(s: string, after: string, i: nat)
    requires i <= |s| && SkipSpace(s, i) < |s|
    ensures SkipSpace(s + after, i) == SkipSpace(s, i)
    decreases |s| - i
  {
    if IsSpace(s[i]) {
      SpaceStays(s, after, i + 1);
    }
  }

  /** A number that begins inside the text is read there, whatever follows the blank behind it. */
  lemma NumberStays(s: string, after: string, i: nat)
    requires i <= |s| && !NumberAt(s, i).NoInput? && StartsBlank(after)
    ensures NumberAt(s + after, i) == NumberAt(s, i)
  {
    SpaceStays(s, after, i);
    var j := SkipSpace(s, i);
    var from := if IsSign(s[j]) then j + 1 else j;
    DigitsStopAt(s, after, from);
    DecimalPrefix(s, after, from, DigitEnd(s, from));
  }

  /** A scan that starts on a non-blank character stays inside its line. */
  lemma ScanStaysOnLine(value: string, after: string)
    requires value != "" && !IsSpace(value[0])
    requires StartsBlank(after)
    ensures ScanInt(value + after) == ScanInt(value)
  {
    NumberStays(value, after, 0);
  }

  /** The scan of a Content-Length value is decided by the line alone exactly when the
      value is not blank: for a blank value the conversion runs on into whatever the
      buffer holds after the line. */
  lemma ScanIsLineBoundedIff(value: string)
    requires value != "" ==> !IsSpace(value[0])
    ensures (forall a, b :: StartsBlank(a) && StartsBlank(b) ==> ScanInt(value + a) == ScanInt(value + b))
            <==> value != ""
  {
    if value == "" {
      var a, b := "\n7", "\n8";
      assert value + a == a && value + b == b;
      assert SkipSpace(a, 0) == 1 && SkipSpace(b, 0) == 1;
      assert DigitEnd(a, 1) == 2 && DigitEnd(b, 1) == 2;
      assert Decimal(a, 1, 2) == 7 && Decimal(b, 1, 2) == 8;
      assert ScanInt(value + a) == Some(7) && ScanInt(value + b) == Some(8);
    } else {
      forall a, b | StartsBlank(a) && StartsBlank(b)
        ensures ScanInt(value + a) == ScanInt(value + b)
      {
        ScanStaysOnLine(value, a);
        ScanStaysOnLine(value, b);
      }
    }
  }

  /** `%lu` on output. */
  function ToDecimal(n: nat): (s: string)
    ensures s != "" && forall k :: 0 <= k < |s| ==> IsDigit(s[k])
  {
    (if n < 10 then "" else ToDecimal(n / 10)) + ['0' + (n % 10) as char]
  }

  lemma {:induction false} ToDecimalValue(n: nat)
    ensures Decimal(ToDecimal(n), 0, |ToDecimal(n)|) == n
  {
    var s := ToDecimal(n);
    if n >= 10 {
      ToDecimalValue(n / 10);
      DecimalPrefix(ToDecimal(n / 10), [s[|s| - 1]], 0, |s| - 1);
    }
    assert DigitValue(s[|s| - 1]) == n % 10;
  }

  lemma {:induction false} DecimalShift(front: string, s: string, j: nat)
    requires j <= |s|
    ensures Decimal(front + s, |front|, |front| + j) == Decimal(s, 0, j)
  {
    if j > 0 {
      DecimalShift(front, s, j - 1);
    }
  }

  lemma {:induction false} DigitsEndAt(s: string, i: nat, e: nat)
    requires i <= e <= |s| && (forall k :: i <= k < e ==> IsDigit(s[k])) && (e < |s| ==> !IsDigit(s[e]))
    ensures DigitEnd(s, i) == e
    decreases e - i
  {
    if i < e {
      DigitsEndAt(s, i + 1, e);
    }
  }

  /** A printed number is read back behind a blank, up to what is no digit. */
  lemma NumberReadsBack(front: string, n: Word, rest: string)
    requires front != "" && IsSpace(front[|front| - 1]) && (rest != "" ==> !IsDigit(rest[0]))
    ensures var s := front + ToDecimal(n) + rest;
      NumberAt(s, |front| - 1) == Digits(n, |front| + |ToDecimal(n)|)
  {
    hide ToDecimal;
    var d, i := ToDecimal(n), |front|;
    var s, e := front + d + rest, |front| + |d|;
    assert s[i - 1] == front[i - 1];
    DigitsBehind(front, d, rest);
    ToDecimalValue(n);
    DecimalShift(front, d, |d|);
    DecimalPrefix(front + d, rest, i, e);
  }

  /** And on its own. */
  lemma DecimalReadsBack(n: Word)
    ensures ScanInt(ToDecimal(n)) == Some(n)
  {
    hide ToDecimal;
    var d := ToDecimal(n);
    assert SkipSpace(d, 0) == 0;
    DigitsEndAt(d, 0, |d|);
    ToDecimalValue(n);
  }

  lemma DigitsBehind(front: string, d: string, rest: string)
    requires front != "" && IsSpace(front[|front| - 1]) && d != "" && (forall k :: 0 <= k < |d| ==> IsDigit(d[k]))
    requires rest != "" ==> !IsDigit(rest[0])
    ensures var s, i := front + d + rest, |front|;
      SkipSpace(s, i - 1) == i && s[i] == d[0] && DigitEnd(s, i) == i + |d|
  {
    var s, i, e := front + d + rest, |front|, |front| + |d|;
    assert forall k :: i <= k < e ==> s[k] == d[k - i];
    assert s[i - 1] == front[i - 1] && SkipSpace(s, i) == i;
    DigitsEndAt(s, i, e);
  }

  // ------------------------------------------------------------ printed text

  function NulEnd(s: string, i: nat): (r: nat)
    requires i <= |s|
    ensures i <= r <= |s|
    decreases |s| - i
  {
    if i < |s| && s[i] != '\0' then NulEnd(s, i + 1) else i
  }

  /** `%.*s` with the size of the string: it stops at a NUL. */
  function Printed(s: string): string { s[..NulEnd(s, 0)] }

  lemma {:induction false} NulEndIsFirst(s: string, i: nat)
    requires i <= |s|
    ensures forall k :: i <= k < NulEnd(s, i) ==> s[k] != '\0'
    decreases |s| - i
  {
    if i < |s| && s[i] != '\0' {
      NulEndIsFirst(s, i + 1);
    }
  }

  lemma {:induction false} NoNul(s: string, i: nat)
    requires i <= |s| && '\0' !in s
    ensures NulEnd(s, i) == |s|
    decreases |s| - i
  {
    if i < |s| {
      NoNul(s, i + 1);
    }
  }

  // ------------------------------------------------------------ hexadecimal

  predicate IsHex(c: char) {
    IsDigit(c) || 'a' <= c <= 'f' || 'A' <= c <= 'F'
  }

  function HexDigit(c: char): (d: nat)
    ensures d < 16
  {
    if IsDigit(c) then c as int - '0' as int
    else if 'a' <= c <= 'f' then c as int - 'a' as int + 10
    else if 'A' <= c <= 'F' then c as int - 'A' as int + 10
    else 0
  }

  function HexEnd(s: string, i: nat): (r: nat)
    requires i <= |s|
    ensures i <= r <= |s|
    decreases |s| - i
  {
    if i < |s| && IsHex(s[i]) then HexEnd(s, i + 1) else i
  }

  function HexValue(s: string, i: nat, j: nat): nat
    requires i <= j <= |s|
  {
    if i == j then 0 else 16 * HexValue(s, i, j - 1) + HexDigit(s[j - 1])
  }

  /** `strtoul(line, &ptr, 16)` with `ptr == line + len` demanded afterwards: the value if
      the whole line is one number, which saturates at the largest word. */
  function HexLine(s: string): Option<Word> {
    var i := SkipSpace(s, 0);
    var j := if i < |s| && IsSign(s[i]) then i + 1 else i;
    var from := if j + 2 < |s| && s[j] == '0' && (s[j + 1] == 'x' || s[j + 1] == 'X') && IsHex(s[j + 2])
                then j + 2 else j;
    if from == |s| || HexEnd(s, from) != |s| then None
    else
      var v := HexValue(s, from, |s|);
      if v >= TWO32 then Some(TWO32 - 1)
      else if s[i] == '-' then Some((TWO32 - v) % TWO32)
      else Some(v)
  }

  function LowerHex(d: nat): (c: char)
    requires d < 16
    ensures IsHex(c) && HexDigit(c) == d && !IsSpace(c) && c != '-' && c != '+' && c != 'x' && c != 'X'
  {
    if d < 10 then ('0' as int + d) as char else ('a' as int + (d - 10)) as char
  }

  /** `sprintf("%.<digits>x", n)` for an `n` of at most that many digits. */
  function ToHex(n: nat, digits: nat): (s: string)
    ensures |s| == digits
    ensures forall i :: 0 <= i < |s| ==>
      IsHex(s[i]) && !IsSpace(s[i]) && s[i] != '-' && s[i] != '+' && s[i] != 'x' && s[i] != 'X'
  {
    if digits == 0 then "" else ToHex(n / 16, digits - 1) + [LowerHex(n % 16)]
  }

  function Pow16(k: nat): nat {
    if k == 0 then 1 else 16 * Pow16(k - 1)
  }

  lemma {:induction false} HexValuePrefix(s: string, t: string, j: nat)
    requires j <= |s|
    ensures HexValue(s + t, 0, j) == HexValue(s, 0, j)
  {
    if j > 0 {
      HexValuePrefix(s, t, j - 1);
    }
  }

  lemma {:induction false} ToHexValue(n: nat, digits: nat)
    requires n < Pow16(digits)
    ensures HexValue(ToHex(n, digits), 0, digits) == n
  {
    if digits > 0 {
      var s := ToHex(n / 16, digits - 1);
      ToHexValue(n / 16, digits - 1);
      HexValuePrefix(s, [LowerHex(n % 16)], digits - 1);
    }
  }

  lemma {:induction false} AllHexEnd(s: string, i: nat)
    requires i <= |s| && forall k :: i <= k < |s| ==> IsHex(s[k])
    ensures HexEnd(s, i) == |s|
    decreases |s| - i
  {
    if i < |s| {
      AllHexEnd(s, i + 1);
    }
  }

  /** Capital digits stand for the same number. */
  lemma {:induction false} HexAnyCase(s: string, t: string, j: nat)
    requires Respells(s, t) && j <= |t| && forall k :: 0 <= k < |t| ==> IsHex(t[k])
    ensures HexValue(s, 0, j) == HexValue(t, 0, j) && forall k :: 0 <= k < |s| ==> IsHex(s[k])
  {
    if j > 0 {
      HexAnyCase(s, t, j - 1);
      assert SameLetter(s[j - 1], t[j - 1]);
    }
    forall k | 0 <= k < |s| ensures IsHex(s[k]) {
      assert SameLetter(s[k], t[k]);
    }
  }

  /** A size is read in any number of digits that hold it, and in either case. */
  lemma SizeReadsBack(n: nat, digits: nat, s: string)
    requires 0 < digits <= 8 && n < Pow16(digits) && Respells(s, ToHex(n, digits))
    ensures HexLine(s) == Some(n)
  {
    assert Pow16(8) == TWO32;
    PowersGrow(digits, 8);
    ToHexValue(n, digits);
    HexAnyCase(s, ToHex(n, digits), digits);
    AllHexEnd(s, 0);
  }

  lemma {:induction false} PowersGrow(a: nat, b: nat)
    requires a <= b
    ensures Pow16(a) <= Pow16(b)
  {
    if a < b {
      PowersGrow(a, b - 1);
    }
  }

  /** Numbers as they are printed. */
  lemma PrintedNumbers()
    ensures ToHex(0x1A2B, 8) == "00001a2b" && ToDecimal(1049) == "1049"
  {
    assert ToHex(0, 4) == "0000";
    assert ToHex(0x1A, 6) == ToHex(0, 4) + ['1'] + ['a'];
    assert ToHex(0x1A2B, 8) == ToHex(0x1A, 6) + ['2'] + ['b'];
    assert ToDecimal(10) == "10";
  }

  /** The C locale has six blanks. */
  lemma SpacesAre(c: char)
    ensures IsSpace(c) <==> c as int in {9, 10, 11, 12, 13, 32}
  {
  }

  /** The chunk-size field that the sender prints is read back by the parser's scanner. */
  lemma ChunkSizeReadsBack(n: nat)
    requires n < TWO32
    ensures HexLine(ToHex(n, 8)) == Some(n)
  {
    assert Pow16(8) == TWO32;
    ToHexValue(n, 8);
    AllHexEnd(ToHex(n, 8), 0);
  }
}

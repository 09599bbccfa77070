/** String helpers used by the tweet build script: the `\d+.*` base-name
    replacement, prefix/suffix tests, the case-insensitive suffix test, file
    stems and the ordinal string order used for sorting. */
module Text {

  /** `\d` of the base-name regex, restricted to ASCII decimal digits. */
  predicate IsDigit(c: char) {
    '0' <= c <= '9'
  }

  predicate NoDigits(s: string) {
    forall i :: 0 <= i < |s| ==> !IsDigit(s[i])
  }

  /** Where a `.*` that starts at index `i` stops: the first line feed at or
      after `i`, or the end of `s` (`.` matches every character but '\n'). */
  function LineEnd(s: string, i: nat): (j: nat)
    requires i <= |s|
    ensures i <= j <= |s|
    ensures j < |s| ==> s[j] == '\n'
    ensures forall k :: i <= k < j ==> s[k] != '\n'
    decreases |s| - i
  {
    if i == |s| || s[i] == '\n' then i else LineEnd(s, i + 1)
  }

  /** `s.ReplaceRegex("\\d+.*", _ => "")`: every leftmost match of a digit run
      followed by the rest of its line is deleted. For a one-line name the
      result is the part before the first digit. */
  function StripNumbering(s: string): (r: string)
    ensures |r| <= |s|
    ensures NoDigits(r)
    ensures NoDigits(s) ==> r == s
    ensures '\n' !in s ==> r == s[..|r|] && (|r| < |s| ==> IsDigit(s[|r|]))
    decreases |s|
  {
    if s == [] then []
    else if IsDigit(s[0]) then StripNumbering(s[LineEnd(s, 1)..])
    else [s[0]] + StripNumbering(s[1..])
  }

  predicate StartsWith(s: string, prefix: string) {
    |prefix| <= |s| && s[..|prefix|] == prefix
  }

  predicate EndsWith(s: string, suffix: string) {
    |suffix| <= |s| && s[|s| - |suffix|..] == suffix
  }

  /** Upper-case mapping of ordinal ignore-case comparison, on ASCII letters. */
  function UpperAscii(c: char): char {
    if 'a' <= c <= 'z' then (c as int - 32) as char else c
  }

  /** `s.EndsWithOrdinalIgnoreCase(suffix)`. */
  predicate EndsWithIgnoreCase(s: string, suffix: string) {
    |suffix| <= |s| &&
    forall i :: 0 <= i < |suffix| ==> UpperAscii(s[|s| - |suffix| + i]) == UpperAscii(suffix[i])
  }

  lemma EndsWithIgnoresCase(s: string, suffix: string)
    requires EndsWith(s, suffix)
    ensures EndsWithIgnoreCase(s, suffix)
  {
  }

  /** Index of the last '.' in `s`, or -1 when there is none. */
  function LastDot(s: string): (k: int)
    ensures -1 <= k < |s|
    ensures k >= 0 ==> s[k] == '.'
    ensures forall j :: k < j < |s| ==> s[j] != '.'
  {
    if s == [] then -1
    else if s[|s| - 1] == '.' then |s| - 1
    else LastDot(s[..|s| - 1])
  }

  /** `Path.GetFileNameWithoutExtension` on a bare file name: everything
      before the last '.', or the whole name when it has no '.'. */
  function Stem(fileName: string): (r: string)
    ensures StartsWith(fileName, r)
    ensures LastDot(fileName) >= 0 ==> r == fileName[..LastDot(fileName)]
    ensures '.' !in fileName ==> r == fileName
  {
    var k := LastDot(fileName);
    if k < 0 then fileName else fileName[..k]
  }

  lemma StemOfMd(fileName: string)
    requires EndsWith(fileName, ".md")
    ensures Stem(fileName) == fileName[..|fileName| - 3]
  {
    assert fileName[|fileName| - 3] == ".md"[0];
    assert fileName[|fileName| - 2] == ".md"[1] && fileName[|fileName| - 1] == ".md"[2];
  }

  /** Ordinal string order: compare character codes, a proper prefix first. */
  predicate OrdinalLe(a: string, b: string)
    decreases |a|
  {
    if a == [] then true
    else if b == [] then false
    else if a[0] != b[0] then a[0] < b[0]
    else OrdinalLe(a[1..], b[1..])
  }

  lemma {:induction false} OrdinalLeTotal(a: string, b: string)
    ensures OrdinalLe(a, b) || OrdinalLe(b, a)
    decreases |a|
  {
    if a != [] && b != [] && a[0] == b[0] {
      OrdinalLeTotal(a[1..], b[1..]);
    }
  }

  lemma {:induction false} OrdinalLeTransitive(a: string, b: string, c: string)
    requires OrdinalLe(a, b) && OrdinalLe(b, c)
    ensures OrdinalLe(a, c)
    decreases |a|
  {
    if a != [] && b != [] && c != [] && a[0] == b[0] == c[0] {
      OrdinalLeTransitive(a[1..], b[1..], c[1..]);
    }
  }

  lemma {:induction false} OrdinalLeAntisymmetric(a: string, b: string)
    requires OrdinalLe(a, b) && OrdinalLe(b, a)
    ensures a == b
    decreases |a|
  {
    if a != [] && b != [] {
      OrdinalLeAntisymmetric(a[1..], b[1..]);
      assert a == [a[0]] + a[1..] && b == [b[0]] + b[1..];
    }
  }

  /** Ordinal order decides at the first differing character. */
  lemma {:induction false} OrdinalLeAtDifference(a: string, b: string, k: nat)
    requires k < |a| && k < |b| && a[..k] == b[..k] && a[k] != b[k]
    ensures OrdinalLe(a, b) <==> a[k] < b[k]
    decreases k
  {
    if k > 0 {
      assert a[0] == a[..k][0] && b[0] == b[..k][0];
      assert a[1..][..k - 1] == a[..k][1..] && b[1..][..k - 1] == b[..k][1..];
      OrdinalLeAtDifference(a[1..], b[1..], k - 1);
    }
  }
}

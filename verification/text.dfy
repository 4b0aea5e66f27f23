/**
 Text primitives the backend relies on: Python's `str.strip()`, the
 substring test behind `LIKE '%pid%'`, the UTF-8 byte length of
 `password.encode("utf-8")`, and the character classes of the password rule.
 */
module Text {

  /** Python's `str.isspace()`: the characters `str.strip()` removes. */
  predicate IsSpace(c: char) {
    var n := c as int;
    || 0x09 <= n <= 0x0D
    || 0x1C <= n <= 0x20
    || n == 0x85 || n == 0xA0 || n == 0x1680
    || 0x2000 <= n <= 0x200A
    || n == 0x2028 || n == 0x2029 || n == 0x202F || n == 0x205F || n == 0x3000
  }

  /** Every character of `s` is whitespace (vacuously true of ""). */
  predicate AllSpace(s: string) {
    forall i :: 0 <= i < |s| ==> IsSpace(s[i])
  }

  /** Index of the first non-space character of `s` at or after `i`, or `|s|`
      when there is none: the scan `str.strip()` makes from the left. */
  function SkipSpace(s: string, i: nat): (k: nat)
    requires i <= |s|
    ensures i <= k <= |s|
    ensures forall j :: i <= j < k ==> IsSpace(s[j])
    ensures k == |s| || !IsSpace(s[k])
    decreases |s| - i
  {
    if i < |s| && IsSpace(s[i]) then SkipSpace(s, i + 1) else i
  }

  /** Index just past the last non-space character of `s[lo..e]`, or `lo`
      when there is none: the scan `str.strip()` makes from the right. */
  function SkipSpaceBack(s: string, lo: nat, e: nat): (k: nat)
    requires lo <= e <= |s|
    ensures lo <= k <= e
    ensures forall j :: k <= j < e ==> IsSpace(s[j])
    ensures k == lo || !IsSpace(s[k - 1])
    decreases e
  {
    if lo < e && IsSpace(s[e - 1]) then SkipSpaceBack(s, lo, e - 1) else e
  }

  /** `r` sits in `s` at index `i` with nothing but whitespace around it. */
  ghost predicate TrimmedAt(r: string, s: string, i: int) {
    && 0 <= i && i + |r| <= |s|
    && r == s[i..i + |r|]
    && (forall j :: 0 <= j < i ==> IsSpace(s[j]))
    && (forall j :: i + |r| <= j < |s| ==> IsSpace(s[j]))
  }

  /** The number of leading whitespace characters: the index of the first
      non-space character, or `|s|` when there is none. */
  function LeadingSpace(s: string): (k: nat)
    ensures k <= |s|
    ensures forall i :: 0 <= i < k ==> IsSpace(s[i])
    ensures k == |s| || !IsSpace(s[k])
  {
    SkipSpace(s, 0)
  }

  /** `s.strip()`: `s` with only surrounding whitespace removed, so the result
      starts at the first non-space character with nothing but whitespace after
      it, no whitespace is left at either end of it, and it is empty exactly
      when `s` is all whitespace. */
  function Strip(s: string): (r: string)
    ensures TrimmedAt(r, s, LeadingSpace(s))
    ensures r == [] || (!IsSpace(r[0]) && !IsSpace(r[|r| - 1]))
    ensures r == [] <==> AllSpace(s)
  {
    var k := LeadingSpace(s);
    var e := SkipSpaceBack(s, k, |s|);
    assert k < e ==> s[k..e][0] == s[k] && s[k..e][e - k - 1] == s[e - 1];
    s[k..e]
  }

  /** Recursive substring test: `sub` is a prefix of `s` or of one of its tails. */
  predicate IsSubstring(sub: string, s: string)
    decreases |s|
  {
    sub <= s || (|s| > 0 && IsSubstring(sub, s[1..]))
  }

  /** Reference definition: `sub` occurs in `s` starting at index `i`. */
  ghost predicate OccursAt(sub: string, s: string, i: int) {
    0 <= i && i + |sub| <= |s| && s[i..i + |sub|] == sub
  }

  /** Number of bytes UTF-8 spends on one Unicode scalar value. */
  function Utf8Width(c: char): (w: nat)
    ensures 1 <= w <= 4
    ensures w == 1 <==> c as int < 0x80
  {
    var n := c as int;
    if n < 0x80 then 1 else if n < 0x800 then 2 else if n < 0x1_0000 then 3 else 4
  }

  /** `len(s.encode("utf-8"))`. */
  function Utf8Length(s: string): (n: nat)
    ensures |s| <= n <= 4 * |s|
    ensures n == |s| <==> forall i :: 0 <= i < |s| ==> s[i] as int < 0x80
  {
    if |s| == 0 then 0
    else
      var n := Utf8Width(s[0]) + Utf8Length(s[1..]);
      assert forall i :: 1 <= i < |s| ==> s[i] == s[1..][i - 1];
      n
  }

  /** The byte count of a concatenation is the sum of the byte counts: the
      encoded length is fixed character by character by `Utf8Width`. */
  lemma {:induction false} Utf8LengthAppend(a: string, b: string)
    ensures Utf8Length(a + b) == Utf8Length(a) + Utf8Length(b)
    decreases |a|
  {
    if |a| > 0 {
      assert (a + b)[0] == a[0];
      assert (a + b)[1..] == a[1..] + b;
      Utf8LengthAppend(a[1..], b);
    } else {
      assert a + b == b;
    }
  }

  /** A single character takes exactly its UTF-8 width. */
  lemma Utf8LengthOne(c: char)
    ensures Utf8Length([c]) == Utf8Width(c)
  {
    assert [c][1..] == [];
  }

  predicate IsUpper(c: char) { 'A' <= c <= 'Z' }

  predicate IsLower(c: char) { 'a' <= c <= 'z' }

  predicate IsDigit(c: char) { '0' <= c <= '9' }

  /** Printable ASCII punctuation: neither a letter, a digit nor a space. */
  predicate IsSymbol(c: char) {
    ('!' <= c <= '/') || (':' <= c <= '@') || ('[' <= c <= '`') || ('{' <= c <= '~')
  }

  predicate HasChar(s: string, p: char -> bool) {
    exists i :: 0 <= i < |s| && p(s[i])
  }

  /** The recursive substring test agrees with the index-based definition, in
      both directions. */
  lemma {:induction false} IsSubstringIff(sub: string, s: string)
    ensures IsSubstring(sub, s) <==> exists i :: OccursAt(sub, s, i)
    decreases |s|
  {
    assert OccursAt(sub, s, 0) <==> sub <= s by {
      if sub <= s {
        assert s[0..|sub|] == sub;
      }
      if OccursAt(sub, s, 0) {
        assert s[..|sub|] == s[0..|sub|];
      }
    }
    if sub <= s || |s| == 0 {
    } else {
      IsSubstringIff(sub, s[1..]);
      if IsSubstring(sub, s[1..]) {
        var i :| OccursAt(sub, s[1..], i);
        OccursInTail(sub, s, i);
      }
      if i :| OccursAt(sub, s, i) {
        OccursInTail(sub, s, i - 1);
      }
    }
  }

  /** An occurrence in `s[1..]` at `i` is an occurrence in `s` at `i + 1`. */
  lemma OccursInTail(sub: string, s: string, i: int)
    requires |s| > 0 && i >= 0
    ensures OccursAt(sub, s[1..], i) <==> OccursAt(sub, s, i + 1)
  {
    if 0 <= i && i + |sub| <= |s| - 1 {
      assert s[1..][i..i + |sub|] == s[i + 1..i + 1 + |sub|];
    }
  }

  /** The empty pattern occurs in every string. */
  lemma EmptyIsSubstring(s: string)
    ensures IsSubstring("", s)
  {
  }
}

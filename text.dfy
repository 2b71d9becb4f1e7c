/** The three string operations the keyword filter relies on, as Python's
    `str` type provides them: `strip()` with no argument, `lower()`, and the
    substring test `k in t`. */
module Text {

  /** Python's `str.isspace` for one character: the characters `strip()`
      removes from both ends when it is given no argument. */
  predicate IsSpace(c: char): (b: bool)
    ensures c == ' ' || c == '\t' || c == '\n' || c == '\r' || c as int == 0x0B || c as int == 0x0C ==> b
    ensures b ==> !('A' <= c <= 'Z') && !('a' <= c <= 'z') && !('0' <= c <= '9')
  {
    var n := c as int;
    (0x09 <= n <= 0x0D) || (0x1C <= n <= 0x20) || n == 0x85 || n == 0xA0
    || n == 0x1680 || (0x2000 <= n <= 0x200A) || n == 0x2028 || n == 0x2029
    || n == 0x202F || n == 0x205F || n == 0x3000
  }

  predicate IsUpper(c: char)
  {
    'A' <= c <= 'Z'
  }

  predicate AllSpace(s: string)
  {
    forall i :: 0 <= i < |s| ==> IsSpace(s[i])
  }

  predicate NoUpper(s: string)
  {
    forall i :: 0 <= i < |s| ==> !IsUpper(s[i])
  }

  /** Neither the first nor the last character of `s` is whitespace. */
  predicate NoEdgeSpace(s: string)
  {
    s != [] ==> !IsSpace(s[0]) && !IsSpace(s[|s| - 1])
  }

  // ---------------------------------------------------------------------
  // lower()
  // ---------------------------------------------------------------------

  /** `c.lower()` for one character. */
  function LowerChar(c: char): (d: char)
    ensures !IsUpper(d)
    ensures !IsUpper(c) ==> d == c
    ensures IsSpace(d) <==> IsSpace(c)
  {
    if IsUpper(c) then (c as int + 32) as char else c
  }

  /** `s.lower()`: every upper-case letter becomes its lower-case letter,
      everything else is kept, and the length does not change. */
  function Lower(s: string): (r: string)
    ensures |r| == |s|
  {
    seq(|s|, i requires 0 <= i < |s| => LowerChar(s[i]))
  }

  /** What `Lower` does to each character. */
  lemma LowerSpec(s: string)
    ensures NoUpper(Lower(s))
    ensures forall i :: 0 <= i < |s| && !IsUpper(s[i]) ==> Lower(s)[i] == s[i]
    ensures forall i :: 0 <= i < |s| && IsUpper(s[i]) ==> 'a' <= Lower(s)[i] <= 'z' && Lower(s)[i] as int - s[i] as int == 32
    ensures forall i :: 0 <= i < |s| ==> (IsSpace(Lower(s)[i]) <==> IsSpace(s[i]))
  {
  }

  /** A string without upper-case letters is its own lower-case form. */
  lemma LowerOfLowercase(s: string)
    requires NoUpper(s)
    ensures Lower(s) == s
  {
    LowerSpec(s);
  }

  /** Lowering twice is lowering once. */
  lemma LowerIdempotent(s: string)
    ensures Lower(Lower(s)) == Lower(s)
  {
    LowerSpec(s);
    LowerOfLowercase(Lower(s));
  }

  /** Lowering keeps the string's edges free of whitespace. */
  lemma LowerKeepsNoEdgeSpace(s: string)
    requires NoEdgeSpace(s)
    ensures NoEdgeSpace(Lower(s))
  {
    LowerSpec(s);
  }

  // ---------------------------------------------------------------------
  // strip()
  // ---------------------------------------------------------------------

  /** The number of whitespace characters at the front of `s`. */
  function LeadingSpaces(s: string): (n: nat)
    ensures n <= |s|
    ensures forall i :: 0 <= i < n ==> IsSpace(s[i])
    ensures n < |s| ==> !IsSpace(s[n])
  {
    if s != [] && IsSpace(s[0]) then 1 + LeadingSpaces(s[1..]) else 0
  }

  /** The number of whitespace characters at the back of `s`. */
  function TrailingSpaces(s: string): (n: nat)
    ensures n <= |s|
    ensures forall i :: |s| - n <= i < |s| ==> IsSpace(s[i])
    ensures n < |s| ==> !IsSpace(s[|s| - 1 - n])
  {
    if s != [] && IsSpace(s[|s| - 1]) then 1 + TrailingSpaces(s[..|s| - 1]) else 0
  }

  /** `s.strip()`: `s` without its leading and trailing whitespace. */
  function Strip(s: string): (r: string)
    ensures |r| <= |s|
  {
    var t := s[LeadingSpaces(s)..];
    t[..|t| - TrailingSpaces(t)]
  }

  /** The stripped string has no whitespace at its edges, and it is empty
      exactly when `s` is whitespace only. */
  lemma StripSpec(s: string)
    ensures NoEdgeSpace(Strip(s))
    ensures Strip(s) == [] <==> AllSpace(s)
  {
  }

  /** `r` sits at offset `i` of `s`, everything before and after it is
      whitespace, and `r` itself neither starts nor ends with whitespace. */
  ghost predicate StrippedAt(r: string, s: string, i: nat)
  {
    i + |r| <= |s| && s[i..i + |r|] == r && NoEdgeSpace(r)
    && (forall k :: 0 <= k < i ==> IsSpace(s[k]))
    && (forall k :: i + |r| <= k < |s| ==> IsSpace(s[k]))
  }

  /** `r` is what is left of `s` once its whitespace edges are cut off. */
  ghost predicate IsStripOf(r: string, s: string)
  {
    exists i: nat :: StrippedAt(r, s, i)
  }

  /** `Strip` cuts off whitespace edges and nothing else. */
  lemma StripIsStripOf(s: string)
    ensures IsStripOf(Strip(s), s)
  {
    var n := LeadingSpaces(s);
    var t := s[n..];
    var m := TrailingSpaces(t);
    var r := Strip(s);
    StripSpec(s);
    assert r == t[..|t| - m];
    assert s[n..n + |r|] == r;
    forall k | n + |r| <= k < |s|
      ensures IsSpace(s[k])
    {
      assert s[k] == t[k - n];
    }
    assert StrippedAt(r, s, n);
  }

  /** There is only one way to cut whitespace edges off `s`, and `Strip`
      is it. */
  lemma StripUnique(r: string, s: string)
    requires IsStripOf(r, s)
    ensures r == Strip(s)
  {
    var i: nat :| StrippedAt(r, s, i);
    StripSpec(s);
  }

  /** Stripping twice is stripping once. */
  lemma StripIdempotent(s: string)
    ensures Strip(Strip(s)) == Strip(s)
  {
    var r := Strip(s);
    StripSpec(s);
    assert StrippedAt(r, r, 0);
    StripUnique(r, r);
  }

  // ---------------------------------------------------------------------
  // k in t
  // ---------------------------------------------------------------------

  /** `key` occurs in `text` at offset `i`. */
  ghost predicate OccursAt(key: string, text: string, i: nat)
  {
    i + |key| <= |text| && text[i..i + |key|] == key
  }

  /** Python's `key in text` for two strings: `key` is a contiguous
      substring of `text`. */
  function Occurs(key: string, text: string): (b: bool)
    ensures b <==> exists i: nat :: OccursAt(key, text, i)
    decreases |text|
  {
    if |key| > |text| then false
    else if key == text[..|key|] then
      assert OccursAt(key, text, 0);
      true
    else
      var b := Occurs(key, text[1..]);
      assert b ==> exists i: nat :: OccursAt(key, text, i) by {
        if b {
          var i: nat :| OccursAt(key, text[1..], i);
          assert text[1..][i..i + |key|] == text[i + 1..i + 1 + |key|];
          assert OccursAt(key, text, i + 1);
        }
      }
      assert forall i: nat :: OccursAt(key, text, i) ==> i > 0 && OccursAt(key, text[1..], i - 1);
      b
  }

  /** The empty key occurs in every text, and a non-empty key never occurs
      in the empty text. */
  lemma OccursEdgeCases(key: string, text: string)
    ensures Occurs([], text)
    ensures key != [] ==> !Occurs(key, [])
  {
    assert OccursAt([], text, 0);
  }
}

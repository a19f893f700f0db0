/** ASCII case folding and substring search, as every classifier here uses them, and decimal digits. */
module Text {
  function AsciiLower(s: string): (r: string)
    ensures |r| == |s|
  {
    seq(|s|, i requires 0 <= i < |s| => if 'A' <= s[i] <= 'Z' then s[i] - 'A' + 'a' else s[i])
  }

  const UPPER: string := "ABCDEFGHIJKLMNOPQRSTUVWXYZ"
  const LOWER: string := "abcdefghijklmnopqrstuvwxyz"

  /** Capitals turn into the letter at the same place of the alphabet, and nothing else changes. */
  lemma AsciiLowerMeans(s: string, i: nat, k: nat)
    requires i < |s| && k < 26
    ensures s[i] == UPPER[k] ==> AsciiLower(s)[i] == LOWER[k]
    ensures s[i] !in UPPER ==> AsciiLower(s)[i] == s[i]
  {
    assert UPPER[k] == 'A' + k as char && LOWER[k] == 'a' + k as char;
    if 'A' <= s[i] <= 'Z' {
      assert UPPER[s[i] as int - 'A' as int] == s[i];
    }
  }

  predicate OccursAt(s: string, pat: string, i: nat) {
    i + |pat| <= |s| && s[i..i + |pat|] == pat
  }

  predicate Contains(s: string, pat: string) {
    exists i :: 0 <= i <= |s| && OccursAt(s, pat, i)
  }

  predicate IsPiece(s: string, pre: string, piece: string, post: string) { s == pre + piece + post }

  lemma PieceAt(s: string, m: string) returns (pre: string, piece: string, post: string)
    requires Contains(AsciiLower(s), m)
    ensures IsPiece(s, pre, piece, post) && AsciiLower(piece) == m
  {
    var i :| 0 <= i <= |AsciiLower(s)| && OccursAt(AsciiLower(s), m, i);
    pre, piece, post := s[..i], s[i..i + |m|], s[i + |m|..];
    assert AsciiLower(piece) == AsciiLower(s)[i..i + |m|];
  }

  lemma PieceOccurs(s: string, pre: string, piece: string, post: string)
    requires IsPiece(s, pre, piece, post)
    ensures Contains(AsciiLower(s), AsciiLower(piece))
  {
    var m, i := AsciiLower(piece), |pre|;
    assert AsciiLower(s)[i..i + |m|] == m;
    assert OccursAt(AsciiLower(s), m, i);
  }

  // ---- Decimal digits ----

  function TenTo(n: nat): (p: nat)
    ensures p > 0
  {
    if n == 0 then 1 else 10 * TenTo(n - 1)
  }

  predicate IsDigit(c: char) { '0' <= c <= '9' }

  function Digit(d: nat): (c: char)
    requires d < 10
    ensures IsDigit(c)
  {
    '0' + d as char
  }
}

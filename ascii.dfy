/** ASCII character classes and the upper-casing the issuer applies to the
    generated code before storing it (strings.ToUpper on an ASCII string). */
module Ascii {

  predicate IsLower(c: char) { 'a' <= c <= 'z' }
  predicate IsUpper(c: char) { 'A' <= c <= 'Z' }
  predicate IsDigit(c: char) { '0' <= c <= '9' }
  predicate IsAlnum(c: char) { IsLower(c) || IsUpper(c) || IsDigit(c) }

  /** No character of s is a lowercase ASCII letter. */
  predicate NoLower(s: string) {
    forall i :: 0 <= i < |s| ==> !IsLower(s[i])
  }

  /** Upper-cases one character: a lowercase letter becomes the capital of the
      same letter, every other character is kept. */
  function UpperChar(c: char): (u: char)
    ensures !IsLower(u)
    ensures IsLower(c) ==> IsUpper(u) && u as int - 'A' as int == c as int - 'a' as int
    ensures !IsLower(c) ==> u == c
  {
    if IsLower(c) then (c as int - 'a' as int + 'A' as int) as char else c
  }

  /** strings.ToUpper on ASCII input: the length is kept and each character
      is upper-cased on its own. */
  function ToUpper(s: string): (u: string)
    ensures |u| == |s|
    ensures forall i :: 0 <= i < |s| ==> u[i] == UpperChar(s[i])
  {
    if s == [] then []
    else
      var rest := ToUpper(s[1..]);
      assert forall i :: 1 <= i < |s| ==> rest[i - 1] == UpperChar(s[i]);
      [UpperChar(s[0])] + rest
  }

  /** The upper-cased string holds no lowercase letter, and every alphanumeric
      character stays alphanumeric. */
  lemma UpperHasNoLower(s: string)
    ensures NoLower(ToUpper(s))
    ensures (forall i :: 0 <= i < |s| ==> IsAlnum(s[i])) ==>
              forall i :: 0 <= i < |ToUpper(s)| ==> IsAlnum(ToUpper(s)[i])
  {
  }

  /** A string is left unchanged by upper-casing exactly when it has no
      lowercase letter. */
  lemma UpperFixpoint(s: string)
    ensures ToUpper(s) == s <==> NoLower(s)
  {
    if NoLower(s) {
      assert forall i :: 0 <= i < |s| ==> ToUpper(s)[i] == s[i];
    } else {
      var i :| 0 <= i < |s| && IsLower(s[i]);
      assert ToUpper(s)[i] != s[i];
    }
  }

  /** Upper-casing is idempotent. */
  lemma UpperIdempotent(s: string)
    ensures ToUpper(ToUpper(s)) == ToUpper(s)
  {
    UpperHasNoLower(s);
    UpperFixpoint(ToUpper(s));
  }
}

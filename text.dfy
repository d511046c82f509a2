/** String helpers the program takes from Go's `strings` package. */
module Text {

  predicate IsUpper(c: char) {
    'A' <= c <= 'Z'
  }

  /** ASCII lower-casing of one character. */
  function LowerChar(c: char): char {
    if IsUpper(c) then (c as int - 'A' as int + 'a' as int) as char else c
  }

  /** `strings.ToLower`, restricted to ASCII letters. */
  function ToLower(s: string): (r: string)
    ensures |r| == |s|
    ensures forall i :: 0 <= i < |s| && IsUpper(s[i]) ==> r[i] as int == s[i] as int + 32
    ensures forall i :: 0 <= i < |s| && !IsUpper(s[i]) ==> r[i] == s[i]
  {
    seq(|s|, i requires 0 <= i < |s| => LowerChar(s[i]))
  }

  /** A string without any upper-case letter. */
  predicate IsLowered(s: string) {
    forall i :: 0 <= i < |s| ==> !IsUpper(s[i])
  }

  /** `strings.HasSuffix`: a case-sensitive comparison of the tail. */
  predicate HasSuffix(s: string, suffix: string): (b: bool)
    ensures b <==> |suffix| <= |s| && s == s[..|s| - |suffix|] + suffix
  {
    |suffix| <= |s| && s[|s| - |suffix|..] == suffix
  }

  /** Lower-casing leaves no upper-case letter and does not change the length. */
  lemma ToLowerIsLowered(s: string)
    ensures |ToLower(s)| == |s|
    ensures IsLowered(ToLower(s))
  {
  }

  /** A string with no upper-case letter is its own lower-case form. */
  lemma LoweredIsFixedPoint(s: string)
    requires IsLowered(s)
    ensures ToLower(s) == s
  {
  }

  /** Lower-casing is idempotent. */
  lemma ToLowerIdempotent(s: string)
    ensures ToLower(ToLower(s)) == ToLower(s)
  {
  }

  /** No input line lower-cases to a string that holds an upper-case letter. */
  lemma UpperNeverProduced(target: string, line: string)
    requires !IsLowered(target)
    ensures ToLower(line) != target
  {
  }

  /** Appending `suffix` makes `suffix` a suffix. */
  lemma HasSuffixOfAppend(stem: string, suffix: string)
    ensures HasSuffix(stem + suffix, suffix)
  {
  }
}

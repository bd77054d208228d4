/** Texts that differ in letter case only, told by character codes. */
module Letters {

  /** The same character, or the small (97 to 122) and the capital (65 to 90) of one letter. */
  predicate SameLetter(c: char, d: char) {
    || c == d
    || (97 <= c as int <= 122 && d as int == c as int - 32)
    || (65 <= c as int <= 90 && d as int == c as int + 32)
  }

  predicate SameText(s: string, t: string) {
    |s| == |t| && forall i :: 0 <= i < |s| ==> SameLetter(s[i], t[i])
  }
}

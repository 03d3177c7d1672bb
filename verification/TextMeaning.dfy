/** Letter case, controls and outer space of texts, code point by code point. */
module TextMeaning {
  import opened Characters

  /** C0 and C1 control characters and DEL. */
  predicate ControlCode(c: char) {
    c as int <= 31 || 127 <= c as int <= 159
  }

  predicate UpperCase(c: char) {
    65 <= c as int <= 90
  }

  /** Equal but for the case of a letter. */
  predicate SameLetter(c: char, d: char) {
    c == d || (UpperCase(c) && d as int == c as int + 32) || (UpperCase(d) && c as int == d as int + 32)
  }

  predicate SameUpToCase(s: string, t: string) {
    |s| == |t| && forall i :: 0 <= i < |s| ==> SameLetter(s[i], t[i])
  }

  lemma LowerCharMeaning(c: char, d: char)
    ensures !UpperCase(LowerChar(c)) && SameLetter(c, LowerChar(c))
    ensures LowerChar(c) == LowerChar(d) <==> SameLetter(c, d)
    ensures ControlCode(LowerChar(c)) <==> ControlCode(c)
    ensures IsControl(c) <==> ControlCode(c)
  {
  }

  /** Folding case forgets the case of letters and nothing else. */
  lemma LowerMeaning(s: string, t: string)
    ensures Lower(s) == Lower(t) <==> SameUpToCase(s, t)
    ensures SameUpToCase(s, Lower(s)) && forall i :: 0 <= i < |s| ==> !UpperCase(Lower(s)[i])
  {
    hide LowerChar, SameLetter;
    forall i | 0 <= i < |s| ensures SameLetter(s[i], Lower(s)[i]) && !UpperCase(Lower(s)[i]) {
      LowerCharMeaning(s[i], s[i]);
    }
    if |s| == |t| {
      forall i | 0 <= i < |s| ensures Lower(s)[i] == Lower(t)[i] <==> SameLetter(s[i], t[i]) {
        LowerCharMeaning(s[i], t[i]);
      }
    }
  }
}

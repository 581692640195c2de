/** Pieces shared by the regular expressions that are written out as matchers. */
module TextMatching {
  /** `\s`. */
  predicate IsSpace(c: char) {
    || '\t' <= c <= '\r' || '\U{1C}' <= c <= ' ' || c == '\U{85}' || c == '\U{A0}' || c == '\U{1680}'
    || '\U{2000}' <= c <= '\U{200A}' || c == '\U{2028}' || c == '\U{2029}' || c == '\U{202F}'
    || c == '\U{205F}' || c == '\U{3000}'
  }

  /** The first position at or after `i` where `what` occurs, or `|text|`. */
  function Find(text: string, what: string, i: nat): (m: nat)
    requires i <= |text| && what != ""
    ensures i <= m <= |text|
    ensures m < |text| ==> what <= text[m..]
    ensures forall j | i <= j < m :: !(what <= text[j..])
    decreases |text| - i
  {
    if i == |text| || what <= text[i..] then i else Find(text, what, i + 1)
  }

  function SkipSpaces(text: string, i: nat): (m: nat)
    requires i <= |text|
    ensures i <= m <= |text|
    ensures forall j | i <= j < m :: IsSpace(text[j])
    ensures m < |text| ==> !IsSpace(text[m])
    decreases |text| - i
  {
    if i < |text| && IsSpace(text[i]) then SkipSpaces(text, i + 1) else i
  }

  /** Under MULTILINE, `^` matches at the beginning and after each line feed. */
  predicate AtLineStart(text: string, i: nat)
    requires i <= |text|
  {
    i == 0 || text[i - 1] == '\n'
  }
}

/** The characters that `str.strip` takes off, those at which `str.splitlines` breaks included. */
module Whitespace {

  /** The line boundaries of `str.splitlines`. */
  predicate IsBreak(c: char) {
    c in ['\n', '\r', '\U{000B}', '\U{000C}', '\U{001C}', '\U{001D}', '\U{001E}', '\U{0085}', '\U{2028}', '\U{2029}']
  }

  /** White space that is no line boundary. */
  predicate IsSpace(c: char) {
    || c in [' ', '\t', '\U{001F}', '\U{00A0}', '\U{1680}', '\U{202F}', '\U{205F}', '\U{3000}']
    || '\U{2000}' <= c <= '\U{200A}'
  }

  /** `not text.strip()` */
  predicate IsBlank(text: string) {
    forall i :: 0 <= i < |text| ==> IsSpace(text[i]) || IsBreak(text[i])
  }
}

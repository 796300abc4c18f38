/** The character set behind Char.IsWhiteSpace, stated by Unicode category
    as an independent reference for the code-point ranges in Strings. */
module WhiteSpace {
  import opened Strings

  /** The characters of Unicode category Zs (space separator). */
  const SpaceSeparators: set<char> :=
    {'\U{0020}', '\U{00A0}', '\U{1680}', '\U{2000}', '\U{2001}', '\U{2002}',
     '\U{2003}', '\U{2004}', '\U{2005}', '\U{2006}', '\U{2007}', '\U{2008}',
     '\U{2009}', '\U{200A}', '\U{202F}', '\U{205F}', '\U{3000}'}

  /** IsWhiteSpace holds for exactly the Zs characters, the line separator
      U+2028, the paragraph separator U+2029, the controls U+0009..U+000D
      and U+0085. */
  lemma WhiteSpaceCharacters(c: char)
    ensures IsWhiteSpace(c) <==>
      c in SpaceSeparators || c == '\U{2028}' || c == '\U{2029}'
      || ('\U{0009}' <= c <= '\U{000D}') || c == '\U{0085}'
  {
  }
}

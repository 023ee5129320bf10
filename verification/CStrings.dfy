/** What the string functions of C see of a character buffer. */
module CStrings {

  const NUL := 0 as char

  /** isspace in the C locale. */
  predicate IsSpace(c: char) {
    c == ' ' || 9 <= c as int <= 13
  }

  /** The characters before the first NUL. */
  function CString(s: string): (r: string)
    ensures NUL !in r
  {
    if s == [] || s[0] == NUL then [] else [s[0]] + CString(s[1..])
  }

  lemma {:induction false} CStringWhole(s: string)
    requires NUL !in s
    ensures CString(s) == s
  {
    if s != [] {
      CStringWhole(s[1..]);
    }
  }

  /** What stands behind the first NUL does not matter. */
  lemma {:induction false} CStringStops(s: string, rest: string)
    requires NUL !in s
    ensures CString(s + [NUL] + rest) == s
  {
    if s == [] {
      assert (s + [NUL] + rest)[0] == NUL;
    } else {
      CStringStops(s[1..], rest);
      assert (s + [NUL] + rest)[1..] == s[1..] + [NUL] + rest;
    }
  }

  /** The six characters that are whitespace in the C locale. */
  const BLANKS: set<char> := {' ', 9 as char, 10 as char, 11 as char, 12 as char, 13 as char}

  lemma SpacesAreBlanks(c: char)
    ensures IsSpace(c) <==> c in BLANKS
  {
    if 9 <= c as int <= 13 {
      assert c == (c as int) as char;
    }
  }
}

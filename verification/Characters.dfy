/** Characters of names, numerals and hashes, and line ends in text files. */
module Characters {
  import opened Wrappers

  predicate IsLetter(c: char) {
    'a' <= c <= 'z' || 'A' <= c <= 'Z' || c == '_'
  }

  predicate IsDigit(c: char) {
    '0' <= c <= '9'
  }

  predicate IsHex(c: char) {
    IsDigit(c) || 'a' <= c <= 'f'
  }

  /** What reading in text mode makes of line ends. */
  function Newlines(s: string): (r: string)
    ensures '\r' !in r
    ensures '\r' !in s <==> r == s
  {
    if |s| == 0 then ""
    else if s[0] != '\r' then
      assert s == [s[0]] + s[1..];
      [s[0]] + Newlines(s[1..])
    else if |s| > 1 && s[1] == '\n' then "\n" + Newlines(s[2..])
    else "\n" + Newlines(s[1..])
  }

  /** A file that reads as the text in text mode. */
  predicate SameText(file: Option<string>, text: string) {
    file.Some? && Newlines(file.value) == text
  }

  /** The file after writing the text to it if it reads differently. */
  function WrittenIfDifferent(file: Option<string>, text: string): Option<string> {
    if SameText(file, text) then file else Some(text)
  }

  /** The characters of numerals, hashes and names by their ASCII codes. */
  lemma CharacterCodes(c: char)
    ensures IsDigit(c) <==> 48 <= c as int <= 57
    ensures IsHex(c) <==> 48 <= c as int <= 57 || 97 <= c as int <= 102
    ensures IsLetter(c) <==> 65 <= c as int <= 90 || 97 <= c as int <= 122 || c as int == 95
  {
  }

  /** The text with every line end written as `end`. */
  function WithLineEnds(text: string, end: string): string {
    if |text| == 0 then ""
    else (if text[0] == '\n' then end else [text[0]]) + WithLineEnds(text[1..], end)
  }

  lemma ReadCharacter(c: char, rest: string)
    requires c != '\r'
    ensures Newlines([c] + rest) == [c] + Newlines(rest)
  {
    assert ([c] + rest)[1..] == rest;
  }

  lemma ReadTwoCharacterEnd(rest: string)
    ensures Newlines("\r\n" + rest) == "\n" + Newlines(rest)
  {
    assert ("\r\n" + rest)[2..] == rest;
  }

  lemma ReadCarriageReturn(rest: string)
    requires |rest| > 0 ==> rest[0] != '\n'
    ensures Newlines("\r" + rest) == "\n" + Newlines(rest)
  {
    assert ("\r" + rest)[1..] == rest;
  }

  lemma ReadLineEnd(end: string, rest: string)
    requires end == "\n" || end == "\r\n" || (end == "\r" && (|rest| > 0 ==> rest[0] != '\n'))
    ensures Newlines(end + rest) == "\n" + Newlines(rest)
  {
    if end == "\n" {
      assert end == ['\n'];
      ReadCharacter('\n', rest);
    } else if end == "\r\n" {
      ReadTwoCharacterEnd(rest);
    } else {
      ReadCarriageReturn(rest);
    }
  }

  lemma NoNewlineFirst(text: string)
    ensures |WithLineEnds(text, "\r")| > 0 ==> WithLineEnds(text, "\r")[0] != '\n'
  {
  }

  /** Whichever of the three line ends a file is written with, it reads as the text. */
  lemma {:induction false} LineEndsRead(text: string, end: string)
    requires '\r' !in text && (end == "\n" || end == "\r\n" || end == "\r")
    ensures Newlines(WithLineEnds(text, end)) == text
  {
    if |text| > 0 {
      var rest := WithLineEnds(text[1..], end);
      LineEndsRead(text[1..], end);
      NoNewlineFirst(text[1..]);
      if text[0] == '\n' {
        ReadLineEnd(end, rest);
      } else {
        ReadCharacter(text[0], rest);
      }
      assert text == [text[0]] + text[1..];
    }
  }
}

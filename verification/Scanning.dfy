/** Reading and writing single characters of decimal text. */
module Scanning {
  import opened Options

  function Digit(d: int): char
    requires 0 <= d < 10
  {
    '0' + d as char
  }

  predicate IsDigit(c: char) { '0' <= c <= '9' }

  function Expect(s: string, c: char): Option<string>
  {
    if |s| > 0 && s[0] == c then Some(s[1..]) else None
  }
}

/**
 * javax.management.ObjectName.quote as its documentation describes it:
 * the result is the input wrapped in double quotes, with `"`, `*`, `?`
 * and `\` each preceded by a backslash and a newline written as `\n`.
 * ObjectName.unquote, its inverse, is given too, so that the round trip
 * can be proved.
 */
module JmxQuote {
  import opened Outcomes

  /** The characters quote writes as a backslash followed by themselves. */
  predicate Escaped(c: char)
  {
    c == '"' || c == '*' || c == '?' || c == '\\'
  }

  /** The text quote writes for one character. */
  function EscapeChar(c: char): string
  {
    if c == '\n' then "\\n" else if Escaped(c) then ['\\', c] else [c]
  }

  function Escape(s: string): (r: string)
    ensures |r| >= |s|
  {
    if s == [] then "" else EscapeChar(s[0]) + Escape(s[1..])
  }

  /** `ObjectName.quote(s)`. */
  function Quote(s: string): (r: string)
    ensures |r| >= |s| + 2
    ensures r[0] == '"' && r[|r| - 1] == '"'
  {
    "\"" + Escape(s) + "\""
  }

  /** The characters between the quotes read back; None where unquote throws. */
  function Unescape(s: string): Option<string>
  {
    if s == [] then Some("")
    else if s[0] == '\\' then
      if |s| == 1 || !(s[1] == 'n' || Escaped(s[1])) then None
      else
        match Unescape(s[2..])
        case None => None
        case Some(t) => Some([if s[1] == 'n' then '\n' else s[1]] + t)
    else if s[0] == '*' || s[0] == '?' || s[0] == '"' || s[0] == '\n' then None
    else
      match Unescape(s[1..])
      case None => None
      case Some(t) => Some([s[0]] + t)
  }

  /** `ObjectName.unquote(q)`; None where it throws IllegalArgumentException. */
  function Unquote(q: string): Option<string>
  {
    if |q| < 2 || q[0] != '"' || q[|q| - 1] != '"' then None else Unescape(q[1..|q| - 1])
  }

  lemma {:induction false} UnescapeEscape(s: string)
    ensures Unescape(Escape(s)) == Some(s)
  {
    if s != [] {
      var c, rest := s[0], Escape(s[1..]);
      var e := EscapeChar(c) + rest;
      assert Escape(s) == e;
      UnescapeEscape(s[1..]);
      if c == '\n' || Escaped(c) {
        assert e[2..] == rest;
      } else {
        assert e[1..] == rest;
      }
      assert s == [c] + s[1..];
    }
  }

  /** unquote undoes quote. */
  lemma UnquoteQuote(s: string)
    ensures Unquote(Quote(s)) == Some(s)
  {
    var q := Quote(s);
    assert q[1..|q| - 1] == Escape(s);
    UnescapeEscape(s);
  }

  /** Different strings quote differently. */
  lemma QuoteInjective(a: string, b: string)
    requires Quote(a) == Quote(b)
    ensures a == b
  {
    UnquoteQuote(a);
    UnquoteQuote(b);
  }
}

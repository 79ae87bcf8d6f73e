/** The few pieces of Ruby and ActiveSupport behaviour the blog entry model
    relies on: nil, raised exceptions, `blank?` and `String#[]` with an
    exclusive range. */
module RubyCore {

  /** A value that may be nil. */
  datatype Option<+T> = None | Some(value: T)

  /** The exceptions the modelled code can raise. */
  datatype Raised =
    | NoMethodError   // a message sent to nil, or `beginning_of_` with no unit
    | ArgumentError   // `DateTime.new` given an invalid civil date

  /** Either a value or the exception that was raised instead. */
  datatype Result<+T> = Ok(value: T) | Err(error: Raised)

  function Min(a: int, b: int): int { if a <= b then a else b }

  function Max(a: int, b: int): int { if a <= b then b else a }

  /** The characters of the POSIX class `[[:space:]]` on a Unicode string:
      tab, line feed, vertical tab, form feed, carriage return, space, and
      the Unicode space separators and line/paragraph separators. */
  predicate IsSpace(c: char)
  {
    ('\t' <= c <= '\r') || c == ' ' || c == '\U{0085}' || c == '\U{00A0}'
    || c == '\U{1680}' || ('\U{2000}' <= c <= '\U{200A}')
    || c == '\U{2028}' || c == '\U{2029}' || c == '\U{202F}'
    || c == '\U{205F}' || c == '\U{3000}'
  }

  predicate AllSpace(s: string)
  {
    forall i :: 0 <= i < |s| ==> IsSpace(s[i])
  }

  /** ActiveSupport's `blank?` on a string attribute: nil, empty, or made of
      whitespace only. A string is present exactly when it holds a character
      outside `[[:space:]]`. */
  predicate Blank(s: Option<string>): (b: bool)
    ensures s.None? ==> b
    ensures s == Some("") ==> b
    ensures s.Some? ==> (!b <==> exists i :: 0 <= i < |s.value| && !IsSpace(s.value[i]))
  {
    s.None? || AllSpace(s.value)
  }

  /** Ruby's `s[0...stop]`. A non-negative `stop` takes at most `stop`
      characters; a negative one counts from the end of the string, and a
      range that ends before the start gives the empty string. */
  function SliceTo(s: string, stop: int): (r: string)
    ensures r <= s
    ensures stop >= 0 ==> |r| == Min(stop, |s|)
    ensures stop < 0 ==> |r| == Max(0, |s| + stop)
  {
    var end := if stop >= 0 then stop else |s| + stop;
    if end <= 0 then [] else if end >= |s| then s else s[..end]
  }
}

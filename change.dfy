/**
 * The vocabulary of one detected difference between two API descriptions:
 * how severe it is, where it is, and a human-readable message.
 */
module ChangeModel {

  datatype Severity = Breaking | NonBreaking

  /** An endpoint path template, optionally narrowed to one HTTP method. */
  datatype Location =
    | Path(path: string)
    | Operation(path: string, httpMethod: string)

  datatype Change = Change(severity: Severity, location: Location, message: string)

  /**
   * The one-line rendering of a change: `<path> - <message>`, or
   * `<method> <path> - <message>` with the method first. The severity is
   * not part of the text.
   */
  function Render(c: Change): (s: string)
    ensures c.location.Path? ==> s == c.location.path + " - " + c.message
    ensures c.location.Operation? ==>
      s == c.location.httpMethod + " " + c.location.path + " - " + c.message
  {
    match c.location
    case Path(path) => path + " - " + c.message
    case Operation(path, httpMethod) => httpMethod + " " + path + " - " + c.message
  }

  /** Two changes that differ only in severity render identically. */
  lemma RenderIgnoresSeverity(c: Change, s: Severity)
    ensures Render(c.(severity := s)) == Render(c)
  {
  }

  /** Locations are compared field by field, and a path never equals an operation. */
  lemma LocationEquality(p: string, q: string, m: string, n: string)
    ensures Operation(p, m) == Operation(q, n) <==> p == q && m == n
    ensures Path(p) != Operation(q, n)
  {
  }

  /** The text before the first space, or all of `s` when it has none. */
  function FirstWord(s: string): (w: string)
    ensures w <= s
    ensures ' ' !in w
  {
    if s == [] || s[0] == ' ' then [] else [s[0]] + FirstWord(s[1..])
  }

  /**
   * The method of an operation-located change is recoverable from its
   * rendering as the first word, since HTTP method names hold no space.
   */
  lemma {:induction false} RenderedMethodComesFirst(c: Change)
    requires c.location.Operation? && ' ' !in c.location.httpMethod
    ensures FirstWord(Render(c)) == c.location.httpMethod
  {
    var m := c.location.httpMethod;
    var tail := " " + c.location.path + " - " + c.message;
    assert Render(c) == m + tail;
    FirstWordOfWordThenSpace(m, tail);
  }

  lemma {:induction false} FirstWordOfWordThenSpace(w: string, tail: string)
    requires ' ' !in w && |tail| > 0 && tail[0] == ' '
    ensures FirstWord(w + tail) == w
  {
    if w == [] {
      assert w + tail == tail;
    } else {
      assert (w + tail)[1..] == w[1..] + tail;
      FirstWordOfWordThenSpace(w[1..], tail);
    }
  }

  /**
   * For a fixed message, the rendering of a path-located change determines
   * the path: two different endpoints never render the same line.
   */
  lemma RenderDeterminesPath(c: Change, d: Change)
    requires c.location.Path? && d.location.Path? && c.message == d.message
    requires Render(c) == Render(d)
    ensures c.location == d.location
  {
    var p, q := c.location.path, d.location.path;
    var tail := " - " + c.message;
    assert Render(c) == p + tail && Render(d) == q + tail;
    assert |p| == |q|;
    assert p == (p + tail)[..|p|] == (q + tail)[..|q|] == q;
  }
}

/** The string operations of Go's standard library the models rely on. */
module Strings {
  import opened Options

  predicate HasPrefix(s: string, p: string) { p <= s }

  predicate HasSuffix(s: string, p: string) { |p| <= |s| && s[|s| - |p|..] == p }

  /** Unicode's White_Space property. */
  predicate IsSpace(c: char) {
    || c in {'\t', '\n', '\U{b}', '\U{c}', '\r', ' ', '\U{85}', '\U{a0}', '\U{1680}'}
    || '\U{2000}' <= c <= '\U{200a}'
    || c in {'\U{2028}', '\U{2029}', '\U{202f}', '\U{205f}', '\U{3000}'}
  }

  function TrimLeft(s: string): (r: string) {
    if s != "" && IsSpace(s[0]) then TrimLeft(s[1..]) else s
  }

  function TrimRight(s: string): (r: string) {
    if s != "" && IsSpace(s[|s| - 1]) then TrimRight(s[..|s| - 1]) else s
  }

  function TrimSpace(s: string): (r: string) { TrimRight(TrimLeft(s)) }

  /** The part before the first `sep`, or all of it. */
  function Before(s: string, sep: char): (r: string)
    ensures sep !in r && r <= s && (|r| < |s| ==> s[|r|] == sep)
  {
    if s == "" || s[0] == sep then "" else [s[0]] + Before(s[1..], sep)
  }

  /** Split on every `sep`; always at least one piece. */
  function Split(s: string, sep: char): (r: seq<string>)
    ensures r != [] && forall p :: p in r ==> sep !in p
    decreases |s|
  {
    var head := Before(s, sep);
    if |head| == |s| then [head] else [head] + Split(s[|head| + 1..], sep)
  }
}

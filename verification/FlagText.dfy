/** Text helpers shared by the flag parser and the flag marshalling functions. */
module FlagText {

  datatype Option<+T> = None | Some(value: T)

  /** absl::ascii_isspace. */
  predicate IsSpace(c: char)
  {
    c == ' ' || ('\t' <= c && c <= '\r')
  }

  function StripLeading(s: string): string
  {
    if s != [] && IsSpace(s[0]) then StripLeading(s[1..]) else s
  }

  function StripTrailing(s: string): string
  {
    if s != [] && IsSpace(s[|s| - 1]) then StripTrailing(s[..|s| - 1]) else s
  }

  /** absl::StripAsciiWhitespace. */
  function Strip(s: string): string
  {
    StripTrailing(StripLeading(s))
  }

  /** The position of the first `c`, or the length of `s` if there is none. */
  function Find(s: string, c: char): (i: nat)
    ensures i <= |s|
    ensures i < |s| ==> s[i] == c
    ensures c !in s[..i]
  {
    if s == [] || s[0] == c then 0 else 1 + Find(s[1..], c)
  }

  /** absl::StrSplit on commas, empty pieces kept: always at least one piece. */
  function SplitCommas(s: string): (pieces: seq<string>)
    ensures |pieces| >= 1
    decreases |s|
  {
    var i := Find(s, ',');
    if i == |s| then [s] else [s[..i]] + SplitCommas(s[i + 1..])
  }

  /** absl::StrJoin with commas. */
  function JoinCommas(v: seq<string>): string
  {
    if v == [] then "" else if |v| == 1 then v[0] else v[0] + "," + JoinCommas(v[1..])
  }

  /** The value of a flag of type std::vector<std::string> whose text is `s`. */
  function ListOf(s: string): seq<string>
  {
    if s == "" then [] else SplitCommas(s)
  }
}

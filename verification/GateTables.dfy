/** What the shape gates of the target adapter know: condition types, header
    names that stand for no header, and blank names. */
module GateTables {
  import opened Tokenizer

  const CONDITION_KINDS: set<string> := {
    "requestHeaderMatch", "requestHeaderValueMatch", "argsPostMatch", "argsPostJSONMatch",
    "argsPostXMLMatch", "pathMatch", "uriQueryMatch", "ipMatch", "requestMethodMatch", "cookieMatch"}

  const SYNTHETIC_HEADERS: set<string> := {"request-uri", "request_uri", "request-body", "request_body"}

  function Lower(lower: char -> char, s: string): string {
    seq(|s|, k requires 0 <= k < |s| => lower(s[k]))
  }

  predicate Blank(space: char -> bool, s: string) {
    Trim(space, s) == ""
  }

  predicate Synthetic(space: char -> bool, lower: char -> char, s: string) {
    Lower(lower, Trim(space, s)) in SYNTHETIC_HEADERS
  }

  /** A selector that names a real request header. */
  predicate RealHeaderName(space: char -> bool, lower: char -> char, s: string) {
    !Blank(space, s) && !Synthetic(space, lower, s)
  }
}

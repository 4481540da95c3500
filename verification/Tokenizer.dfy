/** Splitting a SecRule directive into its quoted and unquoted tokens. */
module Tokenizer {
  import opened Options

  const KEYWORD := "SecRule"

  // --------------------------------------------------------------- specification

  function TrimLeft(space: char -> bool, s: string): (t: string)
    ensures |t| <= |s|
  {
    if s != "" && space(s[0]) then TrimLeft(space, s[1..]) else s
  }

  function TrimRight(space: char -> bool, s: string): (t: string)
    ensures |t| <= |s|
  {
    if s != "" && space(s[|s| - 1]) then TrimRight(space, s[..|s| - 1]) else s
  }

  function Trim(space: char -> bool, s: string): string {
    TrimRight(space, TrimLeft(space, s))
  }

  predicate AllBlank(space: char -> bool, s: string) { forall k :: 0 <= k < |s| ==> space(s[k]) }

  /** The text is a core between blanks, and the core has no blank at its ends. */
  predicate Trimmed(space: char -> bool, s: string, a: string, core: string, b: string) {
    && s == a + core + b && AllBlank(space, a) && AllBlank(space, b)
    && (core != "" ==> !space(core[0]) && !space(core[|core| - 1]))
  }

  lemma {:induction false} TrimLeftExactly(space: char -> bool, s: string) returns (a: string)
    ensures AllBlank(space, a) && s == a + TrimLeft(space, s) && (TrimLeft(space, s) != "" ==> !space(TrimLeft(space, s)[0]))
  {
    a := "";
    if s != "" && space(s[0]) {
      var more := TrimLeftExactly(space, s[1..]);
      a := [s[0]] + more;
      assert s == [s[0]] + s[1..];
    }
  }

  lemma {:induction false} TrimRightExactly(space: char -> bool, s: string) returns (b: string)
    ensures AllBlank(space, b) && s == TrimRight(space, s) + b
    ensures var t := TrimRight(space, s); t != "" ==> !space(t[|t| - 1])
  {
    b := "";
    if s != "" && space(s[|s| - 1]) {
      var more := TrimRightExactly(space, s[..|s| - 1]);
      b := more + [s[|s| - 1]];
      assert s == s[..|s| - 1] + [s[|s| - 1]];
    }
  }

  lemma BothBlank(space: char -> bool, a: string, b: string)
    requires AllBlank(space, a) && AllBlank(space, b)
    ensures AllBlank(space, a + b)
  {}

  /** Trimming takes off the blanks at both ends, all of them and nothing else. */
  lemma TrimExactly(space: char -> bool, s: string) returns (a: string, b: string)
    ensures Trimmed(space, s, a, Trim(space, s), b)
    ensures Trim(space, s) == "" <==> AllBlank(space, s)
  {
    a := TrimLeftExactly(space, s);
    var t := TrimLeft(space, s);
    b := TrimRightExactly(space, t);
    var core := Trim(space, s);
    assert s == a + core + b;
    if core != "" {
      assert t[0] == core[0];
      assert s[|a|] == core[0];
    } else {
      assert s == a + b;
      BothBlank(space, a, b);
    }
  }

  lemma TrimIsOne(space: char -> bool, s: string, a: string, core: string, b: string)
    requires Trimmed(space, s, a, core, b)
    ensures core == Trim(space, s)
  {
    var x, y := TrimExactly(space, s);
    var t := Trim(space, s);
    forall k | 0 <= k < |a| ensures space(s[k]) { assert s[k] == a[k]; }
    forall k | 0 <= k < |x| ensures space(s[k]) { assert s[k] == x[k]; }
    forall k | |a| + |core| <= k < |s| ensures space(s[k]) { assert s[k] == b[k - |a| - |core|]; }
    forall k | |x| + |t| <= k < |s| ensures space(s[k]) { assert s[k] == y[k - |x| - |t|]; }
    if core != "" { assert s[|a|] == core[0] && s[|a| + |core| - 1] == core[|core| - 1]; }
    if t != "" { assert s[|x|] == t[0] && s[|x| + |t| - 1] == t[|t| - 1]; }
    if core != "" && t != "" {
      assert |a| == |x| && |core| == |t|;
      assert core == s[|a|..|a| + |core|] && t == s[|x|..|x| + |t|];
    }
  }

  /** The text behind the keyword of a directive. */
  function Body(space: char -> bool, directive: string): string
    requires |Trim(space, directive)| >= |KEYWORD|
  {
    Trim(space, directive)[|KEYWORD|..]
  }

  function SkipSpace(space: char -> bool, s: string, i: nat): (j: nat)
    requires i <= |s|
    ensures i <= j <= |s| && (j < |s| ==> !space(s[j]))
    decreases |s| - i
  {
    if i < |s| && space(s[i]) then SkipSpace(space, s, i + 1) else i
  }

  function WordEnd(space: char -> bool, s: string, i: nat): (e: nat)
    requires i <= |s|
    ensures i <= e <= |s|
    ensures i < |s| && !space(s[i]) ==> i < e
    decreases |s| - i
  {
    if i < |s| && !space(s[i]) then WordEnd(space, s, i + 1) else i
  }

  datatype Quoted = Unterminated | Quoted(text: string, next: nat)

  predicate IsEscape(s: string, i: nat) {
    i + 1 < |s| && s[i] == '\\' && (s[i + 1] == '"' || s[i + 1] == '\\')
  }

  /** Reads up to the closing quote; only an escaped quote and an escaped
      backslash are unescaped. */
  function ReadQuoted(s: string, i: nat, chunk: string): (q: Quoted)
    requires i <= |s|
    ensures q.Quoted? ==> i < q.next <= |s|
    decreases |s| - i
  {
    if i == |s| then Unterminated
    else if s[i] == '"' then Quoted(chunk, i + 1)
    else if IsEscape(s, i) then ReadQuoted(s, i + 2, chunk + [s[i + 1]])
    else ReadQuoted(s, i + 1, chunk + [s[i]])
  }

  /** The tokens from position i, after those already read. */
  function Tokens(space: char -> bool, s: string, i: nat, read: seq<string>): Option<seq<string>>
    requires i <= |s|
    decreases |s| - i
  {
    var j := SkipSpace(space, s, i);
    if j == |s| then Some(read)
    else if s[j] == '"' then
      match ReadQuoted(s, j + 1, "")
      case Unterminated => None
      case Quoted(text, next) => Tokens(space, s, next, read + [text])
    else
      var e := WordEnd(space, s, j);
      Tokens(space, s, e, read + [s[j..e]])
  }

  // --------------------------------------------------------------------- the loop

  method ReadQuotedLoop(s: string, start: nat) returns (q: Quoted)
    requires start <= |s|
    ensures q == ReadQuoted(s, start, "")
  {
    var i, chunk := start, "";
    while i < |s| && s[i] != '"'
      invariant start <= i <= |s|
      invariant ReadQuoted(s, start, "") == ReadQuoted(s, i, chunk)
    {
      if s[i] == '\\' && i + 1 < |s| && (s[i + 1] == '"' || s[i + 1] == '\\') {
        chunk := chunk + [s[i + 1]];
        i := i + 2;
      } else {
        chunk := chunk + [s[i]];
        i := i + 1;
      }
    }
    return if i == |s| then Unterminated else Quoted(chunk, i + 1);
  }

  /** `tokenize`, on the text after the keyword. */
  method Tokenize(space: char -> bool, body: string) returns (r: Option<seq<string>>)
    ensures r == Tokens(space, body, 0, [])
  {
    var tokens: seq<string> := [];
    var i := 0;
    while i < |body|
      invariant i <= |body|
      invariant Tokens(space, body, 0, []) == Tokens(space, body, i, tokens)
      decreases |body| - i
    {
      ghost var before := i;
      while i < |body| && space(body[i])
        invariant before <= i <= |body|
        invariant SkipSpace(space, body, before) == SkipSpace(space, body, i)
      {
        i := i + 1;
      }
      if i >= |body| { break; }
      if body[i] == '"' {
        var q := ReadQuotedLoop(body, i + 1);
        if q.Unterminated? { return None; }
        tokens := tokens + [q.text];
        i := q.next;
      } else {
        var start := i;
        while i < |body| && !space(body[i])
          invariant start <= i <= |body|
          invariant WordEnd(space, body, start) == WordEnd(space, body, i)
        {
          i := i + 1;
        }
        tokens := tokens + [body[start..i]];
      }
    }
    return Some(tokens);
  }

  // ------------------------------------------------------------- how tokens are written

  /** A token is written bare, or in quotes; there each quote and each backslash may
      have a backslash before it, as `escaped` says. */
  datatype Written = Bare(text: string) | InQuotes(text: string, escaped: seq<bool>)

  predicate Special(c: char) { c == '"' || c == '\\' }

  /** Quotes are escaped; a backslash may stand alone before anything but a quote or
      another backslash, and the closing quote is one. */
  predicate Spelt(t: string, escaped: seq<bool>) {
    |escaped| == |t| && forall k :: 0 <= k < |t| ==> SpeltAt(t, escaped, k)
  }

  predicate SpeltAt(t: string, escaped: seq<bool>, k: nat)
    requires k < |t| == |escaped|
  {
    && (escaped[k] ==> Special(t[k])) && (t[k] == '"' ==> escaped[k])
    && (t[k] == '\\' && !escaped[k] ==> k + 1 < |t| && !Special(t[k + 1]))
  }

  predicate NoBlank(space: char -> bool, s: string) { forall k :: 0 <= k < |s| ==> !space(s[k]) }

  predicate Proper(space: char -> bool, w: Written) {
    match w
    case Bare(t) => t != "" && NoBlank(space, t) && t[0] != '"'
    case InQuotes(t, escaped) => Spelt(t, escaped)
  }

  function Inner(t: string, escaped: seq<bool>): string
    requires |escaped| == |t|
  {
    if t == "" then "" else (if escaped[0] then ['\\', t[0]] else [t[0]]) + Inner(t[1..], escaped[1..])
  }

  function TokenText(w: Written): string
    requires w.InQuotes? ==> |w.escaped| == |w.text|
  {
    match w case Bare(t) => t case InQuotes(t, escaped) => "\"" + (Inner(t, escaped) + "\"")
  }

  /** A token and the blanks before it. */
  datatype Piece = Piece(gap: string, token: Written)

  /** Blanks before each token, some of them behind a bare one. */
  predicate Pieces(space: char -> bool, pieces: seq<Piece>) {
    && (forall k :: 0 <= k < |pieces| ==> AllBlank(space, pieces[k].gap) && Proper(space, pieces[k].token))
    && forall k :: 1 <= k < |pieces| && pieces[k - 1].token.Bare? ==> pieces[k].gap != ""
  }

  function PiecesText(space: char -> bool, pieces: seq<Piece>): string
    requires Pieces(space, pieces)
  {
    if pieces == [] then "" else pieces[0].gap + (TokenText(pieces[0].token) + PiecesText(space, pieces[1..]))
  }

  function Texts(pieces: seq<Piece>): (texts: seq<string>)
    ensures |texts| == |pieces| && forall k :: 0 <= k < |pieces| ==> texts[k] == pieces[k].token.text
  {
    seq(|pieces|, k requires 0 <= k < |pieces| => pieces[k].token.text)
  }

  /** What may follow the pieces: anything, but a blank or nothing behind a bare token. */
  predicate Follows(space: char -> bool, pieces: seq<Piece>, rest: string) {
    pieces != [] && pieces[|pieces| - 1].token.Bare? && rest != "" ==> space(rest[0])
  }

  // --------------------------------------------------------------- reading what is written

  /** A text known from position i on, taken apart. */
  lemma Cut(s: string, i: nat, a: string, b: string)
    requires i <= |s| && s[i..] == a + b
    ensures i + |a| <= |s| && s[i + |a|..] == b && |s| == i + |a| + |b|
    ensures forall k :: 0 <= k < |a| ==> s[i + k] == a[k]
  {
    assert s[i + |a|..] == s[i..][|a|..];
    assert forall k :: 0 <= k < |a| ==> s[i + k] == s[i..][k];
  }

  lemma SpeltTail(t: string, escaped: seq<bool>)
    requires t != "" && Spelt(t, escaped)
    ensures Spelt(t[1..], escaped[1..])
  {
    forall k | 0 <= k < |t| - 1 ensures SpeltAt(t[1..], escaped[1..], k) { assert SpeltAt(t, escaped, k + 1); }
  }

  /** Reading a spelt text gives the text and stops behind its quote. */
  lemma {:induction false} ReadInner(s: string, i: nat, t: string, escaped: seq<bool>, chunk: string, rest: string)
    requires i <= |s| && Spelt(t, escaped) && s[i..] == Inner(t, escaped) + ("\"" + rest)
    ensures ReadQuoted(s, i, chunk) == Quoted(chunk + t, |s| - |rest|)
    decreases |t|
  {
    if t == "" {
      assert s[i..] == "\"" + rest;
      Cut(s, i, "\"", rest);
      assert s[i] == "\""[0];
      assert chunk + t == chunk;
    } else {
      var head := if escaped[0] then ['\\', t[0]] else [t[0]];
      var tail := Inner(t[1..], escaped[1..]) + ("\"" + rest);
      assert Inner(t, escaped) + ("\"" + rest) == head + tail;
      Cut(s, i, head, tail);
      SpeltTail(t, escaped);
      assert SpeltAt(t, escaped, 0);
      assert s[i] == head[0] && (|head| == 2 ==> s[i + 1] == head[1]);
      if !escaped[0] { LoneBackslash(s, i, t, escaped, rest); }
      ReadInner(s, i + |head|, t[1..], escaped[1..], chunk + [t[0]], rest);
      assert chunk + [t[0]] + t[1..] == chunk + t;
    }
  }

  /** A character written as it is opens no escape. */
  lemma LoneBackslash(s: string, i: nat, t: string, escaped: seq<bool>, rest: string)
    requires t != "" && Spelt(t, escaped) && !escaped[0] && i < |s| && s[i] == t[0]
    requires s[i + 1..] == Inner(t[1..], escaped[1..]) + ("\"" + rest)
    ensures s[i] != '"' && !IsEscape(s, i)
  {
    assert SpeltAt(t, escaped, 0);
    if t[0] == '\\' {
      assert SpeltAt(t, escaped, 1);
      assert t[1..][0] == t[1] && escaped[1..][0] == escaped[1];
      assert Inner(t[1..], escaped[1..])[0] == t[1];
      assert s[i + 1] == s[i + 1..][0];
    }
  }

  lemma {:induction false} SkipBlanks(space: char -> bool, s: string, i: nat, gap: string, rest: string)
    requires i <= |s| && AllBlank(space, gap) && s[i..] == gap + rest && (rest != "" ==> !space(rest[0]))
    ensures SkipSpace(space, s, i) == |s| - |rest|
    decreases |gap|
  {
    Cut(s, i, gap, rest);
    if gap == "" {
      if rest != "" { assert s[i] == s[i..][0]; }
    } else {
      assert s[i] == gap[0] && space(gap[0]);
      assert s[i + 1..] == s[i..][1..] == gap[1..] + rest;
      SkipBlanks(space, s, i + 1, gap[1..], rest);
    }
  }

  lemma {:induction false} WordRead(space: char -> bool, s: string, i: nat, word: string, rest: string)
    requires i <= |s| && NoBlank(space, word) && s[i..] == word + rest && (rest != "" ==> space(rest[0]))
    ensures WordEnd(space, s, i) == |s| - |rest|
    decreases |word|
  {
    Cut(s, i, word, rest);
    if word == "" {
      if rest != "" { assert s[i] == s[i..][0]; }
    } else {
      assert s[i] == word[0] && !space(word[0]);
      assert s[i + 1..] == s[i..][1..] == word[1..] + rest;
      WordRead(space, s, i + 1, word[1..], rest);
    }
  }

  /** One written token: it is read, and the rest of the text remains. */
  lemma TokenRead(space: char -> bool, s: string, i: nat, p: Piece, rest: string, read: seq<string>)
    requires !space('"') && AllBlank(space, p.gap) && Proper(space, p.token) && Follows(space, [p], rest)
    requires i <= |s| && s[i..] == p.gap + (TokenText(p.token) + rest)
    ensures i < |s| - |rest| && s[|s| - |rest|..] == rest
    ensures Tokens(space, s, i, read) == Tokens(space, s, |s| - |rest|, read + [p.token.text])
  {
    var body := TokenText(p.token) + rest;
    var j := i + |p.gap|;
    assert body[0] == TokenText(p.token)[0];
    Cut(s, i, p.gap, body);
    SkipBlanks(space, s, i, p.gap, body);
    assert s[j] == s[j..][0];
    hide *;
    match p.token {
      case Bare(t) => BareRead(space, s, i, j, t, rest, read);
      case InQuotes(t, escaped) => QuotedRead(space, s, i, j, t, escaped, rest, read);
    }
  }

  lemma BareRead(space: char -> bool, s: string, i: nat, j: nat, t: string, rest: string, read: seq<string>)
    requires Proper(space, Bare(t)) && (rest != "" ==> space(rest[0]))
    requires i <= |s| && SkipSpace(space, s, i) == j <= |s| && s[j..] == TokenText(Bare(t)) + rest
    ensures i < |s| - |rest| && s[|s| - |rest|..] == rest
    ensures Tokens(space, s, i, read) == Tokens(space, s, |s| - |rest|, read + [t])
  {
    assert TokenText(Bare(t)) == t && t != "" && t[0] != '"' && NoBlank(space, t);
    hide *;
    Cut(s, j, t, rest);
    WordRead(space, s, j, t, rest);
    BareStep(space, s, i, j, |s| - |rest|, t, read);
  }

  lemma QuotedRead(space: char -> bool, s: string, i: nat, j: nat, t: string, escaped: seq<bool>, rest: string, read: seq<string>)
    requires Spelt(t, escaped)
    requires i <= |s| && SkipSpace(space, s, i) == j <= |s| && s[j..] == TokenText(InQuotes(t, escaped)) + rest
    ensures i < |s| - |rest| && s[|s| - |rest|..] == rest
    ensures Tokens(space, s, i, read) == Tokens(space, s, |s| - |rest|, read + [t])
  {
    QuotedText(t, escaped);
    hide *;
    QuotedParts(s, j, TokenText(InQuotes(t, escaped)), Inner(t, escaped), rest);
    QuotedFrom(space, s, i, j, t, escaped, rest, read);
  }

  lemma QuotedFrom(space: char -> bool, s: string, i: nat, j: nat, t: string, escaped: seq<bool>, rest: string, read: seq<string>)
    requires Spelt(t, escaped) && i <= |s| && SkipSpace(space, s, i) == j
    requires j + 1 < |s| - |rest| && s[j] == '"' && s[j + 1..] == Inner(t, escaped) + ("\"" + rest)
    ensures Tokens(space, s, i, read) == Tokens(space, s, |s| - |rest|, read + [t])
  {
    hide *;
    ReadInner(s, j + 1, t, escaped, "", rest);
    NothingBefore(t);
    QuotedStep(space, s, i, j, |s| - |rest|, t, read);
  }

  lemma NothingBefore(t: string)
    ensures "" + t == t
  {}

  lemma QuotedText(t: string, escaped: seq<bool>)
    requires |escaped| == |t|
    ensures TokenText(InQuotes(t, escaped)) == "\"" + (Inner(t, escaped) + "\"")
  {}

  lemma QuotedParts(s: string, j: nat, text: string, inner: string, rest: string)
    requires j <= |s| && s[j..] == text + rest && text == "\"" + (inner + "\"")
    ensures j + 1 < |s| - |rest| && s[j] == '"' && s[j + 1..] == inner + ("\"" + rest) && s[|s| - |rest|..] == rest
  {
    var quote, tail := "\"", inner + ("\"" + rest);
    assert text + rest == quote + tail;
    Cut(s, j, quote, tail);
    Cut(s, j + 1, inner, quote + rest);
    Cut(s, j + 1 + |inner|, quote, rest);
    assert s[j] == quote[0];
  }

  lemma BareStep(space: char -> bool, s: string, i: nat, j: nat, e: nat, t: string, read: seq<string>)
    requires i <= |s| && SkipSpace(space, s, i) == j < |s| && s[j] != '"' && WordEnd(space, s, j) == e
    requires s[j..e] == t || (e <= |s| && |t| == e - j && forall k :: 0 <= k < |t| ==> s[j + k] == t[k])
    ensures Tokens(space, s, i, read) == Tokens(space, s, e, read + [t])
  {
    assert s[j..e] == t;
  }

  lemma QuotedStep(space: char -> bool, s: string, i: nat, j: nat, e: nat, t: string, read: seq<string>)
    requires i <= |s| && SkipSpace(space, s, i) == j < |s| && s[j] == '"' && ReadQuoted(s, j + 1, "") == Quoted(t, e)
    ensures Tokens(space, s, i, read) == Tokens(space, s, e, read + [t])
  {}

  lemma PiecesTail(space: char -> bool, pieces: seq<Piece>)
    requires pieces != [] && Pieces(space, pieces)
    ensures Pieces(space, pieces[1..]) && AllBlank(space, pieces[0].gap) && Proper(space, pieces[0].token)
    ensures |pieces| > 1 && pieces[0].token.Bare? ==> pieces[1].gap != ""
    ensures pieces[0].token.InQuotes? ==> |pieces[0].token.escaped| == |pieces[0].token.text|
    ensures Texts(pieces) == [pieces[0].token.text] + Texts(pieces[1..])
    ensures PiecesText(space, pieces) == pieces[0].gap + (TokenText(pieces[0].token) + PiecesText(space, pieces[1..]))
  {
    hide AllBlank, TokenText;
    forall k | 0 <= k < |pieces| - 1 ensures pieces[1..][k] == pieces[k + 1] {}
  }

  lemma FollowsTail(space: char -> bool, pieces: seq<Piece>, rest: string)
    requires pieces != [] && Pieces(space, pieces) && Follows(space, pieces, rest)
    ensures Pieces(space, pieces[1..]) && Follows(space, pieces[1..], rest)
    ensures Follows(space, [pieces[0]], PiecesText(space, pieces[1..]) + rest)
  {
    PiecesTail(space, pieces);
    if |pieces| > 1 {
      PiecesTail(space, pieces[1..]);
      assert pieces[1..][0] == pieces[1];
      hide TokenText, PiecesText, Pieces, Proper;
    } else {
      NoPieces(space);
      assert PiecesText(space, pieces[1..]) + rest == rest;
      hide PiecesText, Pieces, Proper;
    }
  }

  /** However the tokens are written, they are read, and reading goes on behind them. */
  lemma {:induction false} PiecesRead(space: char -> bool, s: string, i: nat, pieces: seq<Piece>, rest: string, read: seq<string>)
    requires !space('"') && Pieces(space, pieces) && Follows(space, pieces, rest)
    requires i <= |s| && s[i..] == PiecesText(space, pieces) + rest
    ensures |s| >= |rest| && Tokens(space, s, i, read) == Tokens(space, s, |s| - |rest|, read + Texts(pieces))
    decreases |pieces|
  {
    hide *;
    if pieces == [] {
      NoPieces(space);
      assert s[i..] == rest && read + Texts(pieces) == read;
    } else {
      PiecesTail(space, pieces);
      FollowsTail(space, pieces, rest);
      var first, more := TokenText(pieces[0].token), PiecesText(space, pieces[1..]) + rest;
      assert s[i..] == pieces[0].gap + (first + more);
      TokenRead(space, s, i, pieces[0], more, read);
      PiecesRead(space, s, |s| - |more|, pieces[1..], rest, read + [pieces[0].token.text]);
      assert read + [pieces[0].token.text] + Texts(pieces[1..]) == read + Texts(pieces);
    }
  }

  lemma NoPieces(space: char -> bool)
    ensures Pieces(space, []) && PiecesText(space, []) == ""
  {}

  // ------------------------------------------------------------- open quotes, exactly

  /** How many backslashes stand right before position k. */
  function Run(s: string, k: nat): nat
    requires k <= |s|
  {
    if k > 0 && s[k - 1] == '\\' then 1 + Run(s, k - 1) else 0
  }

  /** Behind every quote's run of backslashes of even length the token would end. */
  predicate NeverCloses(s: string) {
    forall k :: 0 <= k < |s| && s[k] == '"' ==> Run(s, k) % 2 == 1
  }

  /** Cutting a prefix changes a run only where it reaches back to the cut. */
  lemma {:induction false} RunBehind(s: string, n: nat, k: nat)
    requires n <= k <= |s|
    ensures Run(s, k) == Run(s[n..], k - n) + if Run(s[n..], k - n) == k - n then Run(s, n) else 0
  {
    if k > n { RunBehind(s, n, k - 1); }
  }

  /** Reading fails exactly when no quote is unescaped: each has an odd number of
      backslashes right before it. */
  lemma {:induction false} UnterminatedExactly(s: string, i: nat, chunk: string)
    requires i <= |s|
    ensures ReadQuoted(s, i, chunk).Unterminated? <==> NeverCloses(s[i..])
    decreases |s| - i
  {
    if i < |s| {
      var t := s[i..];
      if s[i] == '"' {
        assert t[0] == '"';
      } else if IsEscape(s, i) {
        UnterminatedExactly(s, i + 2, chunk + [s[i + 1]]);
        assert s[i + 2..] == t[2..];
        PairOff(t);
      } else {
        UnterminatedExactly(s, i + 1, chunk + [s[i]]);
        assert s[i + 1..] == t[1..];
        OneOff(t);
      }
    }
  }

  lemma PairOff(t: string)
    requires IsEscape(t, 0)
    ensures NeverCloses(t) <==> NeverCloses(t[2..])
  {
    assert Run(t, 0) == 0 && Run(t, 1) == 1;
    assert Run(t, 2) == if t[1] == '\\' then 2 else 0;
    forall k | 2 <= k < |t| ensures Run(t, k) % 2 == Run(t[2..], k - 2) % 2 && t[k] == t[2..][k - 2] { RunBehind(t, 2, k); }
    if NeverCloses(t) {
      forall k | 0 <= k < |t[2..]| && t[2..][k] == '"' ensures Run(t[2..], k) % 2 == 1 { assert t[k + 2] == '"'; }
    }
    if NeverCloses(t[2..]) {
      forall k | 0 <= k < |t| && t[k] == '"' ensures Run(t, k) % 2 == 1 { if k >= 2 { assert t[2..][k - 2] == '"'; } }
    }
  }

  lemma OneOff(t: string)
    requires t != "" && t[0] != '"' && !IsEscape(t, 0)
    ensures NeverCloses(t) <==> NeverCloses(t[1..])
  {
    assert Run(t, 0) == 0;
    forall k | 1 <= k < |t| && t[k] == '"' ensures Run(t, k) == Run(t[1..], k - 1) && t[k] == t[1..][k - 1] {
      RunBehind(t, 1, k);
      if t[0] == '\\' { NoFullRun(t, k); }
    }
    if NeverCloses(t) {
      forall k | 0 <= k < |t[1..]| && t[1..][k] == '"' ensures Run(t[1..], k) % 2 == 1 { assert t[k + 1] == '"'; }
    }
    if NeverCloses(t[1..]) {
      forall k | 0 <= k < |t| && t[k] == '"' ensures Run(t, k) % 2 == 1 { if k >= 1 { assert t[1..][k - 1] == '"'; } }
    }
  }

  /** Behind a lone backslash no run reaches back to it. */
  lemma {:induction false} NoFullRun(t: string, k: nat)
    requires 1 <= k < |t| && t[0] == '\\' && !IsEscape(t, 0) && t[k] == '"'
    ensures Run(t[1..], k - 1) != k - 1
  {
    assert !Special(t[1]);
    assert k > 1;
    NotAll(t[1..], k - 1);
  }

  lemma {:induction false} NotAll(u: string, k: nat)
    requires 1 <= k <= |u| && u[0] != '\\'
    ensures Run(u, k) < k
  {
    if k > 1 { NotAll(u, k - 1); }
  }

  // -------------------------------------------------------------- every text, taken apart

  /** What is read from an opened quote was spelt there. */
  lemma {:induction false} QuotedIsSpelt(s: string, i: nat, chunk: string) returns (t: string, escaped: seq<bool>)
    requires i <= |s| && ReadQuoted(s, i, chunk).Quoted?
    ensures Spelt(t, escaped)
    ensures var q := ReadQuoted(s, i, chunk); q.text == chunk + t && s[i..q.next] == Inner(t, escaped) + "\""
    decreases |s| - i
  {
    if s[i] == '"' {
      t, escaped := "", [];
      assert s[i..i + 1] == "\"" && chunk + t == chunk;
    } else {
      var pair := IsEscape(s, i);
      var n, c := if pair then i + 2 else i + 1, if pair then s[i + 1] else s[i];
      var q := ReadQuoted(s, i, chunk);
      var t', escaped' := QuotedIsSpelt(s, n, chunk + [c]);
      t, escaped := [c] + t', [pair] + escaped';
      assert t[1..] == t' && escaped[1..] == escaped';
      assert s[i..q.next] == s[i..n] + s[n..q.next];
      assert chunk + [c] + t' == chunk + t;
      if !pair && c == '\\' { assert s[n] == s[n..q.next][0]; FirstSpelt(t', escaped'); }
      forall k | 0 <= k < |t| ensures SpeltAt(t, escaped, k) {
        if k > 0 { assert SpeltAt(t', escaped', k - 1); }
      }
      assert s[i..n] == if pair then ['\\', c] else [c];
    }
  }

  /** A spelt text begins with its first character or, if that is special, with a
      backslash. */
  lemma FirstSpelt(t: string, escaped: seq<bool>)
    requires Spelt(t, escaped)
    ensures (t == "" || Special(t[0])) <==> Special((Inner(t, escaped) + "\"")[0])
  {
    if t != "" { assert SpeltAt(t, escaped, 0); }
  }

  /** Blanks and an opened quote that nothing closes. */
  predicate OpenAt(space: char -> bool, end: string, q: nat) {
    q < |end| && AllBlank(space, end[..q]) && end[q] == '"' && NeverCloses(end[q + 1..])
  }

  ghost predicate Open(space: char -> bool, end: string) { exists q: nat :: OpenAt(space, end, q) }

  lemma {:induction false} SkipIsBlank(space: char -> bool, s: string, i: nat)
    requires i <= |s|
    ensures AllBlank(space, s[i..SkipSpace(space, s, i)])
    decreases |s| - i
  {
    if i < |s| && space(s[i]) {
      var j := SkipSpace(space, s, i);
      SkipIsBlank(space, s, i + 1);
      assert s[i..j] == [s[i]] + s[i + 1..j];
    }
  }

  lemma {:induction false} WordIsFull(space: char -> bool, s: string, i: nat)
    requires i <= |s|
    ensures var e := WordEnd(space, s, i); NoBlank(space, s[i..e]) && (e < |s| ==> space(s[e]))
    decreases |s| - i
  {
    if i < |s| && !space(s[i]) {
      var e := WordEnd(space, s, i);
      WordIsFull(space, s, i + 1);
      assert s[i..e] == [s[i]] + s[i + 1..e];
    }
  }

  lemma OpenHere(space: char -> bool, s: string, i: nat)
    requires i <= |s| && SkipSpace(space, s, i) < |s| && s[SkipSpace(space, s, i)] == '"'
    ensures ReadQuoted(s, SkipSpace(space, s, i) + 1, "").Unterminated? ==> Open(space, s[i..])
  {
    var j := SkipSpace(space, s, i);
    SkipIsBlank(space, s, i);
    UnterminatedExactly(s, j + 1, "");
    assert s[i..][..j - i] == s[i..j] && s[i..][j - i + 1..] == s[j + 1..];
    assert ReadQuoted(s, j + 1, "").Unterminated? ==> OpenAt(space, s[i..], j - i);
  }

  /** The first token of a text that holds one, as it was written. */
  lemma FirstPiece(space: char -> bool, s: string, i: nat, read: seq<string>) returns (p: Piece, e: nat)
    requires i <= |s| && SkipSpace(space, s, i) < |s| && !Open(space, s[i..])
    ensures i < e <= |s| && AllBlank(space, p.gap) && Proper(space, p.token) && s[i..e] == p.gap + TokenText(p.token)
    ensures p.token.Bare? && e < |s| ==> space(s[e])
    ensures Tokens(space, s, i, read) == Tokens(space, s, e, read + [p.token.text])
  {
    var j := SkipSpace(space, s, i);
    SkipIsBlank(space, s, i);
    hide *;
    if s[j] == '"' { p, e := FirstQuoted(space, s, i, j, read); } else { p, e := FirstBare(space, s, i, j, read); }
  }

  lemma FirstQuoted(space: char -> bool, s: string, i: nat, j: nat, read: seq<string>) returns (p: Piece, e: nat)
    requires i <= |s| && SkipSpace(space, s, i) == j < |s| && s[j] == '"' && !Open(space, s[i..]) && i <= j && AllBlank(space, s[i..j])
    ensures i < e <= |s| && AllBlank(space, p.gap) && Proper(space, p.token) && s[i..e] == p.gap + TokenText(p.token)
    ensures p.token.Bare? && e < |s| ==> space(s[e])
    ensures Tokens(space, s, i, read) == Tokens(space, s, e, read + [p.token.text])
  {
    OpenHere(space, s, i);
    var t, escaped := QuotedIsSpelt(s, j + 1, "");
    assert "" + t == t;
    var q := ReadQuoted(s, j + 1, "");
    p, e := Piece(s[i..j], InQuotes(t, escaped)), q.next;
    assert s[i..e] == s[i..j] + ([s[j]] + s[j + 1..e]) && [s[j]] == "\"";
    QuotedStep(space, s, i, j, e, t, read);
  }

  lemma FirstBare(space: char -> bool, s: string, i: nat, j: nat, read: seq<string>) returns (p: Piece, e: nat)
    requires i <= |s| && SkipSpace(space, s, i) == j < |s| && s[j] != '"' && i <= j && AllBlank(space, s[i..j])
    ensures i < e <= |s| && AllBlank(space, p.gap) && Proper(space, p.token) && s[i..e] == p.gap + TokenText(p.token)
    ensures p.token.Bare? && e < |s| ==> space(s[e])
    ensures Tokens(space, s, i, read) == Tokens(space, s, e, read + [p.token.text])
  {
    e := WordEnd(space, s, j);
    WordIsFull(space, s, j);
    p := Piece(s[i..j], Bare(s[j..e]));
    assert s[i..e] == s[i..j] + s[j..e];
    BareStep(space, s, i, j, e, s[j..e], read);
    hide Tokens, SkipSpace, WordEnd;
  }

  lemma OpenIsNone(space: char -> bool, s: string, i: nat, q: nat, read: seq<string>)
    requires !space('"') && i <= |s| && OpenAt(space, s[i..], q)
    ensures Tokens(space, s, i, read) == None
  {
    var end := s[i..];
    var j := i + q;
    assert s[i..] == end[..q] + s[j..] && s[j..][0] == end[q] == '"' && s[j + 1..] == end[q + 1..];
    SkipBlanks(space, s, i, end[..q], s[j..]);
    UnterminatedExactly(s, j + 1, "");
    OpenStep(space, s, i, j, read);
  }

  lemma OpenStep(space: char -> bool, s: string, i: nat, j: nat, read: seq<string>)
    requires i <= |s| && SkipSpace(space, s, i) == j < |s| && s[j] == '"' && ReadQuoted(s, j + 1, "").Unterminated?
    ensures Tokens(space, s, i, read) == None
  {}

  /** Every text is tokens as they can be written, and then blanks or a quote that
      nothing closes; it is read as these tokens, or refused. */
  lemma {:induction false} TakenApart(space: char -> bool, s: string, i: nat, read: seq<string>) returns (pieces: seq<Piece>, end: string)
    requires !space('"') && i <= |s|
    ensures Pieces(space, pieces) && Follows(space, pieces, end) && s[i..] == PiecesText(space, pieces) + end
    ensures if Open(space, end) then Tokens(space, s, i, read) == None
            else AllBlank(space, end) && Tokens(space, s, i, read) == Some(read + Texts(pieces))
    ensures pieces != [] && pieces[0].gap == "" && i < |s| ==> !space(s[i])
    decreases |s| - i
  {
    hide *;
    var j := SkipSpace(space, s, i);
    if Open(space, s[i..]) || j == |s| {
      pieces, end := [], s[i..];
      NoPieces(space);
      NothingLeft(space, s, i, read);
      assert read + Texts([]) == read && PiecesText(space, pieces) + end == s[i..];
    } else {
      var p, e := FirstPiece(space, s, i, read);
      var more, rest := TakenApart(space, s, e, read + [p.token.text]);
      pieces, end := [p] + more, rest;
      assert s[i..] == s[i..e] + s[e..];
      assert read + [p.token.text] + Texts(more) == read + Texts(pieces);
      OneMoreBelongs(space, p, more, end, s, e);
      OneMoreText(space, p, more);
      OneMoreStarts(space, p, s, i, e);
    }
  }

  /** Nothing but blanks, or an open quote. */
  lemma NothingLeft(space: char -> bool, s: string, i: nat, read: seq<string>)
    requires !space('"') && i <= |s| && (Open(space, s[i..]) || SkipSpace(space, s, i) == |s|)
    ensures Follows(space, [], s[i..])
    ensures if Open(space, s[i..]) then Tokens(space, s, i, read) == None
            else AllBlank(space, s[i..]) && Tokens(space, s, i, read) == Some(read)
  {
    if q: nat :| OpenAt(space, s[i..], q) {
      OpenIsNone(space, s, i, q, read);
    } else {
      SkipIsBlank(space, s, i);
      assert s[i..|s|] == s[i..];
    }
  }

  lemma OneMoreBelongs(space: char -> bool, p: Piece, pieces: seq<Piece>, end: string, s: string, e: nat)
    requires AllBlank(space, p.gap) && Proper(space, p.token) && Pieces(space, pieces) && Follows(space, pieces, end)
    requires e <= |s| && s[e..] == PiecesText(space, pieces) + end && (p.token.Bare? && e < |s| ==> space(s[e]))
    requires pieces != [] && pieces[0].gap == "" && e < |s| ==> !space(s[e])
    ensures Pieces(space, [p] + pieces) && Follows(space, [p] + pieces, end)
  {
    if pieces != [] { NonEmpty(space, pieces); } else { NoPieces(space); }
    hide AllBlank, Proper, PiecesText;
    PieceBefore(space, p, pieces);
    if pieces == [] && end != "" { assert s[e] == s[e..][0] && s[e..] == end; }
  }

  lemma PieceBefore(space: char -> bool, p: Piece, pieces: seq<Piece>)
    requires AllBlank(space, p.gap) && Proper(space, p.token) && Pieces(space, pieces)
    requires p.token.Bare? && pieces != [] ==> pieces[0].gap != ""
    ensures Pieces(space, [p] + pieces)
  {
    hide AllBlank, Proper;
    var all := [p] + pieces;
    forall k | 0 <= k < |all| ensures AllBlank(space, all[k].gap) && Proper(space, all[k].token) { if k > 0 { assert all[k] == pieces[k - 1]; } }
    forall k | 1 <= k < |all| && all[k - 1].token.Bare? ensures all[k].gap != "" { if k > 1 { assert all[k - 1] == pieces[k - 2]; } }
  }

  lemma OneMoreText(space: char -> bool, p: Piece, pieces: seq<Piece>)
    requires Pieces(space, [p] + pieces)
    ensures p.token.InQuotes? ==> |p.token.escaped| == |p.token.text|
    ensures Pieces(space, pieces) && PiecesText(space, [p] + pieces) == p.gap + TokenText(p.token) + PiecesText(space, pieces)
  {
    var all := [p] + pieces;
    assert all[1..] == pieces && all[0] == p;
    PiecesTail(space, all);
    hide Pieces, PiecesText, TokenText, Proper;
  }

  lemma OneMoreStarts(space: char -> bool, p: Piece, s: string, i: nat, e: nat)
    requires !space('"') && i < e <= |s| && Proper(space, p.token) && s[i..e] == p.gap + TokenText(p.token)
    ensures p.gap == "" ==> !space(s[i])
  {
    if p.gap == "" {
      assert s[i..e] == TokenText(p.token) && s[i] == s[i..e][0];
      if p.token.Bare? { FirstIsNoBlank(space, p.token.text); }
    }
  }

  lemma FirstIsNoBlank(space: char -> bool, t: string)
    requires t != "" && NoBlank(space, t)
    ensures !space(t[0])
  {}

  lemma NonEmpty(space: char -> bool, pieces: seq<Piece>)
    requires pieces != [] && Pieces(space, pieces)
    ensures PiecesText(space, pieces) != ""
  {}

  // -------------------------------------------------------------------- the theorems

  /** The text is these pieces and then blanks. */
  predicate WrittenAs(space: char -> bool, s: string, pieces: seq<Piece>, gap: string) {
    Pieces(space, pieces) && AllBlank(space, gap) && s == PiecesText(space, pieces) + gap
  }

  /** The text is these pieces and then a quote that nothing closes. */
  ghost predicate BrokenAs(space: char -> bool, s: string, pieces: seq<Piece>, end: string) {
    Pieces(space, pieces) && Follows(space, pieces, end) && Open(space, end) && s == PiecesText(space, pieces) + end
  }

  /** A text is read as a list of tokens exactly when it writes these tokens, each
      bare or in quotes, in any spelling; and it is refused exactly when some
      quote is opened and never closed. */
  lemma TokensExactly(space: char -> bool, s: string)
    requires !space('"')
    ensures forall tokens :: Tokens(space, s, 0, []) == Some(tokens) <==> exists pieces, gap :: WrittenAs(space, s, pieces, gap) && Texts(pieces) == tokens
    ensures Tokens(space, s, 0, []) == None <==> exists pieces, end :: BrokenAs(space, s, pieces, end)
  {
    hide *;
    var pieces, end := TakenApart(space, s, 0, []);
    assert s[0..] == s && [] + Texts(pieces) == Texts(pieces);
    Whole(space, s, pieces, end);
    assert if Open(space, end) then BrokenAs(space, s, pieces, end) else WrittenAs(space, s, pieces, end);
    forall ps, gap | WrittenAs(space, s, ps, gap) ensures Tokens(space, s, 0, []) == Some(Texts(ps)) { WrittenIsRead(space, s, ps, gap); }
    forall ps, e | BrokenAs(space, s, ps, e) ensures Tokens(space, s, 0, []) == None { BrokenIsRefused(space, s, ps, e); }
  }

  lemma Whole(space: char -> bool, s: string, pieces: seq<Piece>, end: string)
    requires Pieces(space, pieces) && Follows(space, pieces, end) && s == PiecesText(space, pieces) + end
    ensures AllBlank(space, end) ==> WrittenAs(space, s, pieces, end)
    ensures Open(space, end) ==> BrokenAs(space, s, pieces, end)
  {}

  lemma WrittenIsRead(space: char -> bool, s: string, pieces: seq<Piece>, gap: string)
    requires !space('"') && WrittenAs(space, s, pieces, gap)
    ensures Tokens(space, s, 0, []) == Some(Texts(pieces))
  {
    assert s[0..] == s;
    PiecesRead(space, s, 0, pieces, gap, []);
    var i := |s| - |gap|;
    assert s[i..] == gap + "" && [] + Texts(pieces) == Texts(pieces);
    SkipBlanks(space, s, i, gap, "");
  }

  lemma BrokenIsRefused(space: char -> bool, s: string, pieces: seq<Piece>, end: string)
    requires !space('"') && BrokenAs(space, s, pieces, end)
    ensures Tokens(space, s, 0, []) == None
  {
    assert s[0..] == s;
    PiecesRead(space, s, 0, pieces, end, []);
    var i := |s| - |end|;
    assert s[i..] == end;
    var q: nat :| OpenAt(space, end, q);
    OpenIsNone(space, s, i, q, [] + Texts(pieces));
  }

  /** Every text can be written in quotes. */
  lemma Quotable(t: string) returns (escaped: seq<bool>)
    ensures Spelt(t, escaped)
  {
    escaped := seq(|t|, k requires 0 <= k < |t| => Special(t[k]));
  }

  /** For every list of tokens, however each is written, the directive that writes
      them after the keyword is read as them. */
  lemma TokenizerRoundTrip(space: char -> bool, pieces: seq<Piece>, gap: string)
    requires !space('"') && !space('S') && !space('e') && Pieces(space, pieces) && AllBlank(space, gap)
    ensures var directive := KEYWORD + (PiecesText(space, pieces) + gap);
            && |Trim(space, directive)| >= |KEYWORD|
            && Tokens(space, Body(space, directive), 0, []) == Some(Texts(pieces))
  {
    var s := PiecesText(space, pieces);
    var directive, front := KEYWORD + (s + gap), KEYWORD + s;
    PiecesEnd(space, pieces);
    TrimDirective(space, s, gap);
    assert front[|KEYWORD|..] == s && s + "" == s;
    hide Tokens, PiecesText, Pieces, Trim;
    assert WrittenAs(space, s, pieces, "");
    WrittenIsRead(space, s, pieces, "");
  }

  lemma TrimDirective(space: char -> bool, s: string, gap: string)
    requires !space('S') && !space('e') && AllBlank(space, gap) && (s != "" ==> !space(s[|s| - 1]))
    ensures Trim(space, KEYWORD + (s + gap)) == KEYWORD + s
  {
    var directive, front := KEYWORD + (s + gap), KEYWORD + s;
    assert directive[0] == 'S' && directive == front + gap;
    assert front[|front| - 1] == if s == "" then 'e' else s[|s| - 1];
    TrimBlanks(space, front, gap);
  }

  lemma {:induction false} TrimBlanks(space: char -> bool, s: string, gap: string)
    requires AllBlank(space, gap) && s != "" && !space(s[|s| - 1])
    ensures TrimRight(space, s + gap) == s
  {
    if gap == "" {
      assert s + gap == s;
    } else {
      var t, n := s + gap, |gap| - 1;
      assert t[|t| - 1] == gap[n] && space(gap[n]) && t[..|t| - 1] == s + gap[..n];
      TrimBlanks(space, s, gap[..n]);
    }
  }

  /** Pieces end in a quote or in a character that is no blank. */
  lemma {:induction false} PiecesEnd(space: char -> bool, pieces: seq<Piece>)
    requires !space('"') && Pieces(space, pieces)
    ensures var s := PiecesText(space, pieces); s != "" ==> !space(s[|s| - 1])
  {
    if pieces != [] {
      PiecesTail(space, pieces);
      PiecesEnd(space, pieces[1..]);
      TokenEnds(space, pieces[0].token);
      hide Pieces, PiecesText, Proper, TokenText;
    }
  }

  lemma TokenEnds(space: char -> bool, w: Written)
    requires !space('"') && Proper(space, w)
    ensures var t := TokenText(w); t != "" && !space(t[|t| - 1])
  {}
}

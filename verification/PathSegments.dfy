/** Path segments: the escaping of an authenticated payload, and the path that a
    payload extends. */
module PathSegments {
  import opened PercentEncoding

  /** What stands for itself in a segment: the unreserved bytes and `$ & + : = @`. */
  predicate StandsForItself(b: Byte) {
    IsUnreserved(b) || b == 36 || b == 38 || b == PLUS || b == 58 || b == 61 || b == 64
  }

  function SegmentByte(b: Byte): seq<Byte> {
    if StandsForItself(b) then [b] else [PERCENT, HexDigit(b / 16), HexDigit(b % 16)]
  }

  function SegmentBytes(v: seq<Byte>): seq<Byte> {
    if v == [] then [] else SegmentByte(v[0]) + SegmentBytes(v[1..])
  }

  lemma {:induction false} SegmentBytesKnown(v: seq<Byte>)
    ensures Ascii(SegmentBytes(v))
    ensures forall i :: 0 <= i < |SegmentBytes(v)| ==> StandsForItself(SegmentBytes(v)[i]) || SegmentBytes(v)[i] == PERCENT
  {
    if v != [] { SegmentBytesKnown(v[1..]); }
  }

  /** `_escape_path_payload`. */
  function EscapeSegment(payload: string): string {
    SegmentBytesKnown(Utf8(payload));
    AsciiText(SegmentBytes(Utf8(payload)))
  }

  // -------------------------------------------------------------- nothing is lost

  lemma {:induction false} UnquoteSegment(v: seq<Byte>)
    ensures Unquote(SegmentBytes(v)) == v
  {
    if v != [] {
      var b, s := v[0], SegmentBytes(v);
      UnquoteSegment(v[1..]);
      if StandsForItself(b) {
        assert s[1..] == SegmentBytes(v[1..]);
      } else {
        assert s[3..] == SegmentBytes(v[1..]);
        assert IsTriplet(s);
        assert HexValue(s[1]) * 16 + HexValue(s[2]) == b;
      }
      assert v == [b] + v[1..];
    }
  }

  /** Decoding an escaped payload gives the payload; escaping writes no slash, and
      keeps payloads apart. */
  lemma SegmentKeeps(payload: string, other: string)
    ensures Unquote(Utf8(EscapeSegment(payload))) == Utf8(payload)
    ensures '/' !in EscapeSegment(payload)
    ensures EscapeSegment(payload) == EscapeSegment(other) ==> payload == other
  {
    var v, w := Utf8(payload), Utf8(other);
    SegmentBytesKnown(v);
    SegmentBytesKnown(w);
    Utf8OfAscii(SegmentBytes(v));
    Utf8OfAscii(SegmentBytes(w));
    UnquoteSegment(v);
    UnquoteSegment(w);
    forall k | 0 <= k < |EscapeSegment(payload)| ensures EscapeSegment(payload)[k] != '/' {
      assert EscapeSegment(payload)[k] as int == SegmentBytes(v)[k];
    }
    if EscapeSegment(payload) == EscapeSegment(other) { Utf8Apart(payload, other); }
  }

  // ------------------------------------------------------------------ the whole path

  /** `stem` is `base` without the slashes at its end. */
  predicate IsStem(base: string, stem: string) {
    && stem <= base && (stem != "" ==> stem[|stem| - 1] != '/')
    && forall k :: |stem| <= k < |base| ==> base[k] == '/'
  }

  /** The path is the base's stem, one slash, and the escaped payload. */
  predicate ExtendsBy(base: string, payload: string, path: string, stem: string) {
    IsStem(base, stem) && path == stem + "/" + EscapeSegment(payload)
  }

  ghost predicate Extends(base: string, payload: string, path: string) {
    exists stem :: ExtendsBy(base, payload, path, stem)
  }

  function WithoutTrailingSlashes(path: string): string {
    if path != "" && path[|path| - 1] == '/' then WithoutTrailingSlashes(path[..|path| - 1]) else path
  }

  function Joined(path: string, payload: string): string {
    WithoutTrailingSlashes(path) + "/" + EscapeSegment(payload)
  }

  lemma {:induction false} StemOf(base: string)
    ensures IsStem(base, WithoutTrailingSlashes(base))
  {
    if base != "" && base[|base| - 1] == '/' { StemOf(base[..|base| - 1]); }
  }

  lemma OneStem(base: string, a: string, b: string)
    requires IsStem(base, a) && IsStem(base, b)
    ensures a == b
  {
    assert a == base[..|a|] && b == base[..|b|];
  }

  /** That path, and no other, is emitted. */
  lemma JoinedExactly(base: string, payload: string, path: string)
    ensures Extends(base, payload, path) <==> path == Joined(base, payload)
  {
    var stem := WithoutTrailingSlashes(base);
    StemOf(base);
    hide WithoutTrailingSlashes, EscapeSegment;
    if Extends(base, payload, path) {
      var other :| ExtendsBy(base, payload, path, other);
      OneStem(base, stem, other);
    }
    if path == Joined(base, payload) { assert ExtendsBy(base, payload, path, stem); }
  }

  /** On one base, different payloads give different paths: what stands behind the
      last slash of a path is its payload, escaped. */
  lemma PathsApart(base: string, p: string, q: string, path: string)
    requires Extends(base, p, path) && Extends(base, q, path)
    ensures p == q
  {
    JoinedExactly(base, p, path);
    JoinedExactly(base, q, path);
    SegmentKeeps(p, q);
    hide WithoutTrailingSlashes, EscapeSegment;
    var n := |WithoutTrailingSlashes(base)| + 1;
    assert path[n..] == EscapeSegment(p) && path[n..] == EscapeSegment(q);
  }

  /** Position of the last slash, or -1. */
  function LastSlash(path: string): (k: int)
    ensures -1 <= k < |path|
  {
    if path == "" then -1 else if path[|path| - 1] == '/' then |path| - 1 else LastSlash(path[..|path| - 1])
  }

  lemma {:induction false} LastSlashAt(front: string, segment: string)
    requires '/' !in segment
    ensures LastSlash(front + "/" + segment) == |front|
  {
    var path := front + "/" + segment;
    if segment == "" {
      assert path[|path| - 1] == '/';
    } else {
      var n := |segment| - 1;
      assert path[|path| - 1] == segment[n] && path[..|path| - 1] == front + "/" + segment[..n];
      LastSlashAt(front, segment[..n]);
    }
  }

  /** The payload can be read off the path: decode what is behind its last slash. */
  lemma PayloadRecovered(base: string, payload: string, path: string)
    requires Extends(base, payload, path)
    ensures LastSlash(path) >= 0 && Unquote(Utf8(path[LastSlash(path) + 1..])) == Utf8(payload)
  {
    JoinedExactly(base, payload, path);
    SegmentKeeps(payload, payload);
    var front, segment := WithoutTrailingSlashes(base), EscapeSegment(payload);
    hide WithoutTrailingSlashes, EscapeSegment, LastSlash;
    LastSlashAt(front, segment);
    assert path[|front| + 1..] == segment;
  }
}

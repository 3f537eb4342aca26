/** The bearer-token gate that runs before every route (src/app.js, the
    `validateBearerToken` middleware). The header is split on single spaces,
    exactly as JavaScript's `split(' ')` does, and the element at index 1 is
    compared with the configured secret. Both the secret (an environment
    variable that may be unset) and that element (which is `undefined` when
    the header holds no space) are optional, so the comparison of two
    missing values, which JavaScript treats as equal, is part of the model. */
module Auth {
  import opened Wrappers

  const Space: char := ' '

  /** The position of the first occurrence of `c` in `s`, if any. */
  function IndexOf(s: string, c: char): (r: Option<nat>)
    ensures r.None? <==> c !in s
    ensures r.Some? ==> r.value < |s| && s[r.value] == c && c !in s[..r.value]
  {
    if |s| == 0 then None
    else if s[0] == c then Some(0)
    else
      match IndexOf(s[1..], c)
      case None =>
        assert s == [s[0]] + s[1..];
        None
      case Some(i) =>
        assert s[..i + 1] == [s[0]] + s[1..][..i];
        Some(i + 1)
  }

  /** Any position holding the first `c` is the one `IndexOf` finds. */
  lemma IndexOfUnique(s: string, c: char, k: nat)
    requires k < |s| && s[k] == c && c !in s[..k]
    ensures IndexOf(s, c) == Some(k)
  {
  }

  /** In `scheme + " " + rest` with a space-free scheme, the first space is
      the one after the scheme, and what follows it is `rest`. */
  lemma FirstSpaceAfter(scheme: string, rest: string)
    requires Space !in scheme
    ensures IndexOf(scheme + [Space] + rest, Space) == Some(|scheme|)
    ensures (scheme + [Space] + rest)[|scheme| + 1..] == rest
  {
    var h := scheme + [Space] + rest;
    assert h[..|scheme|] == scheme;
    IndexOfUnique(h, Space, |scheme|);
  }

  /** JavaScript's `String.prototype.split` with a one-character separator:
      the maximal separator-free pieces between occurrences of `sep`,
      including empty ones at either end or between adjacent separators. */
  function Split(s: string, sep: char): (parts: seq<string>)
    ensures |parts| >= 1
    ensures forall k :: 0 <= k < |parts| ==> sep !in parts[k]
    decreases |s|
  {
    match IndexOf(s, sep)
    case None => [s]
    case Some(i) => [s[..i]] + Split(s[i + 1..], sep)
  }

  /** The inverse of `Split`: the pieces glued back with the separator. */
  function Join(parts: seq<string>, sep: char): (s: string)
    requires |parts| >= 1
  {
    if |parts| == 1 then parts[0] else parts[0] + [sep] + Join(parts[1..], sep)
  }

  /** Splitting loses nothing: joining the pieces gives back the header. */
  lemma {:induction false} JoinSplit(s: string, sep: char)
    ensures Join(Split(s, sep), sep) == s
    decreases |s|
  {
    match IndexOf(s, sep)
    case None =>
    case Some(i) =>
      var rest := s[i + 1..];
      var tail := Split(rest, sep);
      JoinSplit(rest, sep);
      var parts := [s[..i]] + tail;
      assert Split(s, sep) == parts;
      assert parts[0] == s[..i] && parts[1..] == tail;
      assert Join(parts, sep) == s[..i] + [sep] + rest;
      assert s == s[..i] + [sep] + rest;
  }

  /** Splitting a join of separator-free pieces gives back those pieces. */
  lemma {:induction false} SplitJoin(parts: seq<string>, sep: char)
    requires |parts| >= 1
    requires forall k :: 0 <= k < |parts| ==> sep !in parts[k]
    ensures Split(Join(parts, sep), sep) == parts
    decreases |parts|
  {
    if |parts| > 1 {
      var tail := Join(parts[1..], sep);
      var s := parts[0] + [sep] + tail;
      assert s[..|parts[0]|] == parts[0];
      IndexOfUnique(s, sep, |parts[0]|);
      assert s[|parts[0]| + 1..] == tail;
      SplitJoin(parts[1..], sep);
      assert parts == [parts[0]] + parts[1..];
    }
  }

  /** The element at index `k` of the split header, or `None` for
      JavaScript's `undefined` past the end of the array. */
  function Segment(s: string, k: nat): (r: Option<string>) {
    var parts := Split(s, Space);
    if k < |parts| then Some(parts[k]) else None
  }

  /** A direct description of `split(' ')[1]`: the text after the first space
      and up to the next space or the end; nothing when there is no space. */
  function SecondSegment(h: string): (r: Option<string>) {
    match IndexOf(h, Space)
    case None => None
    case Some(i) =>
      var rest := h[i + 1..];
      match IndexOf(rest, Space)
      case None => Some(rest)
      case Some(j) => Some(rest[..j])
  }

  /** Index 1 of the split is the direct description above. */
  lemma SegmentOneIsSecondSegment(h: string)
    ensures Segment(h, 1) == SecondSegment(h)
  {
    match IndexOf(h, Space)
    case None =>
    case Some(i) =>
      var rest := h[i + 1..];
      assert Split(h, Space) == [h[..i]] + Split(rest, Space);
      assert Split(h, Space)[1] == Split(rest, Space)[0];
  }

  /** The gate: the header must be present and non-empty (an empty string is
      falsy), and its second space-separated segment must equal the secret,
      where a missing segment equals a missing secret. The contract says
      which headers pass in terms of the direct description of that segment. */
  function Authorized(secret: Option<string>, header: Option<string>): (ok: bool)
    ensures ok <==> header.Some? && header.value != "" && SecondSegment(header.value) == secret
  {
    if header.Some? then
      SegmentOneIsSecondSegment(header.value);
      header.value != "" && Segment(header.value, 1) == secret
    else
      false
  }

  /** The well-formed `<scheme> <token>` header with the configured token
      passes, whatever the scheme. */
  lemma WellFormedHeaderPasses(scheme: string, token: string)
    requires Space !in scheme && Space !in token
    ensures Authorized(Some(token), Some(scheme + [Space] + token))
  {
    FirstSpaceAfter(scheme, token);
    SegmentOneIsSecondSegment(scheme + [Space] + token);
  }

  /** After a space-free scheme and a space, the second segment is the
      first piece of whatever follows. */
  lemma SecondSegmentAfterScheme(scheme: string, rest: string)
    requires Space !in scheme
    ensures SecondSegment(scheme + [Space] + rest) == Some(Split(rest, Space)[0])
  {
    FirstSpaceAfter(scheme, rest);
  }

  /** Trailing segments after the token are ignored as well. */
  lemma TrailingSegmentsIgnored(scheme: string, token: string, extra: string)
    requires Space !in scheme && Space !in token
    ensures Authorized(Some(token), Some(scheme + [Space] + token + [Space] + extra))
  {
    var rest := token + [Space] + extra;
    var h := scheme + [Space] + token + [Space] + extra;
    assert h == scheme + [Space] + rest;
    SecondSegmentAfterScheme(scheme, rest);
    FirstSpaceAfter(token, extra);
    assert rest[..|token|] == token;
    SegmentOneIsSecondSegment(h);
  }

  /** The first (scheme) segment never matters: replacing it by any other
      space-free text leaves the verdict unchanged. */
  lemma SchemeIgnored(secret: Option<string>, scheme1: string, scheme2: string, rest: string)
    requires Space !in scheme1 && Space !in scheme2
    ensures Authorized(secret, Some(scheme1 + [Space] + rest))
        <==> Authorized(secret, Some(scheme2 + [Space] + rest))
  {
    FirstSpaceAfter(scheme1, rest);
    FirstSpaceAfter(scheme2, rest);
    SegmentOneIsSecondSegment(scheme1 + [Space] + rest);
    SegmentOneIsSecondSegment(scheme2 + [Space] + rest);
  }

  /** With the secret unset, exactly the non-empty headers holding no space
      pass: their missing second segment equals the missing secret. */
  lemma UnsetSecretAdmitsSpacelessHeaders(h: string)
    ensures Authorized(None, Some(h)) <==> h != "" && Space !in h
  {
  }

  /** With the secret set, a header without a space never passes. */
  lemma SetSecretNeedsSpace(secret: string, h: string)
    requires Authorized(Some(secret), Some(h))
    ensures Space in h
  {
  }
}

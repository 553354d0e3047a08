/** `Email.forwarded_from_address`: the first match of the regular expression
    `From: <(\S+@\S+)>` in a snippet, or "" when there is none.

    A match starts at a position `p` where the literal marker `From: <` stands;
    its group is a run of non-whitespace characters that holds an `@` with at
    least one character on each side and is directly followed by `>`. The
    regular-expression engine takes the leftmost `p` that has a match; both
    `\S+` are greedy, so of the possible groups at `p` it takes the longest,
    which is the one ending at the last `>` of the non-whitespace run. The
    functions below compute that match; their contracts state it in those
    terms. */
module ForwardedFrom {
  import opened Wrappers

  /** The literal text in front of the group. */
  const Marker: string := "From: <"

  /** Python's `\s` on `str` patterns: the characters `str.isspace()` accepts. */
  predicate IsSpace(c: char)
  {
    c == ' ' || c == '\t' || c == '\n' || c == '\r' || c == '\U{0B}' || c == '\U{0C}' ||
    ('\U{1C}' <= c <= '\U{1F}') || c == '\U{85}' || c == '\U{A0}' || c == '\U{1680}' ||
    ('\U{2000}' <= c <= '\U{200A}') || c == '\U{2028}' || c == '\U{2029}' ||
    c == '\U{202F}' || c == '\U{205F}' || c == '\U{3000}'
  }

  /** `s[p..]` matches the pattern with the group `s[p + |Marker|..e]`. */
  ghost predicate Capture(s: string, p: int, e: int)
  {
    0 <= p && p + |Marker| <= e < |s| &&
    s[p..p + |Marker|] == Marker &&
    s[e] == '>' &&
    (forall k :: p + |Marker| <= k < e ==> !IsSpace(s[k])) &&
    (exists a :: p + |Marker| < a < e - 1 && s[a] == '@')
  }

  /** The snippet contains at least one match. */
  ghost predicate HasMatch(s: string)
  {
    exists p, e :: Capture(s, p, e)
  }

  /** `(p, e)` is the match the engine reports first when it searches from
      `from`: no match starts in `[from, p)`, and `e` ends the longest group at `p`. */
  ghost predicate IsFirstCapture(s: string, from: int, p: int, e: int)
  {
    from <= p && Capture(s, p, e) &&
    (forall e' :: Capture(s, p, e') ==> e' <= e) &&
    (forall q, e' :: from <= q < p ==> !Capture(s, q, e'))
  }

  /** A whitespace-free text with an `@` that has text on both sides. */
  ghost predicate IsAddressLike(r: string)
  {
    (forall k :: 0 <= k < |r| ==> !IsSpace(r[k])) &&
    (exists a :: 0 < a < |r| - 1 && r[a] == '@')
  }

  ghost predicate OccursAt(t: string, s: string, i: int)
  {
    0 <= i && i + |t| <= |s| && s[i..i + |t|] == t
  }

  /** The first index at or after `i` that holds whitespace, or `|s|`. */
  function RunEnd(s: string, i: nat): (j: nat)
    requires i <= |s|
    ensures i <= j <= |s|
    ensures forall k :: i <= k < j ==> !IsSpace(s[k])
    ensures j < |s| ==> IsSpace(s[j])
    decreases |s| - i
  {
    if i == |s| || IsSpace(s[i]) then i else RunEnd(s, i + 1)
  }

  /** The last index in `[lo, hi)` that holds `c`, if any. */
  function LastIndexOf(s: string, c: char, lo: int, hi: int): (k: Option<nat>)
    requires 0 <= lo && hi <= |s|
    ensures k.Some? ==> lo <= k.value < hi && s[k.value] == c
    ensures k.Some? ==> forall m :: k.value < m < hi ==> s[m] != c
    ensures k.None? ==> forall m :: lo <= m < hi ==> s[m] != c
    decreases hi - lo
  {
    if hi <= lo then None
    else if s[hi - 1] == c then Some(hi - 1)
    else LastIndexOf(s, c, lo, hi - 1)
  }

  /** The end of the longest group of a match starting at `p`, if one starts there. */
  function LongestCaptureAt(s: string, p: nat): (m: Option<nat>)
    requires p <= |s|
    ensures m.Some? ==> Capture(s, p, m.value) && forall e :: Capture(s, p, e) ==> e <= m.value
    ensures m.None? ==> forall e :: !Capture(s, p, e)
  {
    if p + |Marker| <= |s| && s[p..p + |Marker|] == Marker then
      var start := p + |Marker|;
      var w := RunEnd(s, start);
      assert forall e :: Capture(s, p, e) ==> e < w;
      match LastIndexOf(s, '>', start, w)
      case None => None
      case Some(g) =>
        match LastIndexOf(s, '@', start + 1, g - 1)
        case None => None
        case Some(a) => assert Capture(s, p, g); Some(g)
    else None
  }

  /** The first match found by a search from position `from`. */
  function FirstCapture(s: string, from: nat): (m: Option<(nat, nat)>)
    requires from <= |s|
    ensures m.Some? ==> IsFirstCapture(s, from, m.value.0, m.value.1)
    ensures m.None? ==> forall q, e :: from <= q ==> !Capture(s, q, e)
    decreases |s| - from
  {
    match LongestCaptureAt(s, from)
    case Some(e) => Some((from, e))
    case None => if from == |s| then None else FirstCapture(s, from + 1)
  }

  /** `forwarded_from_address`: the group of the first match, or "" when the
      snippet has none. */
  function FirstForwardedAddress(snippet: string): (r: string)
    ensures r == "" <==> !HasMatch(snippet)
    ensures r != "" ==> exists p, e :: IsFirstCapture(snippet, 0, p, e) && r == snippet[p + |Marker|..e]
  {
    match FirstCapture(snippet, 0)
    case None => ""
    case Some((p, e)) => snippet[p + |Marker|..e]
  }

  /** The group of any match is address-like and stands between the marker and `>`. */
  lemma CaptureShape(s: string, p: int, e: int)
    requires Capture(s, p, e)
    ensures IsAddressLike(s[p + |Marker|..e])
    ensures OccursAt(Marker + s[p + |Marker|..e] + ">", s, p)
  {
    var start := p + |Marker|;
    var r := s[start..e];
    var a :| start < a < e - 1 && s[a] == '@';
    assert r[a - start] == '@';
    assert s[p..e + 1] == s[p..start] + r + s[e..e + 1];
  }

  /** A non-empty result is address-like and stands in the snippet as
      `From: <` + result + `>`. */
  lemma ForwardedAddressShape(snippet: string)
    ensures var r := FirstForwardedAddress(snippet);
      r != "" ==> IsAddressLike(r) && exists i :: OccursAt(Marker + r + ">", snippet, i)
  {
    if FirstForwardedAddress(snippet) != "" {
      var (p, e) := FirstCapture(snippet, 0).value;
      CaptureShape(snippet, p, e);
    }
  }

  /** Where each piece of `pre + Marker + addr + ">" + post` stands. */
  lemma MarkerLayout(s: string, pre: string, addr: string, post: string)
    requires s == pre + Marker + addr + ">" + post
    ensures |s| == |pre| + |Marker| + |addr| + 1 + |post|
    ensures forall k :: 0 <= k < |pre| ==> s[k] == pre[k]
    ensures forall k :: 0 <= k < |Marker| ==> s[|pre| + k] == Marker[k]
    ensures forall k :: 0 <= k < |addr| ==> s[|pre| + |Marker| + k] == addr[k]
    ensures s[|pre| + |Marker| + |addr|] == '>'
    ensures forall k :: 0 <= k < |post| ==> s[|pre| + |Marker| + |addr| + 1 + k] == post[k]
  {
  }

  /** Every match has the `<` of the marker six characters after its start. */
  lemma MarkerEndsInAngle(s: string, p: int, e: int)
    ensures Capture(s, p, e) ==> s[p + 6] == '<'
  {
    if Capture(s, p, e) {
      assert s[p..p + |Marker|][6] == Marker[6];
    }
  }

  /** No match starts inside `pre` when `pre` holds no `<`. */
  lemma NoCaptureBeforeMarker(s: string, pre: string, addr: string, post: string)
    requires s == pre + Marker + addr + ">" + post
    requires '<' !in pre
    ensures forall q, e :: 0 <= q < |pre| ==> !Capture(s, q, e)
  {
    MarkerLayout(s, pre, addr, post);
    forall k | 6 <= k < |pre| + 6 ensures s[k] != '<' {
      if k < |pre| {
        assert s[k] == pre[k];
      } else {
        assert s[|pre| + (k - |pre|)] == Marker[k - |pre|];
      }
    }
    forall q, e | 0 <= q < |pre| ensures !Capture(s, q, e) {
      MarkerEndsInAngle(s, q, e);
    }
  }

  /** A match at the marker ends at the `>` after `addr`, and none there ends
      later: `addr` may itself hold `>`, but the run stops at `post`. */
  lemma CaptureAtMarker(s: string, pre: string, addr: string, post: string)
    requires s == pre + Marker + addr + ">" + post
    requires IsAddressLike(addr)
    requires post == [] || IsSpace(post[0])
    ensures Capture(s, |pre|, |pre| + |Marker| + |addr|)
    ensures forall e :: Capture(s, |pre|, e) ==> e <= |pre| + |Marker| + |addr|
  {
    MarkerLayout(s, pre, addr, post);
    var p, start, e := |pre|, |pre| + |Marker|, |pre| + |Marker| + |addr|;
    assert s[p..start] == Marker;
    var a :| 0 < a < |addr| - 1 && addr[a] == '@';
    assert s[start + a] == '@';
    assert Capture(s, p, e);
  }

  /** A snippet that holds a well-formed marker, `From: <addr>` followed by
      whitespace or the end, with no `<` before it, yields `addr` (which may
      itself hold `>`: the greedy group still ends at the last one). */
  lemma ForwardedOfMarker(pre: string, addr: string, post: string)
    requires '<' !in pre
    requires IsAddressLike(addr)
    requires post == [] || IsSpace(post[0])
    ensures FirstForwardedAddress(pre + Marker + addr + ">" + post) == addr
  {
    var s := pre + Marker + addr + ">" + post;
    var e := |pre| + |Marker| + |addr|;
    NoCaptureBeforeMarker(s, pre, addr, post);
    CaptureAtMarker(s, pre, addr, post);
    var (p', e') := FirstCapture(s, 0).value;
    assert p' == |pre|;
    assert e' == e;
    MarkerLayout(s, pre, addr, post);
    assert s[|pre| + |Marker|..e] == addr;
  }

  /** A `>` inside the group does not end it early: the group runs to the last `>`. */
  lemma GreedyExample(snippet: string)
    requires snippet == "From: <a@b>c> x"
    ensures FirstForwardedAddress(snippet) == "a@b>c"
  {
    var addr := "a@b>c";
    assert addr[1] == '@';
    assert snippet == "" + Marker + addr + ">" + " x";
    ForwardedOfMarker("", addr, " x");
  }

  /** A forwarded marker inside a reply snippet yields the address it encloses. */
  lemma ForwardedExample(snippet: string)
    requires snippet == "On Mon, Bob wrote: From: <alice@example.com> wrote:"
    ensures FirstForwardedAddress(snippet) == "alice@example.com"
  {
    var pre, addr, post := "On Mon, Bob wrote: ", "alice@example.com", " wrote:";
    assert addr[5] == '@';
    assert snippet == pre + Marker + addr + ">" + post;
    ForwardedOfMarker(pre, addr, post);
  }

  /** A snippet in which the marker `From: <` occurs nowhere yields "". */
  lemma NoMarkerGivesEmpty(snippet: string)
    requires forall i :: !OccursAt(Marker, snippet, i)
    ensures FirstForwardedAddress(snippet) == ""
  {
    forall p, e | Capture(snippet, p, e) ensures false {
      assert OccursAt(Marker, snippet, p);
    }
  }
}

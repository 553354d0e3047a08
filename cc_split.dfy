/** The CC split inline in `get_emails`: the raw `Cc` header value becomes
    the tuple of its comma-separated pieces, untrimmed; an empty or missing
    header becomes the empty tuple. */
module CcSplit {
  import opened Messages
  import HeaderLookup

  /** Python's `s.split(",")`: the pieces between commas, empty pieces kept. */
  function SplitOnComma(s: string): (pieces: seq<string>)
    ensures |pieces| >= 1
  {
    if s == [] then [""]
    else
      var rest := SplitOnComma(s[1..]);
      if s[0] == ',' then [""] + rest
      else [[s[0]] + rest[0]] + rest[1..]
  }

  /** `",".join(pieces)`. */
  function JoinWithComma(pieces: seq<string>): (s: string)
    requires |pieces| >= 1
  {
    if |pieces| == 1 then pieces[0]
    else pieces[0] + "," + JoinWithComma(pieces[1..])
  }

  ghost predicate CommaFree(pieces: seq<string>)
  {
    forall k :: 0 <= k < |pieces| ==> ',' !in pieces[k]
  }

  /** One more piece than there are commas. */
  lemma {:induction false} SplitCount(s: string)
    ensures |SplitOnComma(s)| == multiset(s)[','] + 1
  {
    if s != [] {
      SplitCount(s[1..]);
      assert s == [s[0]] + s[1..];
      assert multiset(s) == multiset([s[0]]) + multiset(s[1..]);
    }
  }

  /** No piece holds a comma. */
  lemma {:induction false} SplitCommaFree(s: string)
    ensures CommaFree(SplitOnComma(s))
  {
    if s != [] {
      SplitCommaFree(s[1..]);
      var rest := SplitOnComma(s[1..]);
      if s[0] != ',' {
        assert ',' !in rest[0];
        var pieces := SplitOnComma(s);
        forall k | 0 <= k < |pieces| ensures ',' !in pieces[k] {
          if k > 0 { assert pieces[k] == rest[k]; }
        }
      }
    }
  }

  /** Joining the pieces with commas gives back the split text. */
  lemma {:induction false} JoinSplit(s: string)
    ensures JoinWithComma(SplitOnComma(s)) == s
  {
    if s != [] {
      JoinSplit(s[1..]);
      var rest := SplitOnComma(s[1..]);
      if s[0] == ',' {
        assert ([""] + rest)[1..] == rest;
      } else {
        var pieces := [[s[0]] + rest[0]] + rest[1..];
        if |rest| > 1 {
          assert pieces[1..] == rest[1..];
          assert JoinWithComma(rest) == rest[0] + "," + JoinWithComma(rest[1..]);
        }
        assert JoinWithComma(pieces) == [s[0]] + JoinWithComma(rest);
        assert s == [s[0]] + s[1..];
      }
    }
  }

  /** Text without a comma splits into itself. */
  lemma {:induction false} SplitWithoutComma(p: string)
    requires ',' !in p
    ensures SplitOnComma(p) == [p]
  {
    if p != [] {
      SplitWithoutComma(p[1..]);
      assert p == [p[0]] + p[1..];
    }
  }

  /** A comma-free first piece is split off at the first comma. */
  lemma {:induction false} SplitAfterPiece(p: string, t: string)
    requires ',' !in p
    ensures SplitOnComma(p + "," + t) == [p] + SplitOnComma(t)
  {
    if p == [] {
      assert p + "," + t == [','] + t;
      assert ([','] + t)[1..] == t;
    } else {
      SplitAfterPiece(p[1..], t);
      assert (p + "," + t)[1..] == p[1..] + "," + t;
      assert p == [p[0]] + p[1..];
    }
  }

  /** Splitting undoes joining comma-free pieces. */
  lemma {:induction false} SplitJoin(pieces: seq<string>)
    requires |pieces| >= 1 && CommaFree(pieces)
    ensures SplitOnComma(JoinWithComma(pieces)) == pieces
  {
    if |pieces| == 1 {
      assert ',' !in pieces[0];
      SplitWithoutComma(pieces[0]);
    } else {
      assert ',' !in pieces[0];
      assert CommaFree(pieces[1..]) by {
        forall k | 0 <= k < |pieces| - 1 ensures ',' !in pieces[1..][k] {
          assert pieces[1..][k] == pieces[k + 1];
        }
      }
      SplitJoin(pieces[1..]);
      SplitAfterPiece(pieces[0], JoinWithComma(pieces[1..]));
      assert pieces == [pieces[0]] + pieces[1..];
    }
  }

  /** Lines 125-128 of `get_emails`: an empty value gives no addresses;
      otherwise one untrimmed piece per comma-separated field, which join back
      to the raw value. */
  function CcAddresses(raw: string): (cc: seq<string>)
    ensures raw == "" ==> cc == []
    ensures raw != "" ==> |cc| == multiset(raw)[','] + 1
    ensures raw != "" ==> CommaFree(cc) && JoinWithComma(cc) == raw
  {
    if raw == "" then []
    else
      SplitCount(raw);
      SplitCommaFree(raw);
      JoinSplit(raw);
      SplitOnComma(raw)
  }

  /** The `cc_addresses` field read from a message's headers: empty when
      the message has no `Cc` header or its value is empty; otherwise the
      untrimmed comma-separated pieces of that value. */
  function CcAddressesOf(headers: seq<Header>): (cc: seq<string>)
    ensures !HeaderLookup.HasHeader(headers, "Cc") ==> cc == []
    ensures var raw := HeaderLookup.GetFromHeaders(headers, "Cc");
      raw == "" ==> cc == []
    ensures var raw := HeaderLookup.GetFromHeaders(headers, "Cc");
      raw != "" ==> |cc| == multiset(raw)[','] + 1 && CommaFree(cc) && JoinWithComma(cc) == raw
  {
    CcAddresses(HeaderLookup.GetFromHeaders(headers, "Cc"))
  }

  /** Spaces after commas are kept and empty fields stay as empty pieces. */
  lemma CcExample(raw: string)
    requires raw == "a@x.com, b@y.com,,"
    ensures CcAddresses(raw) == ["a@x.com", " b@y.com", "", ""]
  {
    var a, b, c, d := "a@x.com", " b@y.com", "", "";
    var pieces := [a, b, c, d];
    assert CommaFree(pieces) by {
      assert ',' !in a && ',' !in b;
    }
    assert pieces[1..] == [b, c, d] && [b, c, d][1..] == [c, d] && [c, d][1..] == [d];
    assert JoinWithComma([c, d]) == c + "," + d;
    assert JoinWithComma([b, c, d]) == b + "," + (c + "," + d);
    assert JoinWithComma(pieces) == a + "," + (b + "," + (c + "," + d));
    assert a + "," + (b + "," + (c + "," + d)) == raw;
    SplitJoin(pieces);
  }
}

/** `get_from_headers`: the value of the first header with a given name. */
module HeaderLookup {
  import opened Messages

  /** Index `i` holds the first header whose name is exactly `name`. */
  ghost predicate IsFirstNamed(headers: seq<Header>, name: string, i: int)
  {
    0 <= i < |headers| && headers[i].name == name &&
    forall j :: 0 <= j < i ==> headers[j].name != name
  }

  /** Some header carries exactly this name (names compare case-sensitively). */
  ghost predicate HasHeader(headers: seq<Header>, name: string)
  {
    exists i :: 0 <= i < |headers| && headers[i].name == name
  }

  /** Scans the headers in order and returns the value of the first one whose
      name equals `name`; "" when there is none. */
  function GetFromHeaders(headers: seq<Header>, name: string): (r: string)
    ensures !HasHeader(headers, name) ==> r == ""
    ensures forall i :: IsFirstNamed(headers, name, i) ==> r == headers[i].value
  {
    if headers == [] then ""
    else if headers[0].name == name then headers[0].value
    else
      assert forall i :: IsFirstNamed(headers, name, i) ==> IsFirstNamed(headers[1..], name, i - 1);
      GetFromHeaders(headers[1..], name)
  }

  /** When a header of that name exists, the first one decides the result. */
  lemma {:induction false} FirstNamedExists(headers: seq<Header>, name: string) returns (i: nat)
    requires HasHeader(headers, name)
    ensures IsFirstNamed(headers, name, i)
    ensures GetFromHeaders(headers, name) == headers[i].value
  {
    if headers[0].name == name {
      i := 0;
    } else {
      assert HasHeader(headers[1..], name) by {
        var k :| 0 <= k < |headers| && headers[k].name == name;
        assert headers[1..][k - 1].name == name;
      }
      var j := FirstNamedExists(headers[1..], name);
      i := j + 1;
    }
  }

  /** Headers after the first match are ignored: appending more headers,
      duplicates included, does not change a lookup that already succeeds. */
  lemma {:induction false} LaterDuplicatesIgnored(headers: seq<Header>, later: seq<Header>, name: string)
    requires HasHeader(headers, name)
    ensures GetFromHeaders(headers + later, name) == GetFromHeaders(headers, name)
  {
    var i := FirstNamedExists(headers, name);
    assert IsFirstNamed(headers + later, name, i) by {
      assert forall j :: 0 <= j <= i ==> (headers + later)[j] == headers[j];
    }
  }

  /** A missing name never fails, and a lookup can only come back empty when
      the name is missing or its first header has an empty value. */
  lemma {:induction false} EmptyResultIff(headers: seq<Header>, name: string)
    ensures GetFromHeaders(headers, name) == "" <==>
      (!HasHeader(headers, name) ||
       exists i :: IsFirstNamed(headers, name, i) && headers[i].value == "")
  {
    if HasHeader(headers, name) {
      var i := FirstNamedExists(headers, name);
    }
  }

  /** Matching is exact string equality: a header named "cc" is not a "Cc" header. */
  lemma CaseSensitiveMatch(value: string)
    ensures GetFromHeaders([Header("cc", value)], "Cc") == ""
    ensures GetFromHeaders([Header("cc", value), Header("Cc", "x")], "Cc") == "x"
  {
  }
}

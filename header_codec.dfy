/** The text encoding of a saved request's headers in the `requests.headers`
    column: a JSON object whose members are string keys and string values.

    The encoder writes what `json.Marshal` writes for a `map[string]string`
    restricted to the escapes of the quote and the backslash (`\"` and
    `\\`): members in ascending key order, no whitespace. Control
    characters, which JSON also requires escaped, are written as they are.
    The decoder reads that same object syntax, the members in any order, a repeated key
    keeping its last value as `json.Unmarshal` does; anything else is
    malformed. The empty string decodes to the empty map without parsing. */
module HeaderCodec {
  import opened Common
  import StringOrder

  type Headers = map<string, string>

  const Malformed := "invalid JSON object of header strings"

  // ---------------------------------------------------------------- encoder

  function Escape(s: string): string
  {
    if s == [] then []
    else (if s[0] == '"' || s[0] == '\\' then ['\\', s[0]] else [s[0]]) + Escape(s[1..])
  }

  function Quote(s: string): string
  {
    "\"" + Escape(s) + "\""
  }

  /** `"k":"v"` for each key in `keys`, separated by commas. */
  function Members(h: Headers, keys: seq<string>): string
    requires forall i :: 0 <= i < |keys| ==> keys[i] in h
  {
    if keys == [] then ""
    else if |keys| == 1 then Quote(keys[0]) + ":" + Quote(h[keys[0]])
    else Quote(keys[0]) + ":" + Quote(h[keys[0]]) + "," + Members(h, keys[1..])
  }

  /** The object whose members are those of `keys`, in that order. */
  function Encode(h: Headers, keys: seq<string>): string
    requires forall i :: 0 <= i < |keys| ==> keys[i] in h
  {
    "{" + Members(h, keys) + "}"
  }

  /** serializeHeaders: an absent or empty map is written `{}`. */
  function SerializeHeaders(h: Headers): (s: string)
    ensures h == map[] <==> s == "{}"
    ensures |s| >= 2 && s[0] == '{' && s[|s| - 1] == '}'
  {
    var keys := StringOrder.SortedSet(h.Keys);
    Braced(Members(h, keys));
    if h != map[] then
      var k :| k in h;
      assert k in keys;
      MembersNonEmpty(h, keys);
      Encode(h, keys)
    else
      Encode(h, keys)
  }

  /** The shape of `{...}` around any member text. */
  lemma Braced(m: string)
    ensures var s := "{" + m + "}";
      && |s| >= 2 && s[0] == '{' && s[|s| - 1] == '}' && s[1..] == m + "}"
      && (s == "{}" <==> m == "")
  {
    var s := "{" + m + "}";
    if m != "" {
      assert |s| > 2;
    }
  }

  /** At least one key means at least one member to write. */
  lemma MembersNonEmpty(h: Headers, keys: seq<string>)
    requires keys != [] && forall i :: 0 <= i < |keys| ==> keys[i] in h
    ensures Members(h, keys) != ""
  {
    assert Members(h, keys)[0] == '"';
  }

  // ---------------------------------------------------------------- decoder

  /** Reads the rest of a string literal whose opening quote is already
      consumed; returns the decoded text and what follows the closing quote. */
  function ParseStringBody(s: string): (r: Option<(string, string)>)
    ensures r.Some? ==> |r.value.1| < |s|
    decreases |s|
  {
    if s == [] then None
    else if s[0] == '"' then Some(("", s[1..]))
    else if s[0] == '\\' then
      if |s| >= 2 && (s[1] == '"' || s[1] == '\\') then
        match ParseStringBody(s[2..])
        case None => None
        case Some(p) => Some(([s[1]] + p.0, p.1))
      else None
    else
      match ParseStringBody(s[1..])
      case None => None
      case Some(p) => Some(([s[0]] + p.0, p.1))
  }

  function ParseString(s: string): (r: Option<(string, string)>)
    ensures r.Some? ==> |r.value.1| < |s|
  {
    if s != [] && s[0] == '"' then ParseStringBody(s[1..]) else None
  }

  /** Reads `"k":"v"` members up to and including the closing brace, which
      must end the text; each member is stored into `acc`, later ones
      overwriting earlier ones. */
  function ParseMembers(s: string, acc: Headers): (r: Result<Headers>)
    ensures r.Err? ==> r.error == Malformed
    decreases |s|
  {
    match ParseString(s)
    case None => Err(Malformed)
    case Some(kr) =>
      var r1 := kr.1;
      if r1 == [] || r1[0] != ':' then Err(Malformed)
      else
        match ParseString(r1[1..])
        case None => Err(Malformed)
        case Some(vr) =>
          var r2 := vr.1;
          if r2 == "}" then Ok(acc[kr.0 := vr.0])
          else if r2 != [] && r2[0] == ',' then ParseMembers(r2[1..], acc[kr.0 := vr.0])
          else Err(Malformed)
  }

  /** deserializeHeaders */
  function DeserializeHeaders(s: string): (r: Result<Headers>)
    ensures s == "" ==> r == Ok(map[])
    ensures s != "" && s[0] != '{' ==> r == Err(Malformed)
    ensures r.Err? ==> r.error == Malformed
  {
    if s == "" then Ok(map[])
    else if s == "{}" then Ok(map[])
    else if s[0] == '{' then ParseMembers(s[1..], map[])
    else Err(Malformed)
  }

  // ---------------------------------------------------------------- round trip

  lemma {:induction false} ParseEscaped(x: string, rest: string)
    ensures ParseStringBody(Escape(x) + "\"" + rest) == Some((x, rest))
    decreases |x|
  {
    var s := Escape(x) + "\"" + rest;
    if x == [] {
      assert s == "\"" + rest;
    } else {
      var c := x[0];
      ParseEscaped(x[1..], rest);
      var tail := Escape(x[1..]) + "\"" + rest;
      if c == '"' || c == '\\' {
        assert s == ['\\', c] + tail;
        assert s[2..] == tail;
      } else {
        assert s == [c] + tail;
        assert s[1..] == tail;
      }
      assert [c] + x[1..] == x;
    }
  }

  lemma ParseQuoted(x: string, rest: string)
    ensures ParseString(Quote(x) + rest) == Some((x, rest))
  {
    var s := Quote(x) + rest;
    assert s[1..] == Escape(x) + "\"" + rest;
    ParseEscaped(x, rest);
  }

  /** What ParseMembers produces from `acc` and the members for `keys`:
      each key stored in turn, a later one overwriting an earlier one. */
  function Stored(acc: Headers, h: Headers, keys: seq<string>): Headers
    requires forall i :: 0 <= i < |keys| ==> keys[i] in h
    decreases |keys|
  {
    if keys == [] then acc else Stored(acc[keys[0] := h[keys[0]]], h, keys[1..])
  }

  /** Every key of `keys` ends up with its value in `h`; the others keep
      their value in `acc`. */
  lemma {:induction false} StoredPointwise(acc: Headers, h: Headers, keys: seq<string>)
    requires forall i :: 0 <= i < |keys| ==> keys[i] in h
    ensures forall k :: k in Stored(acc, h, keys) <==> k in acc || k in keys
    ensures forall k :: k in keys ==> Stored(acc, h, keys)[k] == h[k]
    ensures forall k :: k !in keys && k in acc ==> Stored(acc, h, keys)[k] == acc[k]
    decreases |keys|
  {
    if keys != [] {
      var acc' := acc[keys[0] := h[keys[0]]];
      StoredPointwise(acc', h, keys[1..]);
      assert forall k :: k in keys <==> k == keys[0] || k in keys[1..];
    }
  }

  /** One member followed by `tail`: the member is stored and parsing goes on
      with what follows it. */
  lemma ParseOneMember(k: string, v: string, tail: string, acc: Headers)
    requires tail == "}" || (tail != [] && tail[0] == ',')
    ensures ParseMembers(Quote(k) + ":" + Quote(v) + tail, acc)
         == if tail == "}" then Ok(acc[k := v]) else ParseMembers(tail[1..], acc[k := v])
  {
    var s := Quote(k) + ":" + Quote(v) + tail;
    var r1 := ":" + Quote(v) + tail;
    assert s == Quote(k) + r1;
    ParseQuoted(k, r1);
    assert r1[1..] == Quote(v) + tail;
    ParseQuoted(v, tail);
  }

  lemma {:induction false} ParseMembersOfEncoding(h: Headers, keys: seq<string>, acc: Headers)
    requires keys != []
    requires forall i :: 0 <= i < |keys| ==> keys[i] in h
    ensures ParseMembers(Members(h, keys) + "}", acc) == Ok(Stored(acc, h, keys))
    decreases |keys|
  {
    if |keys| == 1 {
      ParseLastMember(h, keys, acc);
    } else {
      ParseMembersOfEncoding(h, keys[1..], acc[keys[0] := h[keys[0]]]);
      ParseNextMember(h, keys, acc);
    }
  }

  lemma ParseLastMember(h: Headers, keys: seq<string>, acc: Headers)
    requires |keys| == 1 && keys[0] in h
    ensures ParseMembers(Members(h, keys) + "}", acc) == Ok(Stored(acc, h, keys))
  {
    var k := keys[0];
    ParseOneMember(k, h[k], "}", acc);
  }

  /** One step of the induction: the first member is read, and the rest
      parses as the shorter encoding does. */
  lemma ParseNextMember(h: Headers, keys: seq<string>, acc: Headers)
    requires |keys| > 1 && forall i :: 0 <= i < |keys| ==> keys[i] in h
    requires ParseMembers(Members(h, keys[1..]) + "}", acc[keys[0] := h[keys[0]]])
          == Ok(Stored(acc[keys[0] := h[keys[0]]], h, keys[1..]))
    ensures ParseMembers(Members(h, keys) + "}", acc) == Ok(Stored(acc, h, keys))
  {
    var k, v := keys[0], h[keys[0]];
    var rest := Members(h, keys[1..]) + "}";
    MembersCons(h, keys);
    ParseOneMember(k, v, "," + rest, acc);
  }

  lemma MembersCons(h: Headers, keys: seq<string>)
    requires |keys| > 1 && forall i :: 0 <= i < |keys| ==> keys[i] in h
    ensures Members(h, keys) + "}"
         == Quote(keys[0]) + ":" + Quote(h[keys[0]]) + ("," + (Members(h, keys[1..]) + "}"))
    ensures ("," + (Members(h, keys[1..]) + "}"))[1..] == Members(h, keys[1..]) + "}"
  {
  }

  /** Reading back what was written gives the same headers. */
  lemma RoundTrip(h: Headers)
    ensures DeserializeHeaders(SerializeHeaders(h)) == Ok(h)
  {
    if h != map[] {
      var keys := SortedKeys(h);
      DecodeEncoding(h, keys);
      StoredAll(h, keys);
    }
  }

  /** A non-empty map is written as the object of its keys in sorted order. */
  lemma SortedKeys(h: Headers) returns (keys: seq<string>)
    requires h != map[]
    ensures keys != [] && forall i :: 0 <= i < |keys| ==> keys[i] in h
    ensures forall k :: k in h ==> k in keys
    ensures SerializeHeaders(h) == Encode(h, keys)
  {
    keys := StringOrder.SortedSet(h.Keys);
    var k :| k in h;
    assert k in keys;
  }

  /** The object of any non-empty key list decodes to its members. */
  lemma DecodeEncoding(h: Headers, keys: seq<string>)
    requires keys != [] && forall i :: 0 <= i < |keys| ==> keys[i] in h
    ensures DeserializeHeaders(Encode(h, keys)) == Ok(Stored(map[], h, keys))
  {
    EncodingShape(h, keys);
    DeserializeObject(Encode(h, keys));
    ParseMembersOfEncoding(h, keys, map[]);
  }

  lemma EncodingShape(h: Headers, keys: seq<string>)
    requires keys != [] && forall i :: 0 <= i < |keys| ==> keys[i] in h
    ensures var s := Encode(h, keys);
      s != "" && s != "{}" && s[0] == '{' && s[1..] == Members(h, keys) + "}"
  {
    MembersNonEmpty(h, keys);
    Braced(Members(h, keys));
  }

  /** Text that opens an object and is not `{}` is read member by member. */
  lemma DeserializeObject(s: string)
    requires s != "" && s != "{}" && s[0] == '{'
    ensures DeserializeHeaders(s) == ParseMembers(s[1..], map[])
  {
  }

  /** Storing every key of `h` into the empty map rebuilds `h`. */
  lemma StoredAll(h: Headers, keys: seq<string>)
    requires forall i :: 0 <= i < |keys| ==> keys[i] in h
    requires forall k :: k in h ==> k in keys
    ensures Stored(map[], h, keys) == h
  {
    StoredPointwise(map[], h, keys);
    var m := Stored(map[], h, keys);
    assert m.Keys == h.Keys;
  }

  /** Two different header maps are never written as the same text. */
  lemma SerializeInjective(h1: Headers, h2: Headers)
    requires SerializeHeaders(h1) == SerializeHeaders(h2)
    ensures h1 == h2
  {
    RoundTrip(h1);
    RoundTrip(h2);
  }

  /** The edge cases the unit tests pin down. */
  lemma EdgeCases()
    ensures SerializeHeaders(map[]) == "{}"
    ensures DeserializeHeaders("") == Ok(map[])
    ensures DeserializeHeaders("{}") == Ok(map[])
    ensures DeserializeHeaders("{invalid json}") == Err(Malformed)
  {
  }
}

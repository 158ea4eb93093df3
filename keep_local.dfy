/** The client side of the local keep-local service: the percent-encoder
    applied to query values, and the URL of the item-list request. The HTTP
    exchange itself is not part of this model. */
module KeepLocal {
  import opened Wrappers
  import opened Text

  newtype byte = x: int | 0 <= x < 256

  // ---------------------------------------------------------------------
  // urlencoding

  /** The bytes copied as they are: letters, digits and `-_.~`, the
      unreserved set of section 2.3 of RFC 3986. */
  predicate IsUnreserved(b: byte) {
    ('A' as byte <= b <= 'Z' as byte) || ('a' as byte <= b <= 'z' as byte) || ('0' as byte <= b <= '9' as byte)
    || b == '-' as byte || b == '_' as byte || b == '.' as byte || b == '~' as byte
  }

  predicate IsUnreservedChar(c: char) {
    ('A' <= c <= 'Z') || ('a' <= c <= 'z') || ('0' <= c <= '9') || c == '-' || c == '_' || c == '.' || c == '~'
  }

  predicate IsUpperHexDigit(c: char) {
    ('0' <= c <= '9') || ('A' <= c <= 'F')
  }

  /** What an encoded value may contain. */
  predicate IsEncodedChar(c: char) {
    IsUnreservedChar(c) || c == '%' || IsUpperHexDigit(c)
  }

  /** `{:X}` of one hex digit. */
  function HexDigit(d: nat): (c: char)
    requires d < 16
    ensures IsUpperHexDigit(c)
  {
    if d < 10 then ('0' as int + d) as char else ('A' as int + d - 10) as char
  }

  /** The value of a hex digit of either case, as a percent-decoder reads it. */
  function HexValue(c: char): (r: Option<nat>)
    ensures r.Some? ==> r.value < 16
  {
    if '0' <= c <= '9' then Some(c as int - '0' as int)
    else if 'A' <= c <= 'F' then Some(c as int - 'A' as int + 10)
    else if 'a' <= c <= 'f' then Some(c as int - 'a' as int + 10)
    else None
  }

  lemma HexValueOfDigit(d: nat)
    requires d < 16
    ensures HexValue(HexDigit(d)) == Some(d)
  {
  }

  /** One byte: itself when unreserved, otherwise `%` and two uppercase hex digits. */
  function EncodeByte(b: byte): (r: string)
    ensures |r| == if IsUnreserved(b) then 1 else 3
    ensures forall i :: 0 <= i < |r| ==> IsEncodedChar(r[i])
  {
    if IsUnreserved(b) then [(b as int) as char]
    else ['%', HexDigit(b as int / 16), HexDigit(b as int % 16)]
  }

  /** How many bytes need a percent escape. */
  function ReservedCount(bs: seq<byte>): nat {
    if bs == [] then 0 else (if IsUnreserved(bs[0]) then 0 else 1) + ReservedCount(bs[1..])
  }

  /** The encoding of a value's UTF-8 bytes: one character per unreserved
      byte, three per other byte, and nothing but unreserved characters,
      `%` and uppercase hex digits. */
  function Encoded(bs: seq<byte>): (r: string)
    ensures |r| == |bs| + 2 * ReservedCount(bs)
    ensures forall i :: 0 <= i < |r| ==> IsEncodedChar(r[i])
  {
    if bs == [] then ""
    else
      var head, rest := EncodeByte(bs[0]), Encoded(bs[1..]);
      assert forall i :: |head| <= i < |head + rest| ==> (head + rest)[i] == rest[i - |head|];
      head + rest
  }

  lemma {:induction false} EncodedAppend(a: seq<byte>, b: seq<byte>)
    ensures Encoded(a + b) == Encoded(a) + Encoded(b)
  {
    if a != [] {
      assert (a + b)[1..] == a[1..] + b;
      EncodedAppend(a[1..], b);
    } else {
      assert a + b == b;
    }
  }

  /** `urlencoding`: the loop over the bytes, pushing onto the result. */
  method UrlEncoding(bs: seq<byte>) returns (result: string)
    ensures result == Encoded(bs)
  {
    result := "";
    for i := 0 to |bs|
      invariant result == Encoded(bs[..i])
    {
      var b := bs[i];
      if IsUnreserved(b) {
        result := result + [(b as int) as char];
      } else {
        result := result + ['%', HexDigit(b as int / 16), HexDigit(b as int % 16)];
      }
      assert bs[..i + 1] == bs[..i] + [b];
      EncodedAppend(bs[..i], [b]);
      assert Encoded([b]) == EncodeByte(b) + Encoded([]);
    }
    assert bs[..|bs|] == bs;
  }

  /** Percent-decoding: `%` and two hex digits give one byte, any other
      character below 256 gives itself; anything else is malformed. */
  function Decode(s: string): Option<seq<byte>>
    decreases |s|
  {
    if s == [] then Some([])
    else if s[0] == '%' then
      if |s| >= 3 && HexValue(s[1]).Some? && HexValue(s[2]).Some? then
        match Decode(s[3..])
        case None => None
        case Some(rest) => Some([(16 * HexValue(s[1]).value + HexValue(s[2]).value) as byte] + rest)
      else None
    else if (s[0] as int) < 256 then
      match Decode(s[1..])
      case None => None
      case Some(rest) => Some([(s[0] as int) as byte] + rest)
    else None
  }

  /** Decoding the encoding gives the bytes back. */
  lemma {:induction false} DecodeEncoded(bs: seq<byte>)
    ensures Decode(Encoded(bs)) == Some(bs)
  {
    if bs != [] {
      var b := bs[0];
      var head, rest := EncodeByte(b), Encoded(bs[1..]);
      var s := head + rest;
      assert Encoded(bs) == s;
      DecodeEncoded(bs[1..]);
      if IsUnreserved(b) {
        assert s[0] == (b as int) as char && s[1..] == rest;
      } else {
        var hi, lo := b as int / 16, b as int % 16;
        HexValueOfDigit(hi);
        HexValueOfDigit(lo);
        assert s[0] == '%' && s[1] == HexDigit(hi) && s[2] == HexDigit(lo) && s[3..] == rest;
        assert (16 * hi + lo) as byte == b;
      }
      assert bs == [b] + bs[1..];
    }
  }

  /** The bytes read as characters. */
  function AsChars(bs: seq<byte>): (r: string)
    ensures |r| == |bs|
  {
    seq(|bs|, i requires 0 <= i < |bs| => (bs[i] as int) as char)
  }

  /** A value made only of unreserved bytes is sent as it is. */
  lemma {:induction false} EncodedUnreserved(bs: seq<byte>)
    requires forall i :: 0 <= i < |bs| ==> IsUnreserved(bs[i])
    ensures Encoded(bs) == AsChars(bs)
  {
    if bs != [] {
      EncodedUnreserved(bs[1..]);
      assert AsChars(bs) == [(bs[0] as int) as char] + AsChars(bs[1..]);
    }
  }

  // ---------------------------------------------------------------------
  // keep_local_list_items: the request URL

  const BaseUrl: string := "http://127.0.0.1:8787"
  const ItemsPath: string := BaseUrl + "/api/items"

  /** An optional text parameter goes in only when it is present and non-empty. */
  function TextParam(key: string, v: Option<seq<byte>>): seq<string> {
    if v.Some? && v.value != [] then [key + Encoded(v.value)] else []
  }

  function IntParam(key: string, v: Option<int>): seq<string> {
    if v.Some? then [key + IntToString(v.value)] else []
  }

  /** The query parameters, in the order limit, offset, q, status. */
  function QueryParams(limit: Option<int>, offset: Option<int>, query: Option<seq<byte>>, status: Option<seq<byte>>): seq<string> {
    IntParam("limit=", limit) + IntParam("offset=", offset) + TextParam("q=", query) + TextParam("status=", status)
  }

  /** The URL: the items path, then `?` and the `&`-joined parameters when
      there is at least one. */
  function ItemsUrl(limit: Option<int>, offset: Option<int>, query: Option<seq<byte>>, status: Option<seq<byte>>): (r: string)
    ensures |ItemsPath| <= |r| && r[..|ItemsPath|] == ItemsPath
    ensures r == ItemsPath <==> QueryParams(limit, offset, query, status) == []
  {
    var ps := QueryParams(limit, offset, query, status);
    if ps == [] then ItemsPath else ItemsPath + "?" + Join(ps, "&")
  }

  /** `keep_local_list_items` up to the request: push the parameters that
      are given and append the query string. */
  method ListItemsUrl(limit: Option<int>, offset: Option<int>, query: Option<seq<byte>>, status: Option<seq<byte>>)
    returns (url: string)
    ensures url == ItemsUrl(limit, offset, query, status)
  {
    url := ItemsPath;
    var params: seq<string> := [];
    if limit.Some? {
      params := params + ["limit=" + IntToString(limit.value)];
    }
    assert params == IntParam("limit=", limit);
    if offset.Some? {
      params := params + ["offset=" + IntToString(offset.value)];
    }
    assert params == IntParam("limit=", limit) + IntParam("offset=", offset);
    if query.Some? {
      if query.value != [] {
        var q := UrlEncoding(query.value);
        params := params + ["q=" + q];
      }
    }
    assert params == IntParam("limit=", limit) + IntParam("offset=", offset) + TextParam("q=", query);
    if status.Some? {
      if status.value != [] {
        var s := UrlEncoding(status.value);
        params := params + ["status=" + s];
      }
    }
    assert params == QueryParams(limit, offset, query, status);
    if params != [] {
      url := url + "?" + Join(params, "&");
    }
  }

  // ---------------------------------------------------------------------
  // Reading the query string back

  /** Splitting at every `sep`, as `str::split` does: always at least one piece. */
  function SplitAt(s: string, sep: char): (r: seq<string>)
    ensures |r| >= 1
  {
    if s == [] then [""]
    else
      var rest := SplitAt(s[1..], sep);
      if s[0] == sep then [""] + rest else [[s[0]] + rest[0]] + rest[1..]
  }

  lemma {:induction false} SplitAtPiece(p: string, rest: string, sep: char)
    requires sep !in p
    ensures SplitAt(p + [sep] + rest, sep) == [p] + SplitAt(rest, sep)
  {
    if p == [] {
      assert p + [sep] + rest == [sep] + rest;
      assert ([sep] + rest)[1..] == rest;
    } else {
      var s := p + [sep] + rest;
      assert s[1..] == p[1..] + [sep] + rest;
      SplitAtPiece(p[1..], rest, sep);
      assert [s[0]] + p[1..] == p;
    }
  }

  lemma {:induction false} SplitAtWhole(p: string, sep: char)
    requires sep !in p
    ensures SplitAt(p, sep) == [p]
  {
    if p != [] {
      SplitAtWhole(p[1..], sep);
      assert [p[0]] + p[1..] == p;
    }
  }

  /** Splitting pieces joined by a separator they do not contain gives the
      pieces back. */
  lemma {:induction false} SplitJoined(parts: seq<string>, sep: char)
    requires parts != []
    requires forall k :: 0 <= k < |parts| ==> sep !in parts[k]
    ensures SplitAt(Join(parts, [sep]), sep) == parts
  {
    if |parts| == 1 {
      SplitAtWhole(parts[0], sep);
    } else {
      SplitJoined(parts[1..], sep);
      SplitAtPiece(parts[0], Join(parts[1..], [sep]), sep);
      assert parts == [parts[0]] + parts[1..];
    }
  }

  lemma NoAmpersandInInt(i: int)
    ensures '&' !in IntToString(i)
  {
    var d := NatToString(if i < 0 then -i else i);
    assert forall k :: 0 <= k < |d| ==> IsAsciiDigit(d[k]);
    if i < 0 {
      assert IntToString(i) == "-" + d;
      assert forall k :: 0 <= k < |IntToString(i)| ==> IntToString(i)[k] == '-' || IsAsciiDigit(IntToString(i)[k]);
    }
  }

  predicate NoAmpersand(ps: seq<string>) {
    forall k :: 0 <= k < |ps| ==> '&' !in ps[k]
  }

  lemma NoAmpersandInIntParam(key: string, v: Option<int>)
    requires '&' !in key
    ensures NoAmpersand(IntParam(key, v))
  {
    if v.Some? {
      NoAmpersandInInt(v.value);
      var p := key + IntToString(v.value);
      forall j | 0 <= j < |p| ensures p[j] != '&' {
        if j >= |key| { assert p[j] == IntToString(v.value)[j - |key|]; }
      }
    }
  }

  lemma NoAmpersandInTextParam(key: string, v: Option<seq<byte>>)
    requires '&' !in key
    ensures NoAmpersand(TextParam(key, v))
  {
    if v.Some? && v.value != [] {
      var e := Encoded(v.value);
      var p := key + e;
      forall j | 0 <= j < |p| ensures p[j] != '&' {
        if j >= |key| { assert p[j] == e[j - |key|]; }
      }
    }
  }

  lemma NoAmpersandInParams(limit: Option<int>, offset: Option<int>, query: Option<seq<byte>>, status: Option<seq<byte>>)
    ensures NoAmpersand(QueryParams(limit, offset, query, status))
  {
    NoAmpersandInIntParam("limit=", limit);
    NoAmpersandInIntParam("offset=", offset);
    NoAmpersandInTextParam("q=", query);
    NoAmpersandInTextParam("status=", status);
    var a, b, c, d := IntParam("limit=", limit), IntParam("offset=", offset), TextParam("q=", query), TextParam("status=", status);
    assert NoAmpersand(a + b);
    assert NoAmpersand(a + b + c);
  }

  /** The server reads the query string back: split at `&` it gives exactly
      the parameters pushed, and the value of `q` decodes to the query's
      bytes. */
  lemma QueryStringRoundTrip(limit: Option<int>, offset: Option<int>, query: Option<seq<byte>>, status: Option<seq<byte>>)
    ensures var ps := QueryParams(limit, offset, query, status);
      ps != [] ==> ItemsUrl(limit, offset, query, status) == ItemsPath + "?" + Join(ps, "&") && SplitAt(Join(ps, "&"), '&') == ps
    ensures query.Some? && query.value != [] ==>
      exists k :: 0 <= k < |QueryParams(limit, offset, query, status)|
        && QueryParams(limit, offset, query, status)[k][..2] == "q="
        && Decode(QueryParams(limit, offset, query, status)[k][2..]) == query
  {
    var ps := QueryParams(limit, offset, query, status);
    if ps != [] {
      NoAmpersandInParams(limit, offset, query, status);
      SplitJoined(ps, '&');
    }
    if query.Some? && query.value != [] {
      var p := "q=" + Encoded(query.value);
      var k := |IntParam("limit=", limit) + IntParam("offset=", offset)|;
      assert ps[k] == p;
      assert p[2..] == Encoded(query.value);
      DecodeEncoded(query.value);
    }
  }

  /** No parameter at all leaves the bare items path. */
  lemma NoParamsBarePath(limit: Option<int>, offset: Option<int>, query: Option<seq<byte>>, status: Option<seq<byte>>)
    requires limit.None? && offset.None?
    requires query.None? || query.value == []
    requires status.None? || status.value == []
    ensures ItemsUrl(limit, offset, query, status) == ItemsPath
  {
  }
}

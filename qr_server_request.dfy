/**
 * The request as the create-qr-code service reads it: the URI is cut at '?',
 * the query split on '&' into name=value fields, and the eight parameters are
 * interpreted in order. Reading back a URI built by `QrServer.GetUri` gives
 * exactly the provider's options, the size and the text.
 */
module QrServerRequest {
  import opened Wrappers
  import opened Numerals
  import opened QueryString
  import opened QrServer
  import PercentEncoding

  datatype Request = Request(
    size: int,
    ecc: ErrorCorrectionLevel,
    margin: int,
    quietZone: int,
    bgcolor: string,
    color: string,
    format: QrServerImageFormat,
    text: string)

  const ParameterNames: seq<string> := ["size", "ecc", "margin", "qzone", "bgcolor", "color", "format", "data"]

  function Field(name: string, value: string): string {
    name + "=" + value
  }

  function Fields(ps: seq<(string, string)>): seq<string> {
    seq(|ps|, i requires 0 <= i < |ps| => Field(ps[i].0, ps[i].1))
  }

  /** Every field cut at its first '='; `None` if some field has none. */
  function ParseFields(fs: seq<string>): Option<seq<(string, string)>> {
    if fs == [] then Some([])
    else
      var pair :- SplitAtFirst(fs[0], '=');
      var rest :- ParseFields(fs[1..]);
      Some([pair] + rest)
  }

  /** The (name, value) fields of the query of a URI to the service endpoint. */
  function ReadQuery(uri: string): Option<seq<(string, string)>> {
    var (base, query) :- SplitAtFirst(uri, '?');
    if base != BaseUri then None else ParseFields(Split(query, '&'))
  }

  /** `size` is a width and a height joined by 'x'; they must agree. */
  function ReadSize(v: string): Option<int> {
    var (w, h) :- SplitAtFirst(v, 'x');
    var width :- ParseInt(w);
    var height :- ParseInt(h);
    if width == height then Some(width) else None
  }

  function ReadEcc(v: string): Option<ErrorCorrectionLevel> {
    if |v| == 1 then EccFromLetter(v[0]) else None
  }

  function ReadColor(v: string): Option<string> {
    if IsHex6(v) then Some(v) else None
  }

  function ReadRequest(uri: string): Option<Request> {
    var ps :- ReadQuery(uri);
    ReadParameters(ps)
  }

  /** The eight parameters, checked by name and position and interpreted. */
  function ReadParameters(ps: seq<(string, string)>): Option<Request> {
    if |ps| != |ParameterNames| || exists i :: 0 <= i < |ps| && ps[i].0 != ParameterNames[i] then None
    else
      var size :- ReadSize(ps[0].1);
      var ecc :- ReadEcc(ps[1].1);
      var margin :- ParseInt(ps[2].1);
      var quietZone :- ParseInt(ps[3].1);
      var bgcolor :- ReadColor(ps[4].1);
      var color :- ReadColor(ps[5].1);
      var format :- FormatFromToken(ps[6].1);
      var text :- PercentEncoding.UnescapeDataString(ps[7].1);
      Some(Request(size, ecc, margin, quietZone, bgcolor, color, format, text))
  }

  /** The eight (name, value) parameters of a query, in the service's order. */
  function ParameterList(sz: string, ecc: string, margin: string, qzone: string,
                         bg: string, fg: string, format: string, data: string): seq<(string, string)> {
    [("size", sz + "x" + sz), ("ecc", ecc), ("margin", margin), ("qzone", qzone),
     ("bgcolor", bg), ("color", fg), ("format", format), ("data", data)]
  }

  /** The parameters `GetUri` sends, as they stand in the query. */
  function Parameters(p: QrServerQrCodeProvider, color2Hex: HexEncoder, qrText: string, size: Int32): seq<(string, string)> {
    ParameterList(IntToString(size), [EccLetter(p.errorCorrectionLevel)], IntToString(p.margin),
                  IntToString(p.quietZone), color2Hex(p.backgroundColor), color2Hex(p.foregroundColor),
                  FormatToken(p.imageFormat), PercentEncoding.EscapeDataString(qrText))
  }

  /** Free of the characters that delimit the query and its fields. */
  predicate IsClean(v: string) {
    '&' !in v && '?' !in v && '#' !in v
  }

  lemma {:induction false} ParseFieldsOfFields(ps: seq<(string, string)>)
    requires forall i :: 0 <= i < |ps| ==> '=' !in ps[i].0
    ensures ParseFields(Fields(ps)) == Some(ps)
  {
    if ps != [] {
      var fs := Fields(ps);
      SplitAtFirstOfField(ps[0].0, '=', ps[0].1);
      assert fs[1..] == Fields(ps[1..]);
      ParseFieldsOfFields(ps[1..]);
      assert [ps[0]] + ps[1..] == ps;
    }
  }

  /** One more field on the right of a query: the regrouping `Query` needs. */
  lemma AppendField(q: string, j: string, amp: string, name: string, v: string)
    requires q == "?" + j
    requires amp == "&" + name + "="
    ensures q + amp + v == "?" + (j + "&" + Field(name, v))
  {
  }

  /** The shape of `Query`'s result, over plain strings. */
  lemma JoinedFields(sz: string, ecc: string, margin: string, qzone: string, bg: string, fg: string, format: string, data: string)
    ensures "?size=" + sz + "x" + sz + "&ecc=" + ecc + "&margin=" + margin + "&qzone=" + qzone
            + "&bgcolor=" + bg + "&color=" + fg + "&format=" + format + "&data=" + data
            == "?" + Join([Field("size", sz + "x" + sz), Field("ecc", ecc), Field("margin", margin),
                           Field("qzone", qzone), Field("bgcolor", bg), Field("color", fg),
                           Field("format", format), Field("data", data)], '&')
  {
    var fs := [Field("size", sz + "x" + sz), Field("ecc", ecc), Field("margin", margin),
               Field("qzone", qzone), Field("bgcolor", bg), Field("color", fg),
               Field("format", format), Field("data", data)];
    var q0 := "?size=" + sz + "x" + sz;
    assert q0 == "?" + Join(fs[..1], '&');
    var q1 := q0 + "&ecc=" + ecc;
    AppendField(q0, Join(fs[..1], '&'), "&ecc=", "ecc", ecc);
    JoinSnoc(fs[..1], fs[1], '&');
    assert fs[..1] + [fs[1]] == fs[..2];
    var q2 := q1 + "&margin=" + margin;
    AppendField(q1, Join(fs[..2], '&'), "&margin=", "margin", margin);
    JoinSnoc(fs[..2], fs[2], '&');
    assert fs[..2] + [fs[2]] == fs[..3];
    var q3 := q2 + "&qzone=" + qzone;
    AppendField(q2, Join(fs[..3], '&'), "&qzone=", "qzone", qzone);
    JoinSnoc(fs[..3], fs[3], '&');
    assert fs[..3] + [fs[3]] == fs[..4];
    var q4 := q3 + "&bgcolor=" + bg;
    AppendField(q3, Join(fs[..4], '&'), "&bgcolor=", "bgcolor", bg);
    JoinSnoc(fs[..4], fs[4], '&');
    assert fs[..4] + [fs[4]] == fs[..5];
    var q5 := q4 + "&color=" + fg;
    AppendField(q4, Join(fs[..5], '&'), "&color=", "color", fg);
    JoinSnoc(fs[..5], fs[5], '&');
    assert fs[..5] + [fs[5]] == fs[..6];
    var q6 := q5 + "&format=" + format;
    AppendField(q5, Join(fs[..6], '&'), "&format=", "format", format);
    JoinSnoc(fs[..6], fs[6], '&');
    assert fs[..6] + [fs[6]] == fs[..7];
    AppendField(q6, Join(fs[..7], '&'), "&data=", "data", data);
    JoinSnoc(fs[..7], fs[7], '&');
    assert fs[..7] + [fs[7]] == fs;
  }

  lemma FieldIsClean(name: string, v: string)
    requires IsClean(name) && IsClean(v)
    ensures IsClean(Field(name, v))
  {
  }

  lemma ReadQueryOfSplitUri(uri: string, query: string)
    requires SplitAtFirst(uri, '?') == Some((BaseUri, query))
    ensures ReadQuery(uri) == ParseFields(Split(query, '&'))
  {
  }

  lemma SplitUriAtQuery(fs: seq<string>)
    ensures SplitAtFirst(BaseUri + ['?'] + Join(fs, '&'), '?') == Some((BaseUri, Join(fs, '&')))
  {
    BaseUriAvoids('?');
    SplitAtFirstOfField(BaseUri, '?', Join(fs, '&'));
  }

  /** Reading a URI made of the endpoint, '?' and clean fields joined with '&'. */
  lemma ReadQueryOfJoinedFields(ps: seq<(string, string)>)
    requires |ps| >= 1
    requires forall i :: 0 <= i < |ps| ==> '=' !in ps[i].0 && IsClean(ps[i].0) && IsClean(ps[i].1)
    ensures ReadQuery(BaseUri + ['?'] + Join(Fields(ps), '&')) == Some(ps)
  {
    var fs := Fields(ps);
    forall i | 0 <= i < |fs|
      ensures IsClean(fs[i])
    {
      FieldIsClean(ps[i].0, ps[i].1);
    }
    SplitUriAtQuery(fs);
    ReadQueryOfSplitUri(BaseUri + ['?'] + Join(fs, '&'), Join(fs, '&'));
    SplitOfJoin(fs, '&');
    ParseFieldsOfFields(ps);
  }

  lemma IntToStringIsClean(n: int)
    ensures IsClean(IntToString(n)) && 'x' !in IntToString(n)
  {
  }

  lemma Hex6IsClean(s: string)
    requires IsHex6(s)
    ensures IsClean(s)
  {
  }

  lemma SizeIsClean(size: int)
    ensures IsClean(IntToString(size) + "x" + IntToString(size))
  {
    IntToStringIsClean(size);
  }

  /** The parameter names hold no '=', and clean values keep the list clean. */
  lemma ParameterListIsClean(sz: string, ecc: string, margin: string, qzone: string,
                             bg: string, fg: string, format: string, data: string)
    requires IsClean(sz + "x" + sz) && IsClean(ecc) && IsClean(margin) && IsClean(qzone)
    requires IsClean(bg) && IsClean(fg) && IsClean(format) && IsClean(data)
    ensures forall i :: 0 <= i < |ParameterList(sz, ecc, margin, qzone, bg, fg, format, data)| ==>
      '=' !in ParameterList(sz, ecc, margin, qzone, bg, fg, format, data)[i].0
      && IsClean(ParameterList(sz, ecc, margin, qzone, bg, fg, format, data)[i].0)
      && IsClean(ParameterList(sz, ecc, margin, qzone, bg, fg, format, data)[i].1)
  {
  }

  /** Every name and every value `GetUri` sends is clean. */
  lemma ParametersAreClean(p: QrServerQrCodeProvider, color2Hex: HexEncoder, qrText: string, size: Int32)
    ensures forall i :: 0 <= i < |Parameters(p, color2Hex, qrText, size)| ==>
      '=' !in Parameters(p, color2Hex, qrText, size)[i].0
      && IsClean(Parameters(p, color2Hex, qrText, size)[i].0)
      && IsClean(Parameters(p, color2Hex, qrText, size)[i].1)
  {
    SizeIsClean(size);
    IntToStringIsClean(p.margin);
    IntToStringIsClean(p.quietZone);
    Hex6IsClean(color2Hex(p.backgroundColor));
    Hex6IsClean(color2Hex(p.foregroundColor));
    PercentEncoding.EscapeDataStringProperties(qrText);
    ParameterListIsClean(IntToString(size), [EccLetter(p.errorCorrectionLevel)], IntToString(p.margin),
                         IntToString(p.quietZone), color2Hex(p.backgroundColor), color2Hex(p.foregroundColor),
                         FormatToken(p.imageFormat), PercentEncoding.EscapeDataString(qrText));
  }

  lemma Assoc(a: string, b: string, c: string)
    ensures a + (b + c) == a + b + c
  {
  }

  /** The query `Query` builds is the eight fields joined with '&'. */
  lemma QueryIsJoinedFields(p: QrServerQrCodeProvider, color2Hex: HexEncoder, qrText: string, size: Int32)
    ensures Query(p, color2Hex, qrText, size) == "?" + Join(Fields(Parameters(p, color2Hex, qrText, size)), '&')
  {
    var sz := IntToString(size);
    var ecc, margin, qzone := [EccLetter(p.errorCorrectionLevel)], IntToString(p.margin), IntToString(p.quietZone);
    var bg, fg := color2Hex(p.backgroundColor), color2Hex(p.foregroundColor);
    var format, data := FormatToken(p.imageFormat), PercentEncoding.EscapeDataString(qrText);
    JoinedFields(sz, ecc, margin, qzone, bg, fg, format, data);
    assert Fields(Parameters(p, color2Hex, qrText, size))
        == [Field("size", sz + "x" + sz), Field("ecc", ecc), Field("margin", margin),
            Field("qzone", qzone), Field("bgcolor", bg), Field("color", fg),
            Field("format", format), Field("data", data)];
  }

  /**
   * The fixed order of the query: reading a built URI back gives exactly the
   * eight parameters, named and ordered as the service expects.
   */
  lemma ReadQueryOfGetUri(p: QrServerQrCodeProvider, color2Hex: HexEncoder, qrText: string, size: Int32)
    ensures ReadQuery(GetUri(p, color2Hex, qrText, size)) == Some(Parameters(p, color2Hex, qrText, size))
  {
    var ps := Parameters(p, color2Hex, qrText, size);
    var j := Join(Fields(ps), '&');
    QueryIsJoinedFields(p, color2Hex, qrText, size);
    Assoc(BaseUri, ['?'], j);
    ParametersAreClean(p, color2Hex, qrText, size);
    ReadQueryOfJoinedFields(ps);
  }

  lemma FieldsAreClean(p: QrServerQrCodeProvider, color2Hex: HexEncoder, qrText: string, size: Int32)
    ensures forall i :: 0 <= i < |Fields(Parameters(p, color2Hex, qrText, size))| ==>
      IsClean(Fields(Parameters(p, color2Hex, qrText, size))[i])
  {
    var ps := Parameters(p, color2Hex, qrText, size);
    ParametersAreClean(p, color2Hex, qrText, size);
    forall i | 0 <= i < |ps|
      ensures IsClean(Fields(ps)[i])
    {
      FieldIsClean(ps[i].0, ps[i].1);
    }
  }

  lemma UriSplitsAtQuery(query: string)
    requires |query| >= 1 && query[0] == '?'
    ensures BaseUri + query == BaseUri + ['?'] + query[1..]
  {
    assert query == ['?'] + query[1..];
    Assoc(BaseUri, ['?'], query[1..]);
  }

  lemma BaseUriAvoids(c: char)
    requires c == '?' || c == '#'
    ensures c !in BaseUri
  {
  }

  lemma UriShapeOfQuery(query: string)
    requires |query| >= 1 && query[0] == '?'
    requires '?' !in query[1..] && '#' !in query[1..]
    ensures SplitAtFirst(BaseUri + query, '?') == Some((BaseUri, query[1..]))
    ensures '#' !in BaseUri + query
  {
    UriSplitsAtQuery(query);
    BaseUriAvoids('?');
    BaseUriAvoids('#');
    SplitAtFirstOfField(BaseUri, '?', query[1..]);
  }

  /**
   * The URI is the endpoint, one '?' and the query: its only '?' is the one
   * that starts the query, and it has no fragment.
   */
  lemma GetUriShape(p: QrServerQrCodeProvider, color2Hex: HexEncoder, qrText: string, size: Int32)
    ensures SplitAtFirst(GetUri(p, color2Hex, qrText, size), '?')
            == Some((BaseUri, Query(p, color2Hex, qrText, size)[1..]))
    ensures '?' !in Query(p, color2Hex, qrText, size)[1..]
    ensures '#' !in GetUri(p, color2Hex, qrText, size)
  {
    var fs := Fields(Parameters(p, color2Hex, qrText, size));
    var j := Join(fs, '&');
    var query := Query(p, color2Hex, qrText, size);
    QueryIsJoinedFields(p, color2Hex, qrText, size);
    assert query[1..] == j;
    FieldsAreClean(p, color2Hex, qrText, size);
    JoinAvoids(fs, '&', '?');
    JoinAvoids(fs, '&', '#');
    UriShapeOfQuery(query);
  }

  lemma ParameterListNames(sz: string, ecc: string, margin: string, qzone: string,
                           bg: string, fg: string, format: string, data: string)
    ensures forall i :: 0 <= i < |ParameterNames| ==>
      ParameterList(sz, ecc, margin, qzone, bg, fg, format, data)[i].0 == ParameterNames[i]
  {
  }

  lemma ReadSizeOfIntToString(n: int)
    ensures ReadSize(IntToString(n) + "x" + IntToString(n)) == Some(n)
  {
    var s := IntToString(n);
    IntToStringIsClean(n);
    SplitAtFirstOfField(s, 'x', s);
    ParseIntOfIntToString(n);
  }

  lemma ReadColorOfHex6(s: string)
    requires IsHex6(s)
    ensures ReadColor(s) == Some(s)
  {
  }

  /** Eight well-named values, each of which reads back, read back as one request. */
  lemma ReadParameterList(sz: string, ecc: string, margin: string, qzone: string,
                          bg: string, fg: string, format: string, data: string,
                          n: int, e: ErrorCorrectionLevel, m: int, q: int, f: QrServerImageFormat, text: string)
    requires ReadSize(sz + "x" + sz) == Some(n) && ReadEcc(ecc) == Some(e)
    requires ParseInt(margin) == Some(m) && ParseInt(qzone) == Some(q)
    requires ReadColor(bg) == Some(bg) && ReadColor(fg) == Some(fg)
    requires FormatFromToken(format) == Some(f) && PercentEncoding.UnescapeDataString(data) == Some(text)
    ensures ReadParameters(ParameterList(sz, ecc, margin, qzone, bg, fg, format, data))
      == Some(Request(n, e, m, q, bg, fg, f, text))
  {
    ParameterListNames(sz, ecc, margin, qzone, bg, fg, format, data);
  }

  /** Each value is interpreted as the option it was written from. */
  lemma ReadParametersOfParameters(p: QrServerQrCodeProvider, color2Hex: HexEncoder, qrText: string, size: Int32)
    ensures ReadParameters(Parameters(p, color2Hex, qrText, size)) ==
      Some(Request(size, p.errorCorrectionLevel, p.margin, p.quietZone,
                   color2Hex(p.backgroundColor), color2Hex(p.foregroundColor), p.imageFormat, qrText))
  {
    var ecc := [EccLetter(p.errorCorrectionLevel)];
    assert ReadEcc(ecc) == Some(p.errorCorrectionLevel);
    ReadSizeOfIntToString(size);
    ParseIntOfIntToString(p.margin);
    ParseIntOfIntToString(p.quietZone);
    ReadColorOfHex6(color2Hex(p.backgroundColor));
    ReadColorOfHex6(color2Hex(p.foregroundColor));
    PercentEncoding.EscapeDataStringProperties(qrText);
    ReadParameterList(IntToString(size), ecc, IntToString(p.margin), IntToString(p.quietZone),
                      color2Hex(p.backgroundColor), color2Hex(p.foregroundColor),
                      FormatToken(p.imageFormat), PercentEncoding.EscapeDataString(qrText),
                      size, p.errorCorrectionLevel, p.margin, p.quietZone, p.imageFormat, qrText);
  }

  /**
   * The round trip with the service: the request it reads from a built URI
   * carries the provider's options, the size on both sides of 'x', the colours
   * as `Color2Hex` wrote them, and the original text.
   */
  lemma ReadRequestOfGetUri(p: QrServerQrCodeProvider, color2Hex: HexEncoder, qrText: string, size: Int32)
    ensures ReadRequest(GetUri(p, color2Hex, qrText, size)) ==
      Some(Request(size, p.errorCorrectionLevel, p.margin, p.quietZone,
                   color2Hex(p.backgroundColor), color2Hex(p.foregroundColor), p.imageFormat, qrText))
  {
    ReadQueryOfGetUri(p, color2Hex, qrText, size);
    ReadParametersOfParameters(p, color2Hex, qrText, size);
  }
}

/** The documented example request, for the provider built with every default. */
module QrServerExample {
  import opened Numerals
  import opened QrServer
  import opened QrServerRequest
  import opened QueryString
  import PercentEncoding

  lemma SmallNumerals(n: int)
    requires n == 200 || n == 4 || n == 1
    ensures n == 200 ==> IntToString(n) == "200"
    ensures n == 4 ==> IntToString(n) == "4"
    ensures n == 1 ==> IntToString(n) == "1"
  {
    if n == 200 {
      assert NatToString(2) == "2";
      assert NatToString(20) == NatToString(2) + "0";
      assert NatToString(200) == NatToString(20) + "0";
    }
  }

  /**
   * The default provider asked for "Hello World" at size 200 sends
   * size=200x200, ecc=L, margin=4, qzone=1, the two colours, format=png and
   * data=Hello%20World, in that order.
   */
  lemma DefaultParameters(p: QrServerQrCodeProvider, color2Hex: HexEncoder, qrText: string, size: Int32)
    requires p == QrServerQrCodeProvider(Low, 4, 1, White, Black, Png)
    requires qrText == "Hello World" && size == 200
    ensures Parameters(p, color2Hex, qrText, size)
      == [("size", "200x200"), ("ecc", "L"), ("margin", "4"), ("qzone", "1"),
          ("bgcolor", color2Hex(White)), ("color", color2Hex(Black)), ("format", "png"),
          ("data", "Hello%20World")]
  {
    SmallNumerals(size);
    SmallNumerals(p.margin);
    SmallNumerals(p.quietZone);
    PercentEncoding.EscapeHelloWorld(qrText);
    assert EccLetter(p.errorCorrectionLevel) == 'L';
    assert FormatToken(p.imageFormat) == "png";
    var sz := IntToString(size);
    assert sz + "x" + sz == "200x200";
    assert [EccLetter(p.errorCorrectionLevel)] == "L";
  }

  /**
   * The documented example as a query string: the default provider asked for
   * "Hello World" at size 200 sends '?' and the eight fields of
   * `DefaultParameters`, joined with '&'.
   */
  lemma DefaultQuery(p: QrServerQrCodeProvider, color2Hex: HexEncoder, qrText: string, size: Int32)
    requires p == QrServerQrCodeProvider(Low, 4, 1, White, Black, Png)
    requires qrText == "Hello World" && size == 200
    ensures Query(p, color2Hex, qrText, size)
      == "?" + Join(Fields([("size", "200x200"), ("ecc", "L"), ("margin", "4"), ("qzone", "1"),
                            ("bgcolor", color2Hex(White)), ("color", color2Hex(Black)),
                            ("format", "png"), ("data", "Hello%20World")]), '&')
  {
    QueryIsJoinedFields(p, color2Hex, qrText, size);
    DefaultParameters(p, color2Hex, qrText, size);
  }
}

/**
 * The QR code provider backed by the goQR.me "create-qr-code" service
 * (api.qrserver.com): its options, their validation at construction time, the
 * MIME type of the images it returns and the request URI it builds.
 *
 * Once constructed the provider never changes (every property has a private
 * setter that only the constructor uses), so it is modelled as a value: a
 * datatype built by one validating method.
 */
module QrServer {
  import opened Wrappers
  import opened Numerals
  import Utf8
  import PercentEncoding

  type Byte = Utf8.Byte

  datatype ErrorCorrectionLevel = Low | Medium | Quartile | High

  datatype QrServerImageFormat = Png | Gif | Jpeg | Svg | Eps

  /** An RGB colour. */
  datatype Color = Color(r: Byte, g: Byte, b: Byte)

  const White := Color(255, 255, 255)
  const Black := Color(0, 0, 0)

  /** `ArgumentOutOfRangeException`, carrying the name of the offending parameter. */
  datatype ArgumentOutOfRangeException = ArgumentOutOfRangeException(paramName: string)

  datatype QrServerQrCodeProvider = QrServerQrCodeProvider(
    errorCorrectionLevel: ErrorCorrectionLevel,
    margin: Int32,
    quietZone: Int32,
    backgroundColor: Color,
    foregroundColor: Color,
    imageFormat: QrServerImageFormat)

  /** The invariant every constructed provider satisfies. */
  predicate Valid(p: QrServerQrCodeProvider) {
    0 <= p.margin <= 50 && 0 <= p.quietZone <= 100
  }

  /** A provider as the constructor can build it. */
  type ValidProvider = p: QrServerQrCodeProvider | Valid(p)
    witness QrServerQrCodeProvider(Low, 4, 1, White, Black, Png)

  /**
   * The underlying value of each `ErrorCorrectionLevel` enumerant: the code of
   * its letter, since the URI builder casts the enumerant to `char`.
   */
  function EccValue(e: ErrorCorrectionLevel): int {
    match e
    case Low => 'L' as int
    case Medium => 'M' as int
    case Quartile => 'Q' as int
    case High => 'H' as int
  }

  /** `Enum.IsDefined` for `ErrorCorrectionLevel`, returning the enumerant. */
  function EccFromValue(n: int): (r: Option<ErrorCorrectionLevel>)
    ensures forall e :: r == Some(e) <==> EccValue(e) == n
  {
    if n == 'L' as int then Some(Low)
    else if n == 'M' as int then Some(Medium)
    else if n == 'Q' as int then Some(Quartile)
    else if n == 'H' as int then Some(High)
    else None
  }

  /** The underlying value of each `QrServerImageFormat` enumerant (declaration order). */
  function FormatValue(f: QrServerImageFormat): int {
    match f
    case Png => 0
    case Gif => 1
    case Jpeg => 2
    case Svg => 3
    case Eps => 4
  }

  /** `Enum.IsDefined` for `QrServerImageFormat`, returning the enumerant. */
  function FormatFromValue(n: int): (r: Option<QrServerImageFormat>)
    ensures forall f :: r == Some(f) <==> FormatValue(f) == n
    ensures r.Some? <==> 0 <= n <= 4
  {
    if n == 0 then Some(Png)
    else if n == 1 then Some(Gif)
    else if n == 2 then Some(Jpeg)
    else if n == 3 then Some(Svg)
    else if n == 4 then Some(Eps)
    else None
  }

  /**
   * The constructor. Each argument is checked, in the order error-correction
   * level, margin, quiet zone, image format, and the first bad one is reported;
   * omitted colours default to white and black.
   */
  method Create(
    errorCorrectionLevel: Int32,
    margin: Int32,
    quietZone: Int32,
    backgroundColor: Option<Color>,
    foregroundColor: Option<Color>,
    imageFormat: Int32)
    returns (r: Result<ValidProvider, ArgumentOutOfRangeException>)
    ensures r.Success? <==>
      EccFromValue(errorCorrectionLevel).Some? && 0 <= margin <= 50 && 0 <= quietZone <= 100
      && FormatFromValue(imageFormat).Some?
    ensures r.Success? ==> Valid(r.value)
    ensures r.Success? ==>
      EccValue(r.value.errorCorrectionLevel) == errorCorrectionLevel
      && r.value.margin == margin && r.value.quietZone == quietZone
      && FormatValue(r.value.imageFormat) == imageFormat
    ensures r.Success? ==>
      r.value.backgroundColor == backgroundColor.GetOr(White)
      && r.value.foregroundColor == foregroundColor.GetOr(Black)
    ensures EccFromValue(errorCorrectionLevel).None? ==>
      r == Failure(ArgumentOutOfRangeException("errorCorrectionLevel"))
    ensures EccFromValue(errorCorrectionLevel).Some? && !(0 <= margin <= 50) ==>
      r == Failure(ArgumentOutOfRangeException("margin"))
    ensures EccFromValue(errorCorrectionLevel).Some? && 0 <= margin <= 50 && !(0 <= quietZone <= 100) ==>
      r == Failure(ArgumentOutOfRangeException("quietZone"))
    ensures EccFromValue(errorCorrectionLevel).Some? && 0 <= margin <= 50 && 0 <= quietZone <= 100
            && FormatFromValue(imageFormat).None? ==>
      r == Failure(ArgumentOutOfRangeException("imageFormat"))
  {
    var ecc := EccFromValue(errorCorrectionLevel);
    if ecc.None? {
      return Failure(ArgumentOutOfRangeException("errorCorrectionLevel"));
    }
    if margin < 0 || margin > 50 {
      return Failure(ArgumentOutOfRangeException("margin"));
    }
    if quietZone < 0 || quietZone > 100 {
      return Failure(ArgumentOutOfRangeException("quietZone"));
    }
    var background := backgroundColor.GetOr(White);
    var foreground := foregroundColor.GetOr(Black);
    var format := FormatFromValue(imageFormat);
    if format.None? {
      return Failure(ArgumentOutOfRangeException("imageFormat"));
    }
    r := Success(QrServerQrCodeProvider(ecc.value, margin, quietZone, background, foreground, format.value));
  }

  /** The constructor called with every default: it cannot fail. */
  method CreateWithDefaults() returns (p: ValidProvider)
    ensures Valid(p)
    ensures p == QrServerQrCodeProvider(Low, 4, 1, White, Black, Png)
  {
    var r := Create(EccValue(Low), 4, 1, None, None, FormatValue(Png));
    p := r.value;
  }

  /** The MIME type of the images this provider returns. */
  function GetMimeType(p: QrServerQrCodeProvider): (m: string)
    ensures FormatOfMimeType(m) == Some(p.imageFormat)
  {
    match p.imageFormat
    case Png => "image/png"
    case Gif => "image/gif"
    case Jpeg => "image/jpeg"
    case Svg => "image/svg+xml"
    case Eps => "application/postscript"
  }

  /** Which image format a content type labels, if any. */
  function FormatOfMimeType(m: string): Option<QrServerImageFormat> {
    if m == "image/png" then Some(Png)
    else if m == "image/gif" then Some(Gif)
    else if m == "image/jpeg" then Some(Jpeg)
    else if m == "image/svg+xml" then Some(Svg)
    else if m == "application/postscript" then Some(Eps)
    else None
  }

  /** Two providers report the same MIME type only when their formats agree. */
  lemma MimeTypeDeterminesFormat(p: QrServerQrCodeProvider, q: QrServerQrCodeProvider)
    ensures GetMimeType(p) == GetMimeType(q) <==> p.imageFormat == q.imageFormat
  {
  }

  predicate IsAsciiLetter(c: char) {
    'a' <= c <= 'z' || 'A' <= c <= 'Z'
  }

  /**
   * `Char.ToLowerInvariant`, on ASCII letters: no upper-case letter is left, an
   * upper-case letter becomes the same letter in lower case, and any other
   * character is kept.
   */
  function CharToLowerInvariant(c: char): (r: char)
    ensures !('A' <= r <= 'Z')
    ensures IsAsciiLetter(r) <==> IsAsciiLetter(c)
    ensures 'A' <= c <= 'Z' ==> r as int - 'a' as int == c as int - 'A' as int
    ensures !('A' <= c <= 'Z') ==> r == c
  {
    if 'A' <= c <= 'Z' then (c as int - 'A' as int + 'a' as int) as char else c
  }

  /**
   * `Char.ToUpperInvariant`, on ASCII letters: no lower-case letter is left, and
   * the result is the same letter as the input, read without case.
   */
  function CharToUpperInvariant(c: char): (r: char)
    ensures !('a' <= r <= 'z')
    ensures CharToLowerInvariant(r) == CharToLowerInvariant(c)
    ensures 'a' <= c <= 'z' ==> r as int - 'A' as int == c as int - 'a' as int
    ensures !('a' <= c <= 'z') ==> r == c
  {
    if 'a' <= c <= 'z' then (c as int - 'a' as int + 'A' as int) as char else c
  }

  /** `String.ToLowerInvariant`, on ASCII letters. */
  function ToLowerInvariant(s: string): (t: string)
    ensures |t| == |s|
    ensures forall i :: 0 <= i < |s| ==> t[i] == CharToLowerInvariant(s[i])
  {
    if s == [] then [] else [CharToLowerInvariant(s[0])] + ToLowerInvariant(s[1..])
  }

  /** The `ecc` letter: the enumerant's value read as a character, upper-cased. */
  function EccLetter(e: ErrorCorrectionLevel): (c: char)
    ensures 'A' <= c <= 'Z'
    ensures EccFromLetter(c) == Some(e)
  {
    CharToUpperInvariant(EccValue(e) as char)
  }

  /** How the service reads an `ecc` letter. */
  function EccFromLetter(c: char): Option<ErrorCorrectionLevel> {
    if c == 'L' then Some(Low)
    else if c == 'M' then Some(Medium)
    else if c == 'Q' then Some(Quartile)
    else if c == 'H' then Some(High)
    else None
  }

  /**
   * `Enum.GetName` for `QrServerImageFormat`: the enumerant's identifier, in
   * Pascal case, which names that enumerant and no other.
   */
  function FormatName(f: QrServerImageFormat): (n: string)
    ensures |n| >= 1 && 'A' <= n[0] <= 'Z'
    ensures forall i :: 1 <= i < |n| ==> 'a' <= n[i] <= 'z'
    ensures FormatFromName(n) == Some(f)
  {
    match f
    case Png => "Png"
    case Gif => "Gif"
    case Jpeg => "Jpeg"
    case Svg => "Svg"
    case Eps => "Eps"
  }

  /** The inverse of the name table: which enumerant an identifier names, if any. */
  function FormatFromName(n: string): Option<QrServerImageFormat> {
    if n == "Png" then Some(Png)
    else if n == "Gif" then Some(Gif)
    else if n == "Jpeg" then Some(Jpeg)
    else if n == "Svg" then Some(Svg)
    else if n == "Eps" then Some(Eps)
    else None
  }

  predicate IsLowerAsciiWord(s: string) {
    |s| >= 1 && forall i :: 0 <= i < |s| ==> 'a' <= s[i] <= 'z'
  }

  /** The `format` token: the enumerant's name in lower case. */
  function FormatToken(f: QrServerImageFormat): (t: string)
    ensures IsLowerAsciiWord(t)
    ensures FormatFromToken(t) == Some(f)
  {
    var t := ToLowerInvariant(FormatName(f));
    match f
    case Png => assert t == "png"; t
    case Gif => assert t == "gif"; t
    case Jpeg => assert t == "jpeg"; t
    case Svg => assert t == "svg"; t
    case Eps => assert t == "eps"; t
  }

  /** How the service reads a `format` token. */
  function FormatFromToken(t: string): Option<QrServerImageFormat> {
    if t == "png" then Some(Png)
    else if t == "gif" then Some(Gif)
    else if t == "jpeg" then Some(Jpeg)
    else if t == "svg" then Some(Svg)
    else if t == "eps" then Some(Eps)
    else None
  }

  /** Six hexadecimal digits, of either case, with no leading marker. */
  predicate IsHex6(s: string) {
    |s| == 6 && forall i :: 0 <= i < |s| ==> PercentEncoding.IsHexDigit(s[i])
  }

  /**
   * What the base class's `Color2Hex` is assumed to be: a function from a colour
   * to six hexadecimal digits. Which case it writes is left open.
   */
  type HexEncoder = f: Color -> string | forall c :: IsHex6(f(c))
    witness (c: Color) => "000000"

  /** The service endpoint every request goes to. */
  const BaseUri := "https://api.qrserver.com/v1/create-qr-code/"

  /** The query part of the request: '?' and eight parameters in a fixed order. */
  function Query(p: QrServerQrCodeProvider, color2Hex: HexEncoder, qrText: string, size: Int32): string {
    "?size=" + IntToString(size) + "x" + IntToString(size)
    + "&ecc=" + [EccLetter(p.errorCorrectionLevel)]
    + "&margin=" + IntToString(p.margin)
    + "&qzone=" + IntToString(p.quietZone)
    + "&bgcolor=" + color2Hex(p.backgroundColor)
    + "&color=" + color2Hex(p.foregroundColor)
    + "&format=" + FormatToken(p.imageFormat)
    + "&data=" + PercentEncoding.EscapeDataString(qrText)
  }

  /** The request URI: the endpoint followed by the query. */
  function GetUri(p: QrServerQrCodeProvider, color2Hex: HexEncoder, qrText: string, size: Int32): string {
    BaseUri + Query(p, color2Hex, qrText, size)
  }
}

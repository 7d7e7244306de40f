# QrServerQrCodeProvider in Dafny

A model of the QR code provider of TwoFactorAuth.Net that is backed by the goQR.me
"create-qr-code" service (`https://api.qrserver.com/v1/create-qr-code/`). The provider
has three parts, and they are modelled here with what each one promises:

- **Construction.** The constructor checks its arguments in a fixed order: error-correction
  level, margin (0..50), quiet zone (0..100), image format. It rejects the first bad
  argument with an `ArgumentOutOfRangeException` that names it, and it never clamps.
  Omitted colours default to white (background) and black (foreground). After
  construction the provider does not change. It is modelled as a datatype value built by
  one validating method, `QrServer.Create`.
- **`GetMimeType`.** Maps each of the five image formats to its content type.
- **`GetUri`.** Builds the request: the endpoint, then `?size=SxS&ecc=E&margin=M&qzone=Q&bgcolor=B&color=F&format=T&data=D`.
  `D` is the text escaped with `Uri.EscapeDataString`.

Modules, one per concern:

- `Wrappers`: `Option` and `Result`.
- `Numerals`: `Int32`, the decimal rendering of an `int` and the parser that reads it back.
- `Utf8`: UTF-8 encoding (RFC 3629) and a strict decoder that inverts it.
- `PercentEncoding`: the model of `Uri.EscapeDataString`. It encodes the text as UTF-8. It keeps
  the unreserved characters of section 2.3 of RFC 3986. It writes every other byte as `%XX` with
  upper-case hex digits (section 2.1 of RFC 3986). The module also holds the inverse decoder.
- `QueryString`: splitting a query on `&` and cutting a field at `=`, as the receiver does.
- `QrServer`: the enums, colours, the provider, `Create`, `GetMimeType`, `Query` and `GetUri`.
- `QrServerRequest`: how the service reads a request URI (`ReadRequest`). It also holds the
  round-trip lemmas: a built URI reads back as exactly the provider's options, the size and the
  text.
- `QrServerExample`: the documented example request.

`GetUri` and `Query` take one parameter the source does not have: `color2Hex`, of type
`HexEncoder`. It stands for the base class's `Color2Hex`, which is not part of this model. The
model assumes only that `Color2Hex` is a function from a colour to six hexadecimal digits. Its
letter case is not fixed.

## Model

| member | source | states |
|---|---|---|
| `QrServer.Create` | TwoFactorAuth.Net/Providers/Qr/QrServerQrCodeProvider.cs:102-132 | Construction succeeds exactly when both enum values are defined, 0 <= margin <= 50 and 0 <= quietZone <= 100. On success the stored fields equal the arguments, never clamped, and the result has the type `ValidProvider`: it satisfies `Valid`. An omitted colour becomes White (background) or Black (foreground); a supplied one is kept. On failure the error names the first bad argument in the order errorCorrectionLevel, margin, quietZone, imageFormat. |
| `QrServer.CreateWithDefaults` | TwoFactorAuth.Net/Providers/Qr/QrServerQrCodeProvider.cs:102-108 | The defaults (Low, margin 4, quiet zone 1, no colours, Png) pass validation. The result is the valid provider (Low, 4, 1, White, Black, Png). |
| `QrServer.Valid` | TwoFactorAuth.Net/Providers/Qr/QrServerQrCodeProvider.cs:117-123 | The invariant of a constructed provider: 0 <= margin <= 50 and 0 <= quietZone <= 100. It is a predicate with no `ensures` of its own. It is the constraint of the subset type `ValidProvider` that `Create` and `CreateWithDefaults` return. |
| `QrServer.EccFromValue` | TwoFactorAuth.Net/Providers/Qr/QrServerQrCodeProvider.cs:113-114 | `Enum.IsDefined` for the error-correction level: it returns the enumerant `e` exactly when the raw value is `e`'s underlying value. |
| `QrServer.FormatFromValue` | TwoFactorAuth.Net/Providers/Qr/QrServerQrCodeProvider.cs:18-30 | `Enum.IsDefined` for the image format: it is defined exactly for 0..4, and it returns the enumerant whose declaration position is the raw value. |
| `QrServer.GetMimeType` | TwoFactorAuth.Net/Providers/Qr/QrServerQrCodeProvider.cs:142-160 | Total on every provider: Png, Gif, Jpeg, Svg and Eps map to image/png, image/gif, image/jpeg, image/svg+xml and application/postscript. Reading the content type back with `FormatOfMimeType` gives the provider's format, so the "unknown format" error cannot occur. |
| `QrServer.MimeTypeDeterminesFormat` | TwoFactorAuth.Net/Providers/Qr/QrServerQrCodeProvider.cs:144-155 | Two providers have the same MIME type if and only if they have the same image format. |
| `QrServer.EccLetter` | TwoFactorAuth.Net/Providers/Qr/QrServerQrCodeProvider.cs:184 | The `ecc` value is one upper-case letter, and the service reads it back as the same level. |
| `QrServer.CharToUpperInvariant` | TwoFactorAuth.Net/Providers/Qr/QrServerQrCodeProvider.cs:184 | The result is never a lower-case ASCII letter. A lower-case letter becomes the same letter in upper case (the same position in the alphabet), so read without case (`CharToLowerInvariant`) it equals the input. Any other character is kept. |
| `QrServer.CharToLowerInvariant` | TwoFactorAuth.Net/Providers/Qr/QrServerQrCodeProvider.cs:190 | The result is never an upper-case ASCII letter. An upper-case letter becomes the same letter in lower case (the same position in the alphabet), a letter stays a letter, and any other character is kept. |
| `QrServer.FormatName` | TwoFactorAuth.Net/Providers/Qr/QrServerQrCodeProvider.cs:190 | `Enum.GetName`: the enumerant's identifier, one upper-case letter followed by lower-case letters, which the inverse table `FormatFromName` maps back to the same enumerant. |
| `QrServer.FormatToken` | TwoFactorAuth.Net/Providers/Qr/QrServerQrCodeProvider.cs:190 | The `format` value is the enumerant's name in lower case: a non-empty run of a-z that reads back as the same format. |
| `QrServer.ToLowerInvariant` | TwoFactorAuth.Net/Providers/Qr/QrServerQrCodeProvider.cs:190 | Lower-casing keeps the length and maps each character on its own. |
| `QrServer.Query` | TwoFactorAuth.Net/Providers/Qr/QrServerQrCodeProvider.cs:182-193 | The query string, built by the same concatenation as the source. It has no `ensures` of its own. Its contract is stated by `QrServerRequest.QueryIsJoinedFields`, `QrServerRequest.GetUriShape` and `QrServerRequest.ReadQueryOfGetUri`. |
| `QrServer.GetUri` | TwoFactorAuth.Net/Providers/Qr/QrServerQrCodeProvider.cs:180-194 | The endpoint followed by the query. It has no `ensures` of its own. Its contract is stated by `QrServerRequest.GetUriShape`, `QrServerRequest.ReadQueryOfGetUri` and `QrServerRequest.ReadRequestOfGetUri`. |
| `QrServerRequest.QueryIsJoinedFields` | TwoFactorAuth.Net/Providers/Qr/QrServerQrCodeProvider.cs:183-192 | The query is '?' followed by the eight name=value fields size, ecc, margin, qzone, bgcolor, color, format, data, joined with '&'. |
| `QrServerRequest.ReadQueryOfGetUri` | TwoFactorAuth.Net/Providers/Qr/QrServerQrCodeProvider.cs:180-194 | Cutting a built URI at '?', splitting on '&' and cutting each field at '=' gives exactly the eight parameters, in order. No value adds, removes or reorders a field. |
| `QrServerRequest.ReadRequestOfGetUri` | TwoFactorAuth.Net/Providers/Qr/QrServerQrCodeProvider.cs:180-194 | Round trip with the service: reading a built URI gives back the size (the same integer on both sides of 'x'), the level, margin, quiet zone, the two colours as `Color2Hex` wrote them, the format and the original text. |
| `QrServerRequest.GetUriShape` | TwoFactorAuth.Net/Providers/Qr/QrServerQrCodeProvider.cs:182-183 | The URI is the fixed endpoint, one '?' and the query. It has no later '?' and no '#'. |
| `QrServerExample.DefaultParameters` | TwoFactorAuth.Net/Providers/Qr/QrServerQrCodeProvider.cs:183-192 | The default provider asked for "Hello World" at size 200 sends size=200x200, ecc=L, margin=4, qzone=1, the two colours, format=png and data=Hello%20World. |
| `QrServerExample.DefaultQuery` | TwoFactorAuth.Net/Providers/Qr/QrServerQrCodeProvider.cs:182-193 | The documented example as a query string: '?' followed by size=200x200, ecc=L, margin=4, qzone=1, the two colours, format=png and data=Hello%20World, joined with '&'. |
| `PercentEncoding.EscapeDataString` | TwoFactorAuth.Net/Providers/Qr/QrServerQrCodeProvider.cs:192 | `Uri.EscapeDataString`: the UTF-8 bytes of the text, each escaped. It has no `ensures` of its own. Its contract is stated by `PercentEncoding.EscapeDataStringProperties`, `PercentEncoding.EscapeUnreservedIsIdentity`, `PercentEncoding.EscapeDataStringSplit` and `PercentEncoding.EscapeHelloWorld`. |
| `PercentEncoding.EscapeDataStringProperties` | TwoFactorAuth.Net/Providers/Qr/QrServerQrCodeProvider.cs:192 | The escaped text contains only unreserved characters and %XX triples. So it has no '&', '=', '?', '#' or '+', and decoding it gives back the original text. |
| `PercentEncoding.UnescapeOfEscapeBytes` | TwoFactorAuth.Net/Providers/Qr/QrServerQrCodeProvider.cs:192 | Percent-decoding recovers exactly the bytes that were escaped. |
| `PercentEncoding.PercentEncodedIffDecodable` | TwoFactorAuth.Net/Providers/Qr/QrServerQrCodeProvider.cs:192 | A string percent-decodes if and only if it consists of unreserved characters and %XX triples. |
| `PercentEncoding.EscapeBytesIsPercentEncoded` | TwoFactorAuth.Net/Providers/Qr/QrServerQrCodeProvider.cs:192 | Every escaped byte string consists of unreserved characters and %XX triples. |
| `PercentEncoding.PercentEncodedAlphabet` | TwoFactorAuth.Net/Providers/Qr/QrServerQrCodeProvider.cs:192 | A string made of unreserved characters and %XX triples contains only unreserved characters and '%'. |
| `PercentEncoding.EscapeUnreservedIsIdentity` | TwoFactorAuth.Net/Providers/Qr/QrServerQrCodeProvider.cs:192 | Text made only of unreserved characters is left unchanged (section 2.3 of RFC 3986). |
| `PercentEncoding.EscapeDataStringSplit` | TwoFactorAuth.Net/Providers/Qr/QrServerQrCodeProvider.cs:192 | Escaping distributes over concatenation. |
| `PercentEncoding.EscapeHelloWorld` | TwoFactorAuth.Net/Providers/Qr/QrServerQrCodeProvider.cs:192 | "Hello World" escapes to "Hello%20World". |
| `Utf8.DecodeOfEncode` | TwoFactorAuth.Net/Providers/Qr/QrServerQrCodeProvider.cs:192 | The UTF-8 bytes that `EscapeDataString` escapes decode back to the original text. |
| `Utf8.Encode` | TwoFactorAuth.Net/Providers/Qr/QrServerQrCodeProvider.cs:192 | Every character takes one to four bytes. |
| `Numerals.IntToString` | TwoFactorAuth.Net/Providers/Qr/QrServerQrCodeProvider.cs:183-186 | `size`, `margin` and `qzone` are written as the shortest decimal numeral: digits with no leading zero (only 0 itself is "0"), with one leading '-' exactly when the value is negative. |
| `Numerals.ParseIntOfIntToString` | TwoFactorAuth.Net/Providers/Qr/QrServerQrCodeProvider.cs:183-186 | The decimal rendering reads back as the same integer. |

## Left out

- `GetQrCodeImage` (through the base class's `DownloadData`): it is one HTTP GET of the built URI. Network I/O is not modelled, so neither is its success or failure.
- The `remoteCertificateValidationCallback` argument and the base-class constructor it feeds are left out. They are TLS plumbing in the transport.
- `new Uri(BaseUri, relative)`: .NET URI resolution and normalisation are not modelled. The URI is modelled as the endpoint string followed by the query. `GetUriShape` shows the query has exactly one '?' and no '#', so the split is unambiguous.
- `Color2Hex` lives in `BaseHttpQrCodeProvider`, which is not part of this model. It is a parameter constrained only to six hexadecimal digits, so the model claims no hex case.
- `ErrorCorrectionLevel` is declared outside this file, so its underlying values are an assumption here. The model assumes they are the character codes of 'L', 'M', 'Q' and 'H', because the URI builder casts the enumerant to `char`.
- `Enum.IsDefined` and `Enum.GetName` use reflection. They are replaced by explicit tables over raw enum values (`EccFromValue`, `FormatFromValue`, `FormatName`).
- Because the stored format is a datatype, an undefined format cannot be represented. So the "Unknown imageformat" branch of `GetMimeType` has no counterpart; it would be dead code.
- `System.Drawing.Color` is reduced to an RGB triple: its alpha channel and its named-colour identity are not modelled.
- QrServer.CharToUpperInvariant: upper-cases ASCII letters only. The culture-invariant mapping of other characters is not modelled; the only inputs are 'L', 'M', 'Q' and 'H'.
- QrServer.ToLowerInvariant: lower-cases ASCII letters only, for the same reason; the enum names are ASCII.
- QrServer.CharToLowerInvariant: the same ASCII-only restriction, for the same reason.
- Numerals.IntToString: assumes the minus sign is '-'. C#'s culture-dependent negative sign is not modelled.
- The text is a Dafny string, a sequence of Unicode scalar values. With .NET's UTF-16 strings, `EscapeDataString` can also meet unpaired surrogates; that case is not modelled, nor are the older .NET Framework behaviours (RFC 2396 character set, length limit).
- A null text: `Uri.EscapeDataString(null)` throws `ArgumentNullException`, so `GetUri(null, size)` and `GetQrCodeImage(null, size)` throw before any request is sent. A Dafny string cannot be null, so this error path has no counterpart in `GetUri`, `Query` or `EscapeDataString`.
- The size, the text and the remark that the margin must stay below one third of the size have no checks in the code. The model adds none.
- `ReadRequest` and the parsers beside it model how the service reads a request. They come from the parameter contract, not from the C# provider; they are there to state round trips.

# Google Calendar Event (ChatGPT-assisted) — a verified model of the link builder

The PopClip action sends the selected text to a chat-completion API, parses the
reply as an event record and opens a Google Calendar "render?action=TEMPLATE"
link. This project models the string pipeline at its centre:

- `convertToZuluTime`: the ISO text of a date has its `-` and `:` removed, is cut
  at the first `.`, and gets a `Z` appended. When the host's `toISOString`
  throws, the result is the empty string.
- The URL assembly: a fixed base URL, then `&text=`, `&dates=`, `&details=` and
  `&location=`, each present or absent according to JavaScript truthiness. The
  text values go through `encodeURIComponent` (section 19.2.6 of ECMA-262).
- `encodeURIComponent` itself, over UTF-16 code units. It reads surrogate pairs,
  writes UTF-8 octets as upper-case `%XY` triples, and leaves
  `A-Z a-z 0-9 - _ . ! ~ * ' ( )` alone. It throws a URIError on an unpaired
  surrogate.
- The instruction prompt: `{formattedDate}` in the template is replaced by the
  date part of today's ISO text.
- The catch block: a 401 response becomes the "Settings error: Incorrect or
  missing API key" error, and every other error is thrown again unchanged.

Modules:

- `Wrappers`: `Option` and `Result`.
- `StringOps`: `split(sep)[0]`, and `String.prototype.replace` with a string
  pattern.
- `Unicode`: UTF-16, code points and UTF-8.
- `UriComponent`: the encoder, and a percent-decoder that inverts it.
- `ZuluTime`: `convertToZuluTime`.
- `Prompt`: the instruction template.
- `Query`: reads a rendered `&key=value` query back into parameters, as a
  receiver of the link would. The URL's properties are stated through this
  reading.
- `CalendarUrl`: the URL assembly.
- `Action`: the outcome of the action once the reply is in.

Inputs the model takes as parameters:

- The host's `new Date(s).toISOString()` is a function from the string to an
  optional ISO text. None stands for the RangeError an invalid date raises.
- The clock reading behind `new Date()` is the ISO text of today.
- The parsed reply is an `EventDetails` value, or the error thrown before it.

Every error other than a 401 is thrown again unchanged
(google-calendar-chatgpt-assisted.ts:120), and `Action.Classify` does the same.

## Model

| member | source | states |
|---|---|---|
| ZuluTime.RemoveSeparators | google-calendar-chatgpt-assisted.ts:59 | `replace(/[-:]/g, '')` leaves no `-` and no `:` |
| ZuluTime.RemoveSeparatorsAppend | google-calendar-chatgpt-assisted.ts:59 | removing the separators commutes with concatenation, since the regex is global and matches single characters |
| ZuluTime.RemoveSeparatorsKeeps | google-calendar-chatgpt-assisted.ts:59 | text without `-` or `:` is unchanged by the replace |
| ZuluTime.CompactZulu | google-calendar-chatgpt-assisted.ts:59 | the converted text is non-empty, ends in `Z`, and holds no `-`, `:` or `.` (no fractional seconds) |
| ZuluTime.ConvertToZulu | google-calendar-chatgpt-assisted.ts:56-66 | the result is `""` exactly when toISOString throws; otherwise it has the compact shape |
| ZuluTime.CompactZuluLacks | google-calendar-chatgpt-assisted.ts:59 | a character other than `Z` absent from the ISO text is absent from the converted text |
| ZuluTime.CompactZuluOfIso | google-calendar-chatgpt-assisted.ts:56-66 | for toISOString's `YYYY-MM-DDTHH:mm:ss.sssZ` text with a four-digit year, the result is `YYYYMMDDTHHmmssZ` |
| ZuluTime.CompactZuluOfFields | google-calendar-chatgpt-assisted.ts:59 | for any all-digit year (after separator removal), the result is year, month, day, `T`, hour, minute, second, `Z` |
| ZuluTime.ZuluTextShape | google-calendar-chatgpt-assisted.ts:59 | that compact form has 16 characters: digits, with `T` at index 8 and `Z` at index 15 |
| ZuluTime.CompactZuluDropsNegativeYearSign | google-calendar-chatgpt-assisted.ts:59 | for toISOString's expanded negative year `-YYYYYY`, the replace also strips the sign |
| ZuluTime.CompactZuluExample | google-calendar-chatgpt-assisted.ts:59 | `2024-03-01T09:00:00.000Z` becomes `20240301T090000Z` |
| StringOps.FirstPiece | google-calendar-chatgpt-assisted.ts:59 | `split(sep)[0]` is a prefix without `sep`, followed by `sep` unless it is the whole string |
| StringOps.FirstPieceAt | google-calendar-chatgpt-assisted.ts:83 | the first piece is everything before the first separator |
| StringOps.IndexOf | google-calendar-chatgpt-assisted.ts:84 | the found index is an occurrence at or after `from`, and no earlier one exists |
| StringOps.ReplaceFirstAfter | google-calendar-chatgpt-assisted.ts:84 | replacing a pattern whose first character does not occur before it swaps that occurrence and keeps the rest |
| Prompt.FormattedDate | google-calendar-chatgpt-assisted.ts:83 | the formatted date is a prefix of the ISO text with no `T` |
| Prompt.TemplateHeadHasNoBrace | google-calendar-chatgpt-assisted.ts:46 | the template has no `{` before its placeholder, so the placeholder is the first match |
| Prompt.InstructionSubstitutesDate | google-calendar-chatgpt-assisted.ts:83-84 | the instruction is the template (line 46) with `{formattedDate}` replaced by the date, and the rest unchanged |
| Prompt.FormattedDateOfIso | google-calendar-chatgpt-assisted.ts:83 | for a four-digit-year ISO text, the date is `YYYY-MM-DD`, its first 10 characters |
| Prompt.InstructionForToday | google-calendar-chatgpt-assisted.ts:82-84 | the instruction states today's `YYYY-MM-DD` in place of the placeholder |
| Unicode.PairToCodePoint | google-calendar-chatgpt-assisted.ts:99 | a surrogate pair reads as a supplementary code point (at least U+10000) |
| Unicode.CodePointsDefinedIffWellFormed | google-calendar-chatgpt-assisted.ts:99 | reading code points fails exactly on strings with an unpaired surrogate |
| Unicode.Utf16AllOfCodePoints | google-calendar-chatgpt-assisted.ts:99 | re-encoding the code points read from a string gives the string back |
| Unicode.CodePointsOfUtf16All | google-calendar-chatgpt-assisted.ts:99 | reading the UTF-16 units of code points gives the code points back |
| Unicode.Utf8RoundTrip | google-calendar-chatgpt-assisted.ts:99-104 | strict UTF-8 decoding undoes the encoder's UTF-8 step |
| UriComponent.PercentTriple | google-calendar-chatgpt-assisted.ts:99 | an escaped octet is `%` followed by two upper-case hex digits |
| UriComponent.EncodeDefinedIffWellFormed | google-calendar-chatgpt-assisted.ts:99-104 | encodeURIComponent throws exactly on strings with an unpaired surrogate |
| UriComponent.EncodeRoundTrip | google-calendar-chatgpt-assisted.ts:99-104 | percent-decoding an encoded value and decoding its UTF-8 gives the original string |
| UriComponent.EncodeInjective | google-calendar-chatgpt-assisted.ts:99-104 | different strings never encode to the same text |
| UriComponent.EncodedAlphabet | google-calendar-chatgpt-assisted.ts:99-104 | the output holds only unescaped characters and `%XY` triples, so it has no `&`, `=`, `/`, space, `?` or `#` |
| Query.ParseRenderQuery | google-calendar-chatgpt-assisted.ts:107 | a query of `&key=value` segments, with no `&` or `=` in keys and no `&` in values, reads back into exactly its parameters |
| CalendarUrl.BuildFailsIffUnpairedSurrogate | google-calendar-chatgpt-assisted.ts:99-104 | building the URL throws exactly when a truthy text field holds an unpaired surrogate |
| CalendarUrl.BuildRendersParams | google-calendar-chatgpt-assisted.ts:99-107 | the URL is the base followed by one `&key=value` segment per present parameter, in order |
| CalendarUrl.QueryReadsBack | google-calendar-chatgpt-assisted.ts:99-107 | the URL starts with the base, and its query reads back into exactly the present parameters |
| CalendarUrl.UrlParamsOrdered | google-calendar-chatgpt-assisted.ts:107 | parameters come in the order text, dates, details, location, each at most once, with no other key |
| CalendarUrl.UrlParamsLookup | google-calendar-chatgpt-assisted.ts:99-104 | text parameters are present exactly for truthy fields and hold their encoding; `dates` is present exactly when both ends convert, and is start `/` end |
| CalendarUrl.CalendarUrlRoundTrip | google-calendar-chatgpt-assisted.ts:99-107 | reading the URL back gives ordered parameters; each text field is present iff truthy and decodes to the field; the range is present iff both conversions succeed |
| CalendarUrl.BaseUrlOnly | google-calendar-chatgpt-assisted.ts:99-107 | the URL is exactly the base iff no text field is truthy and at least one end fails to convert |
| CalendarUrl.EmptyEventGivesBaseUrl | google-calendar-chatgpt-assisted.ts:99-107 | with text fields absent or empty and a missing or empty start or end, the URL is exactly the base |
| CalendarUrl.EmptyStringActsAsAbsent | google-calendar-chatgpt-assisted.ts:99-104 | a field holding `""` builds the same URL as the field left out, and so do empty range ends |
| CalendarUrl.MissingEndOmitsRange | google-calendar-chatgpt-assisted.ts:100-102 | a missing `dates` object or a missing or empty start or end reads as `""` and leaves the range out |
| CalendarUrl.RangeOfTimestamps | google-calendar-chatgpt-assisted.ts:100-102 | two four-digit-year ISO ends give `&dates=YYYYMMDDTHHmmssZ/YYYYMMDDTHHmmssZ` |
| Action.Classify | google-calendar-chatgpt-assisted.ts:114-120 | no classified error is a 401; an error is kept exactly when it is not a 401; a 401 becomes the settings error |
| Action.GenerateCalendarURL | google-calendar-chatgpt-assisted.ts:88-121 | the action succeeds exactly when the reply parsed and the URL built; it then returns that URL; no error it throws carries a 401 |
| Action.FailedRequestOutcome | google-calendar-chatgpt-assisted.ts:112-120 | a failed request ends in the settings error exactly for a 401, or for that error itself; any other error is rethrown unchanged |
| Action.ParsedReplyOutcome | google-calendar-chatgpt-assisted.ts:99-120 | with a parsed reply, the action fails exactly on an unpaired surrogate in a truthy text field, and then with the URIError |

## Left out

- The HTTP call through axios, the bearer header and the response shape (google-calendar-chatgpt-assisted.ts:76-95) are network I/O. The model starts from the parsed reply or the error thrown before it.
- `JSON.parse` of the reply (google-calendar-chatgpt-assisted.ts:96) is a foreign parser. The reply is an `EventDetails` value. JSON values that are not strings (numbers, objects, `null` for the whole record) are not modelled.
- `new Date(...)` and `toISOString` (google-calendar-chatgpt-assisted.ts:58-59, 82-83) depend on the host's parser, time zone and clock. They are inputs.
- `print` and `popclip.openUrl` (google-calendar-chatgpt-assisted.ts:60, 63, 108-109, 118) are host side effects.
- The module-level `messages` history and its `push` calls (google-calendar-chatgpt-assisted.ts:48, 85-86, 95) belong to the network round trip and the host process lifetime.
- The `async`/`Promise` plumbing and the `exports.actions` registration (google-calendar-chatgpt-assisted.ts:75, 125-128) are not modelled.
- StringOps.ReplaceFirst: the `$` patterns of `String.prototype.replace` are not interpreted. The replacement here is a date, which holds no `$`.
- UriComponent.EncodeRoundTrip: the decoder is the model's own strict inverse, not the host's `decodeURIComponent`. It accepts only ASCII characters outside `%XY` triples.
- CalendarUrl.CalendarUrlRoundTrip: it assumes the host's ISO text holds no `&`. toISOString writes only digits, `-`, `+`, `:`, `.`, `T` and `Z`.
- ZuluTime.CompactZuluOfIso: proved for four-digit years only. For toISOString's expanded years, CompactZuluDropsNegativeYearSign shows the sign of a negative year is stripped. A positive expanded year keeps its `+`, since only `-` and `:` are removed: `+275760-09-13T00:00:00.000Z` becomes `+2757600913T000000Z`. No lemma covers that case.
- Action.UriError: the message text of a URIError is the engine's own wording. The model uses "URI malformed"; ECMA-262 fixes only the name `URIError`.
- Action.Classify: an error value that is not an object, and a `response` that is present but falsy, are not modelled. The response is an optional record.

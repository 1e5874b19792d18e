# Station information extraction, modelled in Dafny

This project models the extraction core of `get_stationinfo.py`. That code
scrapes a Japanese Wikipedia article about a railway station and turns its
infoboxes into a record holding these fields:

- the station name: the first row of the first infobox;
- latitude and longitude: degrees, minutes and seconds (`北緯…度…分…秒 東経…`),
  converted by `dms2deg`;
- the daily passenger count: the digits before `人/日` in `人員` rows, with the
  largest candidate winning;
- the neighbouring stations: article links in the rows showing `◄` or `►`,
  percent-decoded into a set.

An infobox is modelled as the sequence of rows that the row filter keeps. Each
row is its text plus the `href` of each of its links (`Infobox.Row`).

Python exceptions are modelled as a `Result`. `Err(IndexError)` stands for
`split(...)[1]` or `rows[0]` on too few pieces. `Err(ValueError)` stands for
`float()` or `int()` on text that is not a number. Every function that raises
in the source returns the matching error here.

The Python builtins the code relies on are modelled explicitly:

| builtin | Dafny module |
|---|---|
| `in` on strings, `split(sep)[i]`, `strip` | `PyStr` |
| `float`, `int`, `re.sub('\D', '', …)` | `PyNum` |
| `unquote`, `quote` | `PyUrl` |

The loops of `_get_location`, `_get_next_urls` and `get_stationinfo` are
methods. Each is proved equal to a recursive specification function, and the
properties are proved about those functions.

Three behaviours of the code are easy to miss. The model follows the code and
proves what it does:

- **The last coordinate row wins.** `_get_location` has no `break`. Every later
  row carrying `北緯` overwrites the location found earlier in the same infobox
  (`Coordinates.LastLatitudeRowWins`). Across infoboxes, the first infobox that
  yields a location still wins.
- **A passenger row without digits raises.** If no digit comes before `人/日`,
  `int('')` raises ValueError and the whole extraction fails
  (`Passengers.PassengerCount`, `Passengers.CollectPassengersOk`). It does not
  just contribute nothing.
- **The neighbours key is `next_urls`.** The result key is `next_urls`, a set.
  The docstring of `get_stationinfo` (get_stationinfo.py:82-84) shows a
  `next_article` list instead.

## Model

| member | source | states |
|---|---|---|
| PyStr.IndexOf | get_stationinfo.py:37 | the result is the first index where the separator occurs, and None means it occurs nowhere |
| PyStr.Split | get_stationinfo.py:39 | `split` always yields at least one piece |
| PyStr.Segment | get_stationinfo.py:39-47 | `split(sep)[i]` raises ValueError on an empty separator; piece 0 always exists, is a prefix and holds no separator; piece 1 exists exactly when the separator occurs; otherwise the error is IndexError |
| PyStr.SplitHead | get_stationinfo.py:39 | piece 0 is the prefix before the first occurrence of the separator, and the whole text when there is none |
| PyStr.SplitJoin | get_stationinfo.py:39 | joining the pieces of a split with the separator gives the original text back |
| PyStr.SplitPartsFree | get_stationinfo.py:39 | no piece of a split contains the separator |
| PyStr.SplitAfter | get_stationinfo.py:39-41 | in `b + sep + c`, where `b` shares no character with `sep`, piece 0 is `b` and piece 1 is piece 0 of `c` |
| PyStr.TrimStart | get_stationinfo.py:40 | `lstrip` removes exactly the leading whitespace |
| PyStr.TrimEnd | get_stationinfo.py:40 | `rstrip` removes exactly the trailing whitespace |
| PyStr.StripUnchanged | get_stationinfo.py:40 | stripping leaves text that neither starts nor ends with whitespace unchanged |
| PyNum.NatToStringRoundTrip | get_stationinfo.py:122 | reading back the decimal digits of `n` gives `n` |
| PyNum.ParseUnsigned | get_stationinfo.py:40-42 | an accepted unsigned decimal is never negative, holds at least one digit and nothing but digits and points; a digit string is accepted exactly when it is non-empty; every rejection is ValueError |
| PyNum.ParseFloat | get_stationinfo.py:40-42 | `float` of blank text raises ValueError; text it accepts is, once stripped, digits and points with at least one digit, after an optional leading sign; so a non-numeric string raises, and ValueError is the only error it raises |
| PyNum.ParseFloatRoundTrip | get_stationinfo.py:40-42 | `float` reads a written decimal `w` or `w.f` back as exactly `w + f/10^len(f)` |
| PyNum.ParseWholeText | get_stationinfo.py:40-41 | `float(str(w)) == w` |
| PyNum.PyInt | get_stationinfo.py:122 | `int` of blank text raises ValueError; on a digit string it succeeds exactly when the string is non-empty, with the string's value |
| PyNum.RemoveNonDigits | get_stationinfo.py:122 | the result is all digits and no longer than the input, and it is empty exactly when the input has no digit |
| PyNum.RemoveNonDigitsConcat | get_stationinfo.py:122 | removing non-digits distributes over concatenation |
| PyNum.RemoveNonDigitsExtremes | get_stationinfo.py:122 | a digit string is kept whole, and a text without digits vanishes |
| PyUrl.Unquote | get_stationinfo.py:57 | decoding never lengthens a text, and a text without `%` is unchanged |
| PyUrl.UnquotePrefix | get_stationinfo.py:57 | a prefix without `%` passes through decoding unchanged |
| PyUrl.Quote | get_stationinfo.py:95 | encoding never shortens a text |
| PyUrl.UnquoteQuote | get_stationinfo.py:95 | decoding what `quote` encoded gives the ASCII text back |
| Infobox.InfoboxTitle | get_stationinfo.py:27-30 | the title exists exactly when the infobox has rows, and is the text of the first row; otherwise IndexError |
| Coordinates.Dms2Deg | get_stationinfo.py:10-25 | zero minutes and seconds give the degrees themselves |
| Coordinates.Dms2DegWholeDegrees | get_stationinfo.py:24 | `dms2deg(d, 0, 0) == d` for every d |
| Coordinates.Dms2DegMonotone | get_stationinfo.py:24 | the conversion is monotone in each argument, and strictly increasing when any argument strictly grows |
| Coordinates.DmsText | get_stationinfo.py:39 | the figures after a marker exist exactly when the marker occurs, and hold no `秒` |
| Coordinates.ParseDms | get_stationinfo.py:40-43 | figures without `度`, or without `分` after `度`, raise |
| Coordinates.RowLocation | get_stationinfo.py:39-48 | a coordinate row without `東経` raises |
| Coordinates.LocationFrom | get_stationinfo.py:36-48 | the scan keeps latitude and longitude both known or both unknown |
| Coordinates.Location | get_stationinfo.py:32-49 | a successful scan yields both coordinates or neither |
| Coordinates.GetLocation | get_stationinfo.py:32-49 | the loop computes `Location(rows)`, including the error it raises |
| Coordinates.LatitudeRows | get_stationinfo.py:37-38 | a row is kept exactly when it is a row of the infobox that carries `北緯` |
| Coordinates.LocationIgnoresOtherRows | get_stationinfo.py:37-38 | rows without `北緯` never affect the result |
| Coordinates.LocationOkIff | get_stationinfo.py:36-48 | the scan succeeds exactly when every `北緯` row is well formed |
| Coordinates.LocationWithoutLatitudeRows | get_stationinfo.py:34-38 | without a `北緯` row the location stays as it was (unknown at the start) |
| Coordinates.LastLatitudeRowWins | get_stationinfo.py:36-48 | when the scan succeeds, the last `北緯` row decides the location |
| Coordinates.ParseDmsRoundTrip | get_stationinfo.py:40-43 | a written angle `d度m分s.f` is read back as exactly `dms2deg(d, m, s.f)` |
| Coordinates.RowLocationRoundTrip | get_stationinfo.py:39-48 | a row `caption 北緯<angle>秒 東経<angle>秒` yields exactly the two written angles |
| Coordinates.KagoshimaStationRow | get_stationinfo.py:77-80 | the Kagoshima row gives `dms2deg(31, 36, 5.39)` and `dms2deg(130, 33, 47.21)`, within 1e-6 of 31.601497 and 130.563114 |
| Navigation.ArticleLinks | get_stationinfo.py:56 | exactly the links whose target matches `^(/wiki/)((?!:).)*$` are kept |
| Navigation.RowUrls | get_stationinfo.py:57 | every decoded url still starts with `/wiki/` |
| Navigation.NextUrls | get_stationinfo.py:51-58 | every collected url starts with `/wiki/` |
| Navigation.GetNextUrls | get_stationinfo.py:51-58 | the loop computes `NextUrls(rows)` |
| Navigation.NextUrlsMembership | get_stationinfo.py:54-57 | a url is collected exactly when some `◄`/`►` row links to an article path that decodes to it |
| Navigation.NextUrlsRowSet | get_stationinfo.py:53-57 | the order and repetition of rows do not matter |
| Navigation.EncodedColonPasses | get_stationinfo.py:56-57 | a colon written as `%3A` passes the namespace filter and is decoded into the url |
| Navigation.ArticleHrefOf | get_stationinfo.py:56 | `/wiki/` followed by a title without colon or line break matches the pattern |
| Navigation.NeighbourLinks | get_stationinfo.py:55-57 | a navigation row linking two stations and a namespace page yields exactly the two station paths |
| Navigation.KagoshimaNavigation | get_stationinfo.py:82-84 | Kagoshima's navigation row yields its two neighbours, drops `/wiki/Help:IPA`, and other rows add nothing |
| Passengers.PassengerCount | get_stationinfo.py:122 | the figure exists exactly when a digit comes before the first `人/日`, is the value of all those digits, and otherwise raises ValueError |
| Passengers.CollectPassengers | get_stationinfo.py:120-122 | candidates are only ever appended |
| Passengers.CollectPassengersOk | get_stationinfo.py:120-122 | collecting succeeds exactly when every `人員` row has a figure |
| Passengers.CollectPassengersValues | get_stationinfo.py:120-122 | the candidates are the earlier ones plus the figure of every `人員` row, and nothing else |
| Passengers.CollectPassengersNonNegative | get_stationinfo.py:122 | every candidate is at least 0 |
| Passengers.PassengerCountBefore | get_stationinfo.py:122 | the figure is read from all the text before the first `人/日` |
| Passengers.PassengerCountRoundTrip | get_stationinfo.py:122 | a caption without digits, then a figure whose digits spell `n` (thousands separators allowed), then `人/日`, counts `n` |
| Passengers.KagoshimaPassengers | get_stationinfo.py:81 | `乗車人員 1,597人/日` counts 1597 |
| Passengers.CaptionDigitsAreTaken | get_stationinfo.py:122 | the digits of the caption are put in front of the digits of the figure |
| Passengers.DailyCaption | get_stationinfo.py:122 | `1日人員 5人/日` counts 15, not 5 |
| StationInfo.Max | get_stationinfo.py:124 | the maximum is an element of the list and no element exceeds it |
| StationInfo.NameStep | get_stationinfo.py:104-105 | a known name is kept; otherwise the first row's text is taken, or IndexError is raised |
| StationInfo.LocationStep | get_stationinfo.py:109-110 | a known latitude keeps the location; otherwise this infobox is scanned |
| StationInfo.Step | get_stationinfo.py:100-122 | one infobox adds its links to the union and only appends candidates |
| StationInfo.AggregateFrom | get_stationinfo.py:100-122 | the fold only grows the link set and the candidate list |
| StationInfo.StationInfoOf | get_stationinfo.py:86-136 | no infobox gives `(None, None, None, 0, {})`; the passenger figure is at least 0; latitude and longitude are known together; every link starts with `/wiki/` |
| StationInfo.GetStationInfo | get_stationinfo.py:86-136 | the loops compute `StationInfoOf(boxes)`, including the first exception raised |
| StationInfo.StepKeepsInvariant | get_stationinfo.py:100-122 | one infobox keeps coordinates paired, candidates non-negative and links article paths |
| StationInfo.AggregateKeepsInvariant | get_stationinfo.py:100-122 | the whole fold keeps that invariant |
| StationInfo.NameKept | get_stationinfo.py:104-105 | once known, the name is never replaced |
| StationInfo.NameFromFirstInfobox | get_stationinfo.py:104-105 | the name is the first row of the first infobox, and a first infobox without rows raises IndexError |
| StationInfo.LocationKept | get_stationinfo.py:109-110 | once the latitude is known, the location is never replaced |
| StationInfo.FirstLocationWins | get_stationinfo.py:109-110 | the location comes from the first infobox that has one, after infoboxes that have none |
| StationInfo.LocationFromFirstLocatedInfobox | get_stationinfo.py:109-110 | the record's location is that of the first located infobox; without one, both coordinates are None and no infobox has a location |
| StationInfo.AggregateUrls | get_stationinfo.py:116-117 | a url is in the result exactly when it was known before or some infobox yields it |
| StationInfo.UrlsUnion | get_stationinfo.py:116-117 | the record's links are the union of the links of all infoboxes |
| StationInfo.AggregateCandidates | get_stationinfo.py:119-122 | the candidate list holds exactly the figures of all `人員` rows of all infoboxes |
| StationInfo.PassengersAreMaximum | get_stationinfo.py:119-124 | the passenger figure is the largest candidate of any infobox, or 0 when there is none |
| StationInfo.NameFirstLocationFallsThrough | get_stationinfo.py:103-113 | with a first infobox titled but unlocated and a second located one, the name comes from the first and the location from the second |

## Left out

- Fetching the article (`urlopen`) and parsing the HTML with BeautifulSoup are not modelled; this is I/O and a foreign library. The infoboxes arrive as input. Each is the sequence of rows kept by the `find_all('tr', …)` filter, each row reduced to its text and link targets.
- Building the target url (`wiki_url + quote(article_url)`, line 95) is left out; only `quote` itself is modelled.
- Logging (lines 92-94, 99, 106, 112-113, 125-129) is left out; it has no effect on the result.
- The random walk of the `__main__` block and `main.py` are not part of this model; they are a driver around `get_stationinfo`.
- Coordinates.Dms2Deg: computes on exact reals, not IEEE doubles; the rounding of `float` arithmetic is not modelled.
- PyNum.ParseFloat: accepts only plain decimal notation, with an optional sign and at most one point. Exponents, `inf`/`nan` and `_` digit separators are reported as ValueError, though Python accepts them. Such text does not occur between the coordinate marks.
- PyNum.IsDigit: recognises only ASCII digits. Python's `\D` and `int` also treat other Unicode decimal digits (such as full-width `１`) as digits.
- PyNum.ParseFloat: reads ASCII digits only. Python's `float` also accepts other Unicode decimal digits, so `float('３１')` is 31.0 where the model raises ValueError.
- PyNum.PyInt: has no limit on the number of digits. Since Python 3.11, and in the security releases 3.10.7, 3.9.14, 3.8.14 and 3.7.14, `int` raises ValueError on a decimal string of more than 4300 digits (`sys.int_max_str_digits`).
- Passengers.PassengerCount: inherits that missing limit. A 人員 row with more than 4300 digits before 人/日 raises ValueError at line 122 on those Python versions, while the model returns the number.
- PyUrl.Unquote: decodes only escapes of ASCII characters. An escape of a byte of 0x80 or above, which Python decodes as part of a UTF-8 sequence, is kept as written.
- PyUrl.Quote: is defined on ASCII text only. Python first encodes non-ASCII characters as UTF-8 bytes and escapes each byte.
- Exceptions other than IndexError and ValueError cannot arise from the modelled lines and are not represented.

# metamusic cover and metadata transformations, in Dafny

metamusic fetches an album page, reads the album's metadata from the
page's embedded structured data, downloads the largest cover image and
stretches (resizes) it to a square. Around the network and image I/O, `main.py` holds
a handful of small, pure transformations. This project models those as
Dafny functions and proves what they guarantee:

- **Name sanitiser** (`to_snake_case`, module `SnakeCase`): ASCII capitals
  are lowered and lower-case ASCII letters and digits are kept. Each run of
  other characters between kept characters becomes one `_`. Separators at
  the start add nothing, and a trailing `_` is stripped.
  The output is always a well-formed snake-case token. It is a fixed
  point, so sanitising twice is sanitising once. A separator joins the
  sanitised halves with exactly one `_` when both are non-empty.
- **Size label** (`format_cover_size`, module `CoverSize`): `2000` gives
  `2k`, `1500` gives `1.5k` and `1234` gives `1234`. A parser reads every
  label back to the number it came from, so no two sizes share a label.
- **Resolution upgrader** (`get_high_resolution_album_cover_url`, module
  `CoverUrl`): the leftmost `\d+x\d+` search is written out explicitly.
  It returns `None` exactly when no digits-`x`-digits substring exists.
  Otherwise the rewrite is `re.sub` with the found token as a literal
  pattern (module `Strings`, `ReplaceAll`).
- **Srcset slicing** in `download_cover_art` (module `Srcset`): Python's
  `split` semantics are kept, and the URL is the last candidate up to its
  first space.
- **Track numbering** in `parse_album_info`, plus `AlbumInfo` and
  `TrackInfo` (module `Album`).
- **Squaring decision** of `square_cover_image` on dimensions only
  (module `Squarer`).
- **Cover file name** built in `main` (module `CoverFile`).

Supporting modules: `Wrappers` (`Option`, `Result`) and `Ascii`
(character classes and `str(n)` for non-negative integers; the negative
case is `CoverSize.IntString`).

The comment at main.py:72 says the matched values are replaced with
`10000x10000`. The code calls `re.sub(m.group(0), "10000x10000", url)`,
which rewrites every non-overlapping literal occurrence of that token, not
just the matched one. `UpgradeCoverUrl` models the code as written. See
"Findings".

## Model

| member | source | states |
|---|---|---|
| `SnakeCase.ToSnakeCase` | main.py:129-139 | The result uses only `a`-`z`, `0`-`9` and `_`. It never starts or ends with `_` and never has two `_` in a row. It is no longer than the input. |
| `SnakeCase.SeparatorSplits` | main.py:132-138 | A non-kept character between two parts gives the two sanitised parts joined by exactly one `_`. If either side has no kept character, the other side is returned alone. |
| `SnakeCase.KeptOnly` | main.py:132-135 | A name made only of ASCII letters and digits comes back lowered, character for character. |
| `SnakeCase.LowerAt` | main.py:132-135 | The lowered form has each character in place: a capital becomes its lower-case letter, and a lower-case letter or digit is copied. |
| `SnakeCase.SeparatorPadding` | main.py:131-138 | One leading or one trailing separator character does not change the result. |
| `SnakeCase.SeparatorRuns` | main.py:131-138 | Any runs of separator characters before and after the name do not change the result. This covers all the whitespace that `strip()` removes. |
| `SnakeCase.FixedPoint` | main.py:129-139 | A string is left unchanged exactly when it is already a well-formed snake-case token. |
| `SnakeCase.Idempotent` | main.py:129-139 | Sanitising an already sanitised name returns it unchanged. |
| `SnakeCase.ScanBuffer` | main.py:130-137 | Through the loop, the buffer holds only snake characters, never starts with `_` and never has `__`. Each input character adds at most one character. |
| `Ascii.DecimalRoundTrip` | main.py:126 | Reading back the decimal digits of `str(n)` gives `n`. |
| `Ascii.DecimalInjective` | main.py:126 | Different non-negative integers have different `str`. |
| `Ascii.DecimalCanonical` | main.py:126 | A digit string without a leading zero is `str` of its own value. |
| `Ascii.Decimal` | main.py:126 | `str(n)` for a non-negative `n` is a non-empty digit string without a leading zero. `DecimalRoundTrip` shows its digits read back as `n`. |
| `CoverSize.FormatCoverSize` | main.py:114-126 | The label is never empty. Its meaning is given by `UnitSuffix`, and by `RoundTrip` and `Injective` against an independent parser. |
| `CoverSize.IntString` | main.py:126 | `str(n)` is never empty and starts with `-` exactly when `n` is negative: `-` followed by the digits of `-n`, otherwise `Decimal(n)`. |
| `CoverSize.IntStringRoundTrip` | main.py:126 | The parser reads `str(n)` back as `n` for every integer, sign included. |
| `CoverSize.UnitSuffix` | main.py:117-126 | The label ends in the unit `k` exactly when the size is a multiple of 100. Both `k` branches require that, and `str(n)` of any other size ends in a digit. |
| `CoverSize.Cases` | main.py:114-126 | For a non-negative size, a multiple of 1000 gives `str(n/1000)` followed by `k`. A multiple of 100 that is not a multiple of 1000 gives the thousands, `.`, the hundreds digit and `k`. Anything else gives `str(n)`. This only spells out the branches; the substance is in `RoundTrip` and `Injective`. |
| `CoverSize.SignAndMagnitude` | main.py:114-126 | A negative size is labelled `-` followed by the label of its absolute value. Python's floored `%` gives the same remainder tests for `n` and `-n`. |
| `CoverSize.RoundTrip` | main.py:114-126 | Parsing any label gives back the integer it was made from. |
| `CoverSize.Injective` | main.py:114-126 | Two different sizes never get the same label. |
| `CoverSize.Examples` | main.py:117-126 | `2000` gives `2k`, `1500` gives `1.5k` and `1234` gives `1234`. |
| `Strings.Split` | main.py:100-104 | `split(sep)` always returns at least one piece. |
| `Strings.SplitPiecesSeparatorFree` | main.py:100-104 | No piece returned by `split(sep)` contains the separator. |
| `Strings.JoinSplit` | main.py:100-104 | Joining the pieces with the separator gives back the input, so `split` loses nothing but the separators. |
| `Strings.SplitJoin` | main.py:100-104 | Splitting a join of separator-free pieces returns those pieces. The decomposition is therefore unique. |
| `Strings.SplitAround` | main.py:100-104 | Splitting `a + sep + b` gives the pieces of `a` followed by the pieces of `b`. |
| `Strings.ReplaceAll` | main.py:73 | The literal `re.sub` keeps the length when pattern and replacement have equal length. Replacing the pattern by itself changes nothing. `ReplaceAllAbsent` and `ReplaceAllFirst` describe the rest. |
| `Strings.ReplaceAllAbsent` | main.py:73 | With no occurrence of the pattern, the literal `re.sub` returns the string unchanged. |
| `Strings.ReplaceAllFirst` | main.py:73 | Text before the first occurrence is copied and that occurrence is replaced. Replacement then resumes right after it, so replaced occurrences never overlap. |
| `Strings.ReplaceAllSingle` | main.py:73 | With exactly one occurrence, the result is `prefix + replacement + suffix`. |
| `CoverUrl.SearchFrom` | main.py:66 | `re.search(r'\d+x\d+')` returns the leftmost position where the regex matches, with both digit runs greedy. It returns nothing only when the regex matches nowhere. |
| `CoverUrl.TokenFoundIff` | main.py:66-70 | The token is absent, and the function returns `None`, exactly when no substring has the form digits-`x`-digits. Otherwise the token is the leftmost such substring, with both digit runs maximal. |
| `CoverUrl.UpgradeCoverUrl` | main.py:64-76 | The result is `None` exactly when the URL has no digits-`x`-digits substring. Otherwise the text before the leftmost token is kept and the token becomes `10000x10000`. Every later literal occurrence of the token is rewritten too. |
| `CoverUrl.SingleTokenAgrees` | main.py:66-76 | When the matched token occurs only once in the URL, the rewrite is `prefix + "10000x10000" + suffix`. |
| `CoverUrl.AsWrittenRewritesLaterTokens` | main.py:73 | On `1x1/11x1` the source's rewrite also changes the later token `11x1` into `110000x10000`. The matched-span rewrite leaves it alone. |
| `CoverUrl.UpgradeMatchedSpan` | main.py:64-76 | Corrected rewrite. It returns `None` exactly when no token exists. Otherwise only the leftmost token's span is replaced and every other character is kept. |
| `CoverUrl.MatchedSpanIdempotent` | main.py:64-76 | Applying the corrected rewrite to its own output changes nothing. |
| `Srcset.CandidateUrl` | main.py:100-104 | The extracted URL contains no `,` and no space. |
| `Srcset.CandidateUrlIsHeadOfLast` | main.py:100-104 | The extracted URL is the last comma-separated candidate cut at its first space. It is empty when that candidate starts with a space. |
| `Album.AlbumInfo.NumberOfTracks` | main.py:32-34 | The number of tracks is the length of the track list: zero exactly for an empty list, and for a list numbered from 1 the number of its last track. |
| `Album.NumberFrom` | main.py:150-153 | Numbering yields one track per name. The k-th track carries the k-th name and the number `first + k`. |
| `Album.NumberTracksRoundTrip` | main.py:150-153 | `n` names give `n` tracks numbered 1 to `n` in order, and the names read back unchanged. |
| `Album.WellNumberedIffNumbered` | main.py:150-153 | A track list is numbered by 1-based position exactly when it is the numbering of its own names. |
| `Album.BuildAlbumInfo` | main.py:142-163 | An empty genre list is the error. Otherwise artist, album, date and first genre are copied, and `number_of_tracks` equals the number of track names. The tracks are numbered 1 to `n` in document order. |
| `Squarer.PlanSquare` | main.py:166-181 | `side` is `max(width, height)`. There is no resize exactly when `width == height`, and otherwise the target is `(side, side)`. The logged label is `format_cover_size(side)`. |
| `Squarer.SquaredIsSmallestCover` | main.py:171-181 | The resulting dimensions are square, and both sides are at least the original's. No smaller square has both sides at least the original's. |
| `Squarer.SquareIdempotent` | main.py:178-181 | Squaring an already squared cover makes no resize. |
| `CoverFile.CoverFileName` | main.py:216-218 | The name starts with `album_cover_`, ends with `.jpeg` and uses only `a`-`z`, `0`-`9`, `_` and `.`. |
| `CoverFile.NameStaysLocal` | main.py:216-218 | The derived name never contains `/` and never starts with `.`. |
| `CoverFile.NameFromParts` | main.py:216-218 | Between `album_cover_` and `.jpeg` sit `to_snake_case(artist)`, one `_` and `to_snake_case(album)`. |
| `CoverFile.SanitisedPartsSameName` | main.py:216-218 | The name depends on the metadata only through its sanitised form: sanitised metadata gives the same file name. |
| `CoverFile.NamesCollide` | main.py:216-218 | Different metadata can share a file: artist `a b` with album `c` and artist `a` with album `b c` both give `album_cover_a_b_c.jpeg`. |

## Left out

- HTTP fetching in `get_html_soup` and `download_jpeg_image` (main.py:52-61, 79-90), including their status-code checks: network I/O and file writes.
- BeautifulSoup lookups and `json.loads` (main.py:95-97, 144-147): foreign library calls. The model starts from the looked-up `srcset` string and from the decoded fields in `AlbumData`. The `KeyError`/`AttributeError` raised for a missing element or key is not modelled. A `genre` that is a string instead of a list is not modelled either.
- PIL `Image.open`, `resize` and `save` (main.py:167, 184, 189): image decoding and bicubic resampling. Only the dimension arithmetic is kept.
- Logging (main.py:10-12, 57, 69, 85, 110, 174-175, 186, 192-199) and the interactive `input()` in `main` (main.py:206): side effects with no stateable behaviour. The logged size label is still computed in `Squarer.PlanSquare`.
- The `__str__` pretty-printers (main.py:20-21, 36-49): display formatting only.
- The orchestration in `main` and `download_cover_art` (main.py:107-111, 202-215, 219-224): it only chains the modelled steps with the left-out I/O. The cover file name built at main.py:216-218 is modelled in `CoverFile`.
- CoverUrl.SearchFrom: Python's `\d` also matches non-ASCII decimal digits (Unicode category Nd). The model treats only `0`-`9` as digits, which is what image URLs contain.
- CoverSize.FormatCoverSize: the source divides in floating point. The model uses exact integer arithmetic, which agrees as long as `n / 1000` is exact to one decimal in a double, roughly `|n|` below 10^17. Beyond that, float rounding is not modelled.
- SnakeCase.ToSnakeCase: the leading `strip()` is not applied. Python's whitespace characters are never kept, and `SeparatorRuns` shows that any leading or trailing separators do not change the result.

## Findings

| source | as written | input that shows it | evidently intended | confidence | as-written member | corrected member |
|---|---|---|---|---|---|---|
| main.py:73 | `re.sub(m.group(0), "10000x10000", url)` rewrites every literal occurrence of the matched token, including occurrences inside later, longer resolution tokens | `1x1/11x1` becomes `10000x10000/110000x10000` | replace only the matched span, giving `10000x10000/11x1` | medium, not executed | `CoverUrl.AsWrittenRewritesLaterTokens` | `CoverUrl.UpgradeMatchedSpan` |

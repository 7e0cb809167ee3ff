# flask-compress: Accept-Encoding negotiation

A Dafny model of the part of flask-compress that decides how a response is
encoded:

- **Catalog normalisation.** The `COMPRESS_ALGORITHM` setting becomes the
  ordered list `enabled_algorithms`. The setting can be one name, a
  comma-separated string or a list.
- **Algorithm choice.** `_choose_compress_algorithm(accept_encoding)` parses
  the client's `Accept-Encoding` header and picks one catalog entry, or
  nothing. The header syntax is the list of section 12.5.3 of RFC 9110, with
  the qvalue weights of section 12.4.2 of RFC 9110.
- **The response step.** It reads `COMPRESS_MIMETYPES`, `COMPRESS_LEVEL` and
  `COMPRESS_MIN_SIZE`, then decides whether a response is compressed at all.

The model follows the behaviour asserted by `tests/test_flask_compress.py`:
each configuration and negotiation test there is a proved lemma. Where the
tests are silent, the model makes the choices listed under "Assumptions".

Modules, one file each:

| file | module | contents |
|---|---|---|
| `wrappers.dfy` | `Wrappers` | `Option` |
| `text.dfy` | `Text` | Python's `str.strip` (with the white space set of `str.isspace`), `str.split` and `str.join` on `seq<char>` |
| `qvalue.dfy` | `QValue` | qvalues as integer thousandths 0..1000: parser and canonical printer |
| `accept_encoding.dfy` | `AcceptEncoding` | header parsing into `Preference(coding, quality)` values, and a printer |
| `catalog.dfy` | `Catalog` | `COMPRESS_ALGORITHM` to `enabled_algorithms` |
| `negotiation.dfy` | `Negotiation` | the choice: a declarative rule (`IsChoice`), a recursive function (`Choose`) and a loop (`Negotiate`) |
| `compression.dfy` | `Compression` | configuration defaults and the after-request step |
| `scenarios.dfy` | `Scenarios` | the test vectors, each as a lemma |

## Assumptions

- **Qualities.** A quality is an integer number of thousandths, so
  `0.999 < 1` holds exactly.
- **Qvalue grammar.** A qvalue must follow the grammar of section 12.4.2 of
  RFC 9110: `0`, `0.` plus up to three digits, `1`, or `1.` plus up to three
  zeros.
- **Malformed elements.** The Accept-Encoding syntax of section 12.5.3 of
  RFC 9110 allows only a weight `;q=<qvalue>` after a coding. An element
  whose text after its first `;` is anything else is dropped: a `q=` value
  that breaks the qvalue grammar, another parameter (`gzip;level=1`), or a
  weight followed by another parameter (`gzip;q=0.5;level=1`)
  (`AcceptEncoding.OtherParameterDropsItem`). An empty element is dropped
  too.
- **Missing weight.** A coding with no `q=` has quality 1.0, which the tests
  state (lines 203-208).
- **Refusal.** `q=0` makes a coding unacceptable, as section 12.4.2 of
  RFC 9110 says. `coding;q=0` parses to quality 0
  (`AcceptEncoding.ZeroWeightItem`). A `*` in the same header does not
  bring that coding back.
- **Wildcard.** `*` is never a candidate in its own right. When no catalog
  entry is named with a nonzero quality, a `*` with nonzero quality selects
  the first catalog entry the client has not refused.
- **Bare wildcard.** A bare `*`, like any coding without a weight, parses
  to quality 1.0. The docstring of the test at lines 210-215 calls the
  wildcard's default quality 0.0, but the test at lines 180-186 needs a
  bare `*` to be accepted: with it the model gives `zstd` for that header
  (`Scenarios.MultipleAlgosWithWildcard`). The lower-quality behaviour the
  docstring describes comes from the fallback rule instead: a `*` never
  displaces a named entry, however low that entry's weight, so the model
  gives `br` for the header at lines 210-215
  (`Scenarios.DefaultWildcardQuality`).
- **Tie-break.** Among equally wanted candidates, the one earliest in the
  catalog wins. The client's own order plays no part.
- **Codings.** They are compared exactly: no case folding. `identity` is an
  ordinary coding name.
- **White space.** `strip` removes exactly the characters `str.isspace`
  holds for: tab to CR (U+0009 to U+000D), U+001C to U+001F, space, U+0085,
  U+00A0, U+1680, U+2000 to U+200A, U+2028, U+2029, U+202F, U+205F and
  U+3000.
- **Catalog shapes.** A string setting is split at every comma and each
  piece is stripped, keeping order and empty pieces. A list setting is kept
  as it is. Neither shape is de-duplicated.

## Model

| member | source | states |
|---|---|---|
| Catalog.EnabledAlgorithms | tests/test_flask_compress.py:133-149 | a list setting is the catalog itself, in its order; a string setting gives one entry per comma-separated piece (at least one), each stripped and comma-free |
| Catalog.SingleNameSetting | tests/test_flask_compress.py:133-137 | a single name, the backwards-compatible shape, is a one-entry catalog holding that name |
| Catalog.CommaSeparatedSetting | tests/test_flask_compress.py:139-143 | names joined by commas, each with any surrounding white space, come back as exactly those names in order |
| Catalog.ShapesAgree | tests/test_flask_compress.py:139-149 | the comma-separated string of a list of names gives the same catalog as the list itself |
| Scenarios.SettingSimpleString | tests/test_flask_compress.py:133-137 | `'gzip'` gives `['gzip']` |
| Scenarios.SettingCommaSeparatedString | tests/test_flask_compress.py:139-143 | `'gzip, br, zstd'` gives `['gzip', 'br', 'zstd']` |
| Scenarios.SettingList | tests/test_flask_compress.py:145-149 | `['gzip', 'br', 'deflate']` is kept unchanged |
| QValue.ParseQValue | tests/test_flask_compress.py:188-208 | an accepted qvalue is the exact decimal written: a `0.f` value times 10^len(f) equals f times 1000, and only a value starting with `1` is 1.0; every `0.` plus up to three digits is accepted, `0` is 0, and `1`, `1.`, `1.0`, `1.00` and `1.000` are 1.0 |
| QValue.ParseFormat | tests/test_flask_compress.py:203-208 | every quality, printed canonically and parsed back, is the same quality, so 0.999 and 1.0 stay distinct |
| AcceptEncoding.ParseItem | tests/test_flask_compress.py:190-212 | a blank element gives nothing; a parsed coding is non-empty, stripped and free of `;`, and of `,` whenever the element is |
| AcceptEncoding.ParseHeader | tests/test_flask_compress.py:151-215 | every parsed coding is a well-formed coding; a blank or absent header holds no preferences |
| AcceptEncoding.DefaultQualityIsOne | tests/test_flask_compress.py:203-208 | a coding without a weight, after any white space, has quality 1.0 |
| AcceptEncoding.WeightedItem | tests/test_flask_compress.py:188-201 | `coding;q=v` has exactly the quality `v` spells |
| AcceptEncoding.SingleCodingHeader | tests/test_flask_compress.py:151-163 | a header naming one coding is that coding at quality 1.0 |
| AcceptEncoding.ParseRender | tests/test_flask_compress.py:188-215 | printing a preference list as a header and parsing it back gives the list, in order |
| Negotiation.QualityOf | tests/test_flask_compress.py:188-208 | the result is None exactly when the coding is never named; otherwise it is a quality the client gave that coding, and no quality given it is higher |
| Negotiation.ArgMax | tests/test_flask_compress.py:165-171 | None exactly when no weight is positive; otherwise a positive weight, no smaller than any other, and strictly larger than every weight before it |
| Negotiation.Best | tests/test_flask_compress.py:188-201 | None exactly when no catalog entry is a candidate; otherwise the index of the most wanted candidate, earliest on ties |
| Negotiation.FirstUnrefused | tests/test_flask_compress.py:180-186 | None exactly when every entry is refused; otherwise the first entry not refused |
| Negotiation.Choose | tests/test_flask_compress.py:151-215 | the outcome satisfies the negotiation rules (`IsChoice`), is a catalog entry whenever it is not None, and is None for a client that sends no preferences |
| Negotiation.ChoiceIsUnique | tests/test_flask_compress.py:151-215 | the rules allow at most one outcome, so the choice is deterministic |
| Negotiation.ChooseCompressAlgorithm | tests/test_flask_compress.py:151-215 | `_choose_compress_algorithm`: parses the header, and the outcome obeys the rules and equals `Choose` |
| Negotiation.Negotiate | tests/test_flask_compress.py:151-215 | a single pass with a wildcard fallback computes the outcome the rules demand, equal to `Choose` |
| Negotiation.ScanBest | tests/test_flask_compress.py:165-171 | a loop keeping the best candidate so far finds the best candidate, and agrees with `Best` |
| Negotiation.ScanFallback | tests/test_flask_compress.py:180-186 | a linear search finds the first unrefused entry, and agrees with `FirstUnrefused` |
| Negotiation.NamedOnce | tests/test_flask_compress.py:188-208 | a coding named once has exactly the quality it was given |
| Negotiation.Unnamed | tests/test_flask_compress.py:158-163 | a coding the client never names has weight 0 and is not refused |
| Negotiation.BestIsChosen | tests/test_flask_compress.py:188-193 | the entry a quality comparison selects is the outcome |
| Negotiation.HighestQualityWins | tests/test_flask_compress.py:188-193 | whenever some entry is a candidate, something is chosen, and it is wanted at least as much as that entry |
| Negotiation.TiesGoToServerOrder | tests/test_flask_compress.py:165-171 | when all candidates are equally wanted, the first candidate in catalog order is chosen |
| Negotiation.SingleCandidateChosen | tests/test_flask_compress.py:151-156 | when the client names exactly one catalog entry with nonzero quality, that entry is chosen, wherever it stands in the catalog |
| Negotiation.NothingSupported | tests/test_flask_compress.py:158-163 | a header of codings that are neither in the catalog nor `*` gives None |
| Negotiation.WildcardFallback | tests/test_flask_compress.py:180-186 | with no candidate, an accepted wildcard selects the first catalog entry when it is not refused |
| Negotiation.QualityOfIgnoresOrder | tests/test_flask_compress.py:165-171 | the quality of a coding depends only on which preferences were sent, not on their order or repetition |
| Negotiation.ClientOrderIsIrrelevant | tests/test_flask_compress.py:165-171 | two headers that carry the same preferences in any order lead to the same outcome |
| Scenarios.OneAlgoSupported | tests/test_flask_compress.py:151-156 | `gzip` against `[br, gzip]` gives `gzip` |
| Scenarios.OneAlgoUnsupported | tests/test_flask_compress.py:158-163 | `some-alien-algorithm` against `[br, gzip]` gives None |
| Scenarios.MultipleAlgosSupported | tests/test_flask_compress.py:165-171 | `br, gzip, zstd` against `[zstd, br, gzip]` gives `zstd` |
| Scenarios.MultipleAlgosUnsupported | tests/test_flask_compress.py:173-178 | `future-algo, alien-algo, forbidden-algo` against `[zstd, br, gzip]` gives None |
| Scenarios.MultipleAlgosWithWildcard | tests/test_flask_compress.py:180-186 | the same header plus `*` gives the first catalog entry, `zstd` |
| Scenarios.MultipleAlgosWithDifferentQuality | tests/test_flask_compress.py:188-193 | `zstd;q=0.8, br;q=0.9, gzip;q=0.5` against `[zstd, br, gzip]` gives `br` |
| Scenarios.MultipleAlgosWithEqualQuality | tests/test_flask_compress.py:195-201 | `zstd;q=0.5, br;q=0.5, gzip;q=0.5` against `[gzip, br, zstd]` gives `gzip` |
| Scenarios.DefaultQualityIs1 | tests/test_flask_compress.py:203-208 | `deflate, br;q=0.999, gzip;q=0.5` against `[gzip, br, deflate]` gives `deflate` |
| Scenarios.DefaultWildcardQuality | tests/test_flask_compress.py:210-215 | `br;q=0.001, *` against `[gzip, br, deflate]` gives `br` |
| Scenarios.HeaderParses | tests/test_flask_compress.py:188-215 | a header written element by element parses to the preferences its elements stand for |
| Compression.AfterRequest | tests/test_flask_compress.py:100-111 | the media type never changes; an ineligible response passes through; the response gains a coding exactly when it is eligible and one was negotiated; that coding is the negotiated one, is in the catalog, and the body is the compressor's output at the configured level |
| Compression.AfterRequestIdempotent | tests/test_flask_compress.py:100-106 | running the step on its own output changes nothing: nothing is compressed twice |
| Compression.DefaultCatalogIsGzip | tests/test_flask_compress.py:30-32 | the default `COMPRESS_ALGORITHM` gives the catalog `['gzip']` |
| Compression.SmallBodyUncompressed | tests/test_flask_compress.py:26-28 | with the defaults, a body under 500 bytes is sent unchanged, whatever the client accepts |
| Compression.GzipRequestChoosesGzip | tests/test_flask_compress.py:72-76 | `Accept-Encoding: gzip` against the default catalog selects `gzip` |
| Compression.LargeBodyGzipped | tests/test_flask_compress.py:16-28 | with the defaults, an HTML body of at least 500 bytes requested with `gzip` is gzip-compressed at level 6 and marked `gzip` |

## Left out

- Flask itself is not modelled: the application object, `Compress(app)` and `init_app` registration, the test client, and routing (tests/test_flask_compress.py:35-76). This is framework plumbing.
- Template rendering and on-disk file sizes are not modelled. The size checks use the abstract body length instead.
- The byte compressors (gzip, br, zstd, deflate) are a function parameter `compress(body, coding, level)`. So the effect of `COMPRESS_LEVEL` on output size (lines 88-98) is not modelled.
- OPTIONS requests, status codes and static-file serving (lines 78-86, 113-117) are not modelled. They assert only HTTP plumbing. Of the static-file test at lines 108-111 the model keeps only the media type, which the after-request step never changes.
- The `Vary`, `Content-Length` and other headers the extension rewrites are not modelled. Neither is streaming output. The model marks a compressed response only through its content coding.
- Request-method and status-code conditions on compression are not modelled: the tests do not show them.
- Compression.AfterRequest: the eligibility check is the response's existing coding, its media type and its body size. That is all the tests exercise.
- AcceptEncoding.ParseHeader: no case folding (of codings or of the `q` in a weight) and no special meaning for `identity`. No test fixes either.
- QValue.ParseQValue: accepts only the grammar of section 12.4.2 of RFC 9110. No test fixes the behaviour for a malformed or out-of-range `q=`; the model drops such an element.
- Negotiation.Choose: `q=0` refusal, and its priority over `*`, follow section 12.4.2 of RFC 9110 and are not asserted by any test. A `*` against an empty catalog selects nothing.
- Catalog.EnabledAlgorithms: does not de-duplicate the catalog, because the list shape is asserted to come back unchanged (tests/test_flask_compress.py:145-149) and no test has a duplicate.

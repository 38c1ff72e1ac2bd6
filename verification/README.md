# gib2sgf in Dafny

A model of the core of gib2sgf, a converter from Tygem GIB game records to
SGF. The model covers three parts of it:

- **Token-to-record extraction** (`ParserExtensions.kt`). A parsed header
  section becomes the header map. Header values lose their quotes, and the
  last pair wins for a repeated identifier. Game nodes become STO, INI and
  SKI properties in their order. Integer and colour tokens are decoded
  strictly, and a failure carries a `Marker` for the token.
- **The GIB record** (`Gib.kt`). It derives its fields from the header map
  and the game properties:
  - the `GAMEINFOMAIN` sub-map,
  - handicap and starting colour,
  - komi and score in tenths,
  - the result-code table,
  - the time limit and the byo-yomi text from `GTIME`.
- **The SGF projection.** Each of two converters produces a list of SGF FF[4]
  property values. `GibToSgfConversion.kt` works on the record above. It
  gives the root properties, the game-info properties that are present, and
  `MN(n - 1)` followed by B or W for every stone or pass. A pass's colour
  comes from the parity of its move number. `SgfConversion.kt` works on the
  record of the external gibson library. It gives the root properties, game
  info, handicap stones on their star points, time settings, then one move
  and its move number per move.

Failures are values, not exceptions:

- A `GibParseException` (message and `Marker`) is the parser's own error.
- `Crash(IndexOutOfBounds)` stands for the JVM runtime exception thrown by
  destructuring a split list that has too few parts.
- `Crash(StringIndexOutOfBounds)` stands for the one thrown by `substring`
  on a header value shorter than three characters.

Kotlin `Int` is the subset type `Decimal.Int32`. `toIntOrNull` accepts exactly
the optionally signed decimal literals in the 32-bit range. `moveNumber - 1`
wraps at `Int.MIN_VALUE`, and `% 2` truncates toward zero.

Modules, one per file: `Wrappers`, `Decimal`, `Text` (the Kotlin library
operations used), `Errors`, `GibRecord`, `ParserExtensions`, `Sgf` (the SGF
property values), `GibToSgfConversion`, `Gibson` (the fields of the external
record that are read) and `SgfConversion`.

All source paths below are under `src/main/kotlin/com/github/ekenstein/gib2sgf/`,
written in full.

## Model

| member | source | states |
|---|---|---|
| Decimal.ToIntOrNull | src/main/kotlin/com/github/ekenstein/gib2sgf/gib/parser/ParserExtensions.kt:89 | `toIntOrNull` gives a value exactly for an optionally signed decimal literal within the 32-bit range, and the value is the literal's |
| Decimal.ShowInt | src/main/kotlin/com/github/ekenstein/gib2sgf/SgfConversion.kt:44 | an `Int` in a string template is a decimal literal of that value, with a '-' only for a negative value and no leading zero |
| Decimal.ToIntOrNullShowInt | src/main/kotlin/com/github/ekenstein/gib2sgf/SgfConversion.kt:44 | reading back the text of any `Int` gives that `Int` |
| Decimal.Rem2 | src/main/kotlin/com/github/ekenstein/gib2sgf/GibToSgfConversion.kt:36 | Kotlin's `n % 2` is zero exactly for even n, and otherwise has the sign of n |
| Decimal.Dec | src/main/kotlin/com/github/ekenstein/gib2sgf/GibToSgfConversion.kt:50 | `moveNumber - 1` on `Int` agrees with n - 1 modulo 2^32, and is smaller than n except at `Int.MIN_VALUE` |
| Text.Split | src/main/kotlin/com/github/ekenstein/gib2sgf/gib/Gib.kt:19 | `split` gives at least one piece, no piece holds the delimiter, joining the pieces gives the text back, and there is one piece exactly when the text has no delimiter |
| Text.SplitJoin | src/main/kotlin/com/github/ekenstein/gib2sgf/gib/Gib.kt:47 | splitting pieces joined by a delimiter none of them holds gives the pieces back |
| Text.Associate | src/main/kotlin/com/github/ekenstein/gib2sgf/gib/parser/ParserExtensions.kt:76 | `associate` has exactly the keys of the pairs, and each key holds the value of its last pair |
| Text.Filter | src/main/kotlin/com/github/ekenstein/gib2sgf/GibToSgfConversion.kt:41-43 | the kept elements are exactly those of the input that pass the test |
| Text.FilterConcat | src/main/kotlin/com/github/ekenstein/gib2sgf/GibToSgfConversion.kt:41-43 | filtering a concatenation is filtering each part in turn, so the kept elements keep their order |
| Text.FilterKeepsCounts | src/main/kotlin/com/github/ekenstein/gib2sgf/GibToSgfConversion.kt:41-43 | each element that passes is kept as often as it occurs, and no other is kept |
| Text.FilterNotNull | src/main/kotlin/com/github/ekenstein/gib2sgf/GibToSgfConversion.kt:20 | `listOfNotNull` holds x exactly when one of its arguments is x |
| Text.FilterNotNullConcat | src/main/kotlin/com/github/ekenstein/gib2sgf/GibToSgfConversion.kt:20 | `listOfNotNull` over two runs of arguments is that of the first run, then that of the second, so the present values keep their order |
| Text.FilterNotNullCounts | src/main/kotlin/com/github/ekenstein/gib2sgf/GibToSgfConversion.kt:20 | each present value is kept as often as it is an argument |
| Text.Utf16 | src/main/kotlin/com/github/ekenstein/gib2sgf/gib/parser/ParserExtensions.kt:84 | a JVM string's `length` counts UTF-16 code units: one per character, plus one more for each character outside the Basic Multilingual Plane |
| GibRecord.Tenths | src/main/kotlin/com/github/ekenstein/gib2sgf/gib/Gib.kt:27 | a header number in tenths exists exactly when the text is an `Int`, and ten times it is that `Int` |
| GibRecord.Komi | src/main/kotlin/com/github/ekenstein/gib2sgf/gib/Gib.kt:27 | komi exists exactly when GAMEGONGJE is present and an `Int`, and is a tenth of it |
| GibRecord.GameScore | src/main/kotlin/com/github/ekenstein/gib2sgf/gib/Gib.kt:32 | the score exists exactly when GAMEZIPSU is present and an `Int`, and is a tenth of it |
| GibRecord.GamePlace | src/main/kotlin/com/github/ekenstein/gib2sgf/gib/Gib.kt:28 | the place exists exactly when GAMEPLACE is in the header, and is its value |
| GibRecord.PlayerBlack | src/main/kotlin/com/github/ekenstein/gib2sgf/gib/Gib.kt:29 | Black's name exists exactly when GAMEBLACKNAME is in the header, and is its value |
| GibRecord.PlayerWhite | src/main/kotlin/com/github/ekenstein/gib2sgf/gib/Gib.kt:30 | White's name exists exactly when GAMEWHITENAME is in the header, and is its value |
| GibRecord.TenthsOfRendered | src/main/kotlin/com/github/ekenstein/gib2sgf/gib/Gib.kt:27 | a header holding the text of n gives n / 10 |
| GibRecord.GameInfoEntry | src/main/kotlin/com/github/ekenstein/gib2sgf/gib/Gib.kt:19-20 | a piece has an entry exactly when it holds ':'; name and value hold no ':' and are the text before the first and between the first and second ':'; a piece without ':' fails with the index error of the destructuring |
| GibRecord.GameInfoEntries | src/main/kotlin/com/github/ekenstein/gib2sgf/gib/Gib.kt:18-21 | the entries exist exactly when every piece holds ':', one entry per piece in order |
| GibRecord.GameInfo | src/main/kotlin/com/github/ekenstein/gib2sgf/gib/Gib.kt:15-22 | no GAMEINFOMAIN gives the empty map; otherwise the map exists exactly when every comma piece holds ':', and it is the entries with later names replacing earlier ones |
| GibRecord.EmptyGameInfoFails | src/main/kotlin/com/github/ekenstein/gib2sgf/gib/Gib.kt:16-19 | an empty GAMEINFOMAIN is one empty piece, so reading the sub-map fails |
| GibRecord.IniHandicaps | src/main/kotlin/com/github/ekenstein/gib2sgf/gib/Gib.kt:25 | no INI gives no handicaps, two INIs give at least two, and a single INI gives just its value |
| GibRecord.Handicap | src/main/kotlin/com/github/ekenstein/gib2sgf/gib/Gib.kt:24-26 | the handicap is the value of the only INI, and 0 with no INI or with two or more |
| GibRecord.StartColor | src/main/kotlin/com/github/ekenstein/gib2sgf/gib/Gib.kt:45 | White starts exactly when the handicap is at least 2 |
| GibRecord.ResultCode | src/main/kotlin/com/github/ekenstein/gib2sgf/gib/Gib.kt:34 | the result code fails exactly when the sub-map does; it exists exactly when GRLT is in the sub-map and an `Int`, and is that number |
| GibRecord.GameResult | src/main/kotlin/com/github/ekenstein/gib2sgf/gib/Gib.kt:33-43 | a result exists exactly for GRLT codes 0, 1, 3, 4, 7 and 8: by score for 0 and 1, by resignation for 3 and 4, on time otherwise, with Black winning for 0, 3 and 7; a score result carries the record's score; it fails exactly when the sub-map does |
| GibRecord.NonScoreResultIgnoresScore | src/main/kotlin/com/github/ekenstein/gib2sgf/gib/Gib.kt:32-43 | a resignation or time result does not change when only GAMEZIPSU changes |
| GibRecord.TimeInfo | src/main/kotlin/com/github/ekenstein/gib2sgf/gib/Gib.kt:47 | GTIME's parts exist exactly when GTIME is in the sub-map; no part holds '-', and they join back to it with '-', which fixes them as `split("-")`; a failure is the sub-map's index error |
| GibRecord.TimeLimit | src/main/kotlin/com/github/ekenstein/gib2sgf/gib/Gib.kt:48 | the time limit exists exactly when the text before GTIME's first '-' is an `Int`, and is that number |
| GibRecord.Overtime | src/main/kotlin/com/github/ekenstein/gib2sgf/gib/Gib.kt:50 | no GTIME gives no byo-yomi; otherwise it fails unless GTIME has at least three '-' parts, and is "<part 3>x<part 2> byo-yomi" built from the raw parts; every failure is the index error of the destructuring |
| GibRecord.TimeFieldsOfRendered | src/main/kotlin/com/github/ekenstein/gib2sgf/gib/Gib.kt:47-50 | a GTIME written "<limit>-<seconds>-<stones>" gives back the limit and "<stones>x<seconds> byo-yomi" |
| ParserExtensions.SyntaxErrorException | src/main/kotlin/com/github/ekenstein/gib2sgf/gib/parser/ParserExtensions.kt:18-29 | a syntax error carries the parser's message and a zero-width marker at the reported line and position, with no +1 |
| ParserExtensions.ToMarker | src/main/kotlin/com/github/ekenstein/gib2sgf/gib/parser/ParserExtensions.kt:100-109 | a token's marker is on one line, starts one column after the 0-based position, and is as wide as the token text's UTF-16 length, which is its number of characters when all are in the Basic Multilingual Plane |
| ParserExtensions.ToInt | src/main/kotlin/com/github/ekenstein/gib2sgf/gib/parser/ParserExtensions.kt:89-90 | a token decodes exactly when its text is an `Int`, to that value; otherwise the error is "Expected an integer, but got <text>" at the token's marker |
| ParserExtensions.ToColor | src/main/kotlin/com/github/ekenstein/gib2sgf/gib/parser/ParserExtensions.kt:92-98 | 1 is Black and 2 is White, and nothing else decodes; a non-integer fails with the integer error, and any other integer fails with "Expected either '1' or '2' but got <text>" |
| ParserExtensions.ExtractGameProperty | src/main/kotlin/com/github/ekenstein/gib2sgf/gib/parser/ParserExtensions.kt:58-73 | an unrecognised node gives nothing; a move gives STO from its four decoded tokens, and otherwise the error of the first token that fails in the order move number, player, x, y; INI and SKI decode their one token |
| ParserExtensions.ExtractGame | src/main/kotlin/com/github/ekenstein/gib2sgf/gib/parser/ParserExtensions.kt:53-56 | the game section succeeds exactly when every node extracts, and then holds one property per recognised node in node order |
| ParserExtensions.ExtractGameFirstFailure | src/main/kotlin/com/github/ekenstein/gib2sgf/gib/parser/ParserExtensions.kt:54 | the game section's error is that of its first failing node |
| ParserExtensions.StripValue | src/main/kotlin/com/github/ekenstein/gib2sgf/gib/parser/ParserExtensions.kt:84 | a missing VALUE gives ""; a VALUE succeeds exactly when it has at least 3 characters, and loses exactly its first character and its last two; the failure is the `substring` index error |
| ParserExtensions.StripValueEnclosed | src/main/kotlin/com/github/ekenstein/gib2sgf/gib/parser/ParserExtensions.kt:84 | stripping an opening character and a two-character close gives back the text between them |
| ParserExtensions.StripValueAsUtf16 | src/main/kotlin/com/github/ekenstein/gib2sgf/gib/parser/ParserExtensions.kt:84 | when the first character and the last two are each one UTF-16 unit, the cut by characters exists exactly when the JVM's cut by code units does, and keeps the same code units |
| ParserExtensions.ExtractHeaderProperty | src/main/kotlin/com/github/ekenstein/gib2sgf/gib/parser/ParserExtensions.kt:80-87 | a header node gives its identifier and its stripped value, and fails exactly when stripping does, with the same error |
| ParserExtensions.ExtractHeaderPairs | src/main/kotlin/com/github/ekenstein/gib2sgf/gib/parser/ParserExtensions.kt:80-87 | the pairs exist exactly when every value can be stripped, one (identifier, stripped value) pair per node in order |
| ParserExtensions.ExtractHeader | src/main/kotlin/com/github/ekenstein/gib2sgf/gib/parser/ParserExtensions.kt:75-78 | the header map has exactly the identifiers of the nodes, each holding the stripped value of its last occurrence |
| ParserExtensions.ExtractGib | src/main/kotlin/com/github/ekenstein/gib2sgf/gib/parser/ParserExtensions.kt:47-51 | the header is parsed and extracted before the game, and the first failure is the result: the header's syntax error, the header's crash, the game's syntax error, or the error of the game's first failing node; success means both sections parsed and extracted |
| Sgf.Play | src/main/kotlin/com/github/ekenstein/gib2sgf/GibToSgfConversion.kt:54-57 | the move property of a colour is a move by that player of that move |
| Sgf.PrependInGameInfoOrder | src/main/kotlin/com/github/ekenstein/gib2sgf/GibToSgfConversion.kt:20-29 | one property of lower rank in front of an ordered list keeps it ordered |
| Sgf.FilterNotNullInOrder | src/main/kotlin/com/github/ekenstein/gib2sgf/GibToSgfConversion.kt:20-29 | `listOfNotNull` over arguments of increasing game-info rank keeps them strictly ordered |
| GibToSgfConversion.RootPropertiesDescribeGame | src/main/kotlin/com/github/ekenstein/gib2sgf/GibToSgfConversion.kt:12-18 | the root properties are format 4, Go, a 19x19 board, UTF-8 and gib2sgf 0.1.0, five root properties of different kinds |
| GibToSgfConversion.ToSgfColor | src/main/kotlin/com/github/ekenstein/gib2sgf/GibToSgfConversion.kt:54-57 | a Black stone is played with B and a White one with W |
| GibToSgfConversion.ToSgfResult | src/main/kotlin/com/github/ekenstein/gib2sgf/GibToSgfConversion.kt:25 | RE keeps the kind of win, the winner and the score of the record's result |
| GibToSgfConversion.GameInfoSlot | src/main/kotlin/com/github/ekenstein/gib2sgf/GibToSgfConversion.kt:21-28 | argument i of the game-info list, when present, has rank i and states its field |
| GibToSgfConversion.StatedHasSlot | src/main/kotlin/com/github/ekenstein/gib2sgf/GibToSgfConversion.kt:21-28 | every property stating a field is among the arguments |
| GibToSgfConversion.GameInfoList | src/main/kotlin/com/github/ekenstein/gib2sgf/GibToSgfConversion.kt:20-29 | the game-info properties are in the order PC, PB, PW, KM, RE, TM, OT, HA, and a property is present exactly when it states a field; HA only for a positive handicap |
| GibToSgfConversion.ReadGameInfoFields | src/main/kotlin/com/github/ekenstein/gib2sgf/GibToSgfConversion.kt:20-29 | the fields read succeed exactly when the byo-yomi does, fail with its error, and each is the record's derived field |
| GibToSgfConversion.GameInfoProperties | src/main/kotlin/com/github/ekenstein/gib2sgf/GibToSgfConversion.kt:20-29 | game info succeeds exactly when the byo-yomi does, fails with its error, is in the fixed order, and holds exactly the properties that state the record's fields |
| GibToSgfConversion.Flip | src/main/kotlin/com/github/ekenstein/gib2sgf/GibToSgfConversion.kt:31-34 | `flip` has no fixed point |
| GibToSgfConversion.FlipInvolution | src/main/kotlin/com/github/ekenstein/gib2sgf/GibToSgfConversion.kt:31-34 | flipping twice gives the colour back |
| GibToSgfConversion.ColorByMoveNumber | src/main/kotlin/com/github/ekenstein/gib2sgf/GibToSgfConversion.kt:36-39 | the starting colour plays exactly the even move numbers, negative ones included |
| GibToSgfConversion.MoveProperty | src/main/kotlin/com/github/ekenstein/gib2sgf/GibToSgfConversion.kt:44-59 | a stone keeps its colour and its point unchanged; a pass is played by the colour its move number gives |
| GibToSgfConversion.GameMoveProperties | src/main/kotlin/com/github/ekenstein/gib2sgf/GibToSgfConversion.kt:41-62 | INI gives nothing; the k-th stone or pass gives MN(move number - 1) at 2k and its move at 2k + 1, so the length is twice the number of stones and passes |
| GibToSgfConversion.ToSgf | src/main/kotlin/com/github/ekenstein/gib2sgf/GibToSgfConversion.kt:64-66 | the list is the root properties, then game info, then the moves; it fails exactly when game info does, with the byo-yomi's error |
| SgfConversion.ToSgfColor | src/main/kotlin/com/github/ekenstein/gib2sgf/SgfConversion.kt:15-18 | Black maps to Black and White to White |
| SgfConversion.FromSgfColor | src/main/kotlin/com/github/ekenstein/gib2sgf/SgfConversion.kt:15-18 | the colour conversion has an inverse |
| SgfConversion.HandicapPoints | src/main/kotlin/com/github/ekenstein/gib2sgf/SgfConversion.kt:20-30 | every handicap stone is on a star point |
| SgfConversion.HandicapPointsCount | src/main/kotlin/com/github/ekenstein/gib2sgf/SgfConversion.kt:20-30 | n stones give n distinct points for 2 <= n <= 9, and no points for any other n |
| SgfConversion.HandicapPointsCenter | src/main/kotlin/com/github/ekenstein/gib2sgf/SgfConversion.kt:20-30 | the centre is taken exactly for 5, 7 and 9 stones |
| SgfConversion.HandicapPointsGrow | src/main/kotlin/com/github/ekenstein/gib2sgf/SgfConversion.kt:20-30 | one more stone keeps the earlier placement except from 5 to 6 and from 7 to 8 |
| SgfConversion.HandicapPointsNested | src/main/kotlin/com/github/ekenstein/gib2sgf/SgfConversion.kt:25-27 | 6 stones keep the placement of 4, and 8 stones that of 6 |
| SgfConversion.HandicapProperties | src/main/kotlin/com/github/ekenstein/gib2sgf/SgfConversion.kt:57-63 | HA and AB appear together exactly for a handicap of 2 to 9, and AB has as many stones as HA says |
| SgfConversion.ToSgfResult | src/main/kotlin/com/github/ekenstein/gib2sgf/SgfConversion.kt:32-36 | RE keeps the kind of win, the winner and the score of the result |
| SgfConversion.ToSgfMove | src/main/kotlin/com/github/ekenstein/gib2sgf/SgfConversion.kt:38-41 | a point becomes a stone with the same coordinates, and a pass a pass |
| SgfConversion.OvertimeText | src/main/kotlin/com/github/ekenstein/gib2sgf/SgfConversion.kt:44 | the OT text "<periods>x<seconds>" gives both numbers back |
| SgfConversion.TimeSettingsProperties | src/main/kotlin/com/github/ekenstein/gib2sgf/SgfConversion.kt:43-46 | no time settings give nothing; otherwise OT with the periods, 'x' and the seconds written as `Int`s, from which both read back, then TM of the time limit |
| SgfConversion.ReportedHasSlot | src/main/kotlin/com/github/ekenstein/gib2sgf/SgfConversion.kt:68-75 | every property that reports a field is among the game-info arguments |
| SgfConversion.GameInfoProperties | src/main/kotlin/com/github/ekenstein/gib2sgf/SgfConversion.kt:68-75 | PC, PB, PW, KM, RE in that order, each present exactly when the record has the field |
| SgfConversion.MoveProperties | src/main/kotlin/com/github/ekenstein/gib2sgf/SgfConversion.kt:77-85 | move k gives its play by its own colour at 2k and MN of its unchanged move number at 2k + 1 |
| SgfConversion.DecodeMoveProperties | src/main/kotlin/com/github/ekenstein/gib2sgf/SgfConversion.kt:77-85 | the moves can be read back from their properties, so nothing is lost |
| SgfConversion.SgfProperties | src/main/kotlin/com/github/ekenstein/gib2sgf/SgfConversion.kt:87-88 | the list is root, game info, handicap, time settings, then the moves laid out two per move |
| SgfConversion.RootPropertiesDescribeGame | src/main/kotlin/com/github/ekenstein/gib2sgf/SgfConversion.kt:48-55 | the root properties are a 19x19 board, Go, gib2sgf 0.1.0, UTF-8 and format 4, five root properties of different kinds |
| SgfConversion.SameRootProperties | src/main/kotlin/com/github/ekenstein/gib2sgf/SgfConversion.kt:48-55 | this converter writes the same five root properties as the other, in a different order |

## Left out

- The ANTLR grammar, the generated lexer and parser, and the `CharStreams`
  entry points for a string, a path or a stream
  (`ParserExtensions.kt:31-45`). Their output is an input of the model: a
  parsed section, or a syntax error at a line and position.
- Building the SGF game tree with the external ktsgf `addProperty` fold, and
  writing SGF text. The model stops at the property list.
- `Main.kt` (command line and file I/O), the build file and the tests.
- Kotlin `Double`. Komi, score and time limit are exact rationals. Results
  are a datatype, not the rendered text: the source passes "B+5.5", or
  "B+null" when the score is missing, to RE.
- The lazy caching of the record's fields. They are plain functions here.
- How the gibson library parses a file, and every field of its record that
  `SgfConversion.kt` does not read. Whether its score can be null is not
  visible, so the model allows both.
- Decimal.ToIntOrNull: accepts ASCII digits only. The JVM also accepts the
  other Unicode decimal digits.
- ParserExtensions.StripValue: cuts by characters, while the JVM's
  `substring` cuts by UTF-16 code units. The two agree whenever the VALUE's
  first character and its last two are in the Basic Multilingual Plane
  (`StripValueAsUtf16`). Otherwise they can differ, and a cut inside a
  surrogate pair has no Dafny `string` to stand for it.
- Decimal.ToIntOrNull: overflow is checked once on the whole value rather
  than digit by digit. The two accept the same texts.
- GibRecord.TimeLimit: the limit needs only the first part of GTIME, because
  the destructuring `(timeLimit, _, _)` does not read the other parts. So a
  GTIME with a single part still gives a time limit.
- GibRecord.Overtime: the parts are not checked to be integers, because the
  code does not check them.
- GibToSgfConversion.MoveProperty: a stone's coordinates are passed on
  unchanged. No 0-based to 1-based shift happens in the code.
- GibToSgfConversion.ReadGameInfoFields: only the byo-yomi decides failure.
  Reading the result and the time limit fails exactly when reading the
  sub-map does, the byo-yomi then fails too, and every such failure is the
  same exception. So the evaluation order of the three reads does not change
  the outcome.
- SgfConversion.RootProperties: `SgfConversion.kt:53` gives CA a `Charset`
  (`Charsets.UTF_8`), while `GibToSgfConversion.kt:16` gives it the string
  "UTF-8". `Sgf.CA` holds the charset's name, so both are `CA("UTF-8")`, and
  `SameRootProperties` is stated under that representation.

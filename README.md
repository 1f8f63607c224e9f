# AEMET alert normalisation, modelled in Dafny

The system downloads AEMET (the Spanish weather agency) warning bulletins and reduces them to one
risk level per province for a web map. This project models the decision logic at its core and proves
what that logic promises.

On the Python side, the downloader turns each bulletin entry's text into:

- a level (verde < amarillo < naranja < rojo);
- a province code from the 52-entry `PROVINCIAS` table;
- a hazard ("fenómeno");
- a normalised start date.

It drops coastal warnings. It then folds the surviving entries into per-province and per-zone records
under "highest level wins, first one on a tie". It also masks the API key in its logs. Finally, it
names, sniffs and renames the downloaded archive.

On the Node side, the service maps a postal code to a province code and folds AEMET's alert list into
a maximum level, with level-dependent tie-breaking. It keeps the answers in a ten-minute cache that an
hourly sweep prunes.

Modules:

- `Wrappers`: `Option`.
- `TextOps`: character classes, case mapping, accent stripping, searching, trimming.
- `Levels`: the four levels, their order and the `NIVELES_ALERTA` table.
- `Provinces`: the province table and `detect_province`.
- `Classifier`: `detect_level`, `is_coastal`, `detect_phenomenon`, `extract_start_date` and `mask_key`.
- `Archive`: the pure decisions of `download_tar`.
- `Reduce`: the two reduction loops. They are written as methods and proved equal to specification
  folds. The folds' properties are proved once, for a generic fold.
- `Service`: the Node lookup. It has a pure `Respond` specification and an `AlertService` class whose
  `cache` map is updated in place by `Obtener` and `Sweep`.

Each regular expression is modelled by the match it finds:

- leftmost position;
- greedy `\s+` that backs off;
- a lazy group;
- `\b` as a word-character test.

The lemmas then pin the result down in terms of the text.

With the full province table, `detect_province` resolves to A Coruña ("15") any text that contains an
"a" but none of the first fourteen normalised names (Araba to Córdoba) and none of their first words
(araba, albacete, alicante, almeria, avila, badajoz, illes, barcelona, burgos, caceres, cadiz,
castellon, ciudad, cordoba). The reason is that the first word of "a coruña" is "a". So "Aviso nivel
rojo en Madrid por viento" gives "15", not Madrid's "28". `Provinces.MadridResolvesToCoruna` proves
this for the text "Madrid"; the model follows the code.

## Model

| member | source | states |
|---|---|---|
| TextOps.LowerStr | src/downloader/alert_downloader.py:349 | `lower()` keeps the length and lower-cases every character |
| TextOps.LowerStrIdempotent | src/downloader/alert_downloader.py:349 | lower-casing twice is lower-casing once |
| TextOps.Normalize | src/downloader/alert_downloader.py:290-295 | `normalize_text` leaves no upper-case letter and no combining mark, and never lengthens the text |
| TextOps.NormalizeIdempotent | src/downloader/alert_downloader.py:290-295 | normalising an already normalised text changes nothing |
| TextOps.ContainsIff | src/downloader/alert_downloader.py:362 | the substring test `w in s` holds exactly when w occurs at some position of s |
| TextOps.BeforeFirst | src/downloader/alert_downloader.py:218 | `url.split('?')[0]` is a prefix without '?', stopped at the first '?' |
| TextOps.AfterLast | src/downloader/alert_downloader.py:219 | `split('/')[-1]` is a suffix without '/', preceded by the last '/' |
| TextOps.Strip | src/downloader/alert_downloader.py:378 | `strip()` returns a slice that starts and ends with non-space, with only white space cut on either side |
| TextOps.Capitalize | src/downloader/alert_downloader.py:384 | `capitalize()` keeps the length, upper-cases the first character and lower-cases the rest |
| Levels.ParseLevel | src/aemet-service.js:111-116 | the lower-cased `nivel` is read as a level only when it is one of the four `NIVELES_ALERTA` keys, and then as the level of that name |
| Levels.ParseName | src/aemet-service.js:27-32 | every level's name reads back as that level |
| Levels.Max | src/aemet-service.js:114-118 | the more severe of two levels is one of them and at least both |
| Provinces.TwoDigits | src/downloader/alert_downloader.py:298-313 | a table key is two digit characters |
| Provinces.CodesAreOneToFiftyTwo | src/downloader/alert_downloader.py:298-313 | the keys of `PROVINCIAS` are exactly "01" to "52" |
| Provinces.NotCodes | src/downloader/alert_downloader.py:369 | "00" and "57" are not keys, so a first code token like them yields no province |
| Provinces.ProvinceName | src/downloader/alert_downloader.py:599 | `PROVINCIAS.get(code, '')` is the table's name for a key and "" for anything else |
| Provinces.FirstWord | src/downloader/alert_downloader.py:365 | the first word of the first slash segment is a prefix of the name without '/' or ' ' |
| Provinces.ByName | src/downloader/alert_downloader.py:361-366 | the name loop stops at the first table entry that matches, and finds none only when no entry matches; the match test is that the entry's normalised name or its first word occurs in the normalised text |
| Provinces.FindCodeToken | src/downloader/alert_downloader.py:368 | `\b([0-5][0-9])\b` finds the leftmost two-digit token, or none when there is none |
| Provinces.DetectProvince | src/downloader/alert_downloader.py:359-371 | the result is None or a key of `PROVINCIAS` |
| Provinces.ByCodeToken | src/downloader/alert_downloader.py:367-370 | the code-token fallback returns None or a key of `PROVINCIAS` |
| Provinces.FirstNameHitWins | src/downloader/alert_downloader.py:361-366 | the first table entry, in table order, that hits decides the province |
| Provinces.NameLoopDecides | src/downloader/alert_downloader.py:361-366 | when the name loop finds entry i, the result is entry i's code |
| Provinces.NoNameHitFallsBack | src/downloader/alert_downloader.py:359-370 | when no table entry hits, the result is the code-token fallback |
| Provinces.LeftmostTokenDecides | src/downloader/alert_downloader.py:367-370 | the fallback looks at the leftmost two-digit token only: its digits if they are a key, else None |
| Provinces.FirstCodeTokenDecides | src/downloader/alert_downloader.py:367-370 | without a name hit, only the first code token counts: its digits if they are a key, else None even when a later token is a key |
| Provinces.NoMatchNoProvince | src/downloader/alert_downloader.py:359-371 | no name hit and no code token gives None |
| Provinces.MadridResolvesToCoruna | src/downloader/alert_downloader.py:361-366 | the text "Madrid" resolves to "15", A Coruña, through the first word "a" |
| Classifier.DetectLevel | src/downloader/alert_downloader.py:348-356 | the result is verde exactly when none of the rojo, naranja or amarillo cues occurs in the lower-cased text |
| Classifier.RojoCueWins | src/downloader/alert_downloader.py:350-351 | any rojo cue (also alongside "amarillo") gives rojo |
| Classifier.NaranjaCueWins | src/downloader/alert_downloader.py:352-353 | a naranja cue without a rojo cue gives naranja |
| Classifier.AmarilloCueWins | src/downloader/alert_downloader.py:354-355 | an amarillo cue without a rojo or naranja cue gives amarillo |
| Classifier.RiesgoAtLeastAmarillo | src/downloader/alert_downloader.py:354-355 | a text containing "riesgo" is at least amarillo |
| Classifier.DetectLevelIgnoresCase | src/downloader/alert_downloader.py:349 | the level does not depend on letter case |
| Classifier.DetectLevelMonotone | src/downloader/alert_downloader.py:348-356 | adding text before or after never lowers the level |
| Classifier.CoastalFrom | src/downloader/alert_downloader.py:695 | the search succeeds exactly when a coastal word occurs as a whole word from the position on |
| Classifier.IsCoastal | src/downloader/alert_downloader.py:692-693 | the empty text is not coastal |
| Classifier.IsCoastalIff | src/downloader/alert_downloader.py:690-695 | a text is coastal exactly when "costero", "costeros" or "coster" occurs as a whole word in its lower-cased form |
| Classifier.NoCosterNotCoastal | src/downloader/alert_downloader.py:695 | a text without "coster" is never coastal |
| Classifier.GroupEnd | src/downloader/alert_downloader.py:376 | the lazy group ends at the least position after which the tail matches, with no separator inside the group |
| Classifier.Group | src/downloader/alert_downloader.py:376 | the group from p is the shortest non-empty run of non-separators followed by the tail |
| Classifier.PorFrom | src/downloader/alert_downloader.py:376 | the backing-off `\s+` gives the longest white-space run that still lets the rest match |
| Classifier.MatchAt | src/downloader/alert_downloader.py:376 | a match at i is the one the engine picks: longest first `\s+`, then shortest group, or none when no match starts at i |
| Classifier.SearchPor | src/downloader/alert_downloader.py:376 | `re.search` returns the leftmost match with the engine's choices, or none when no match exists |
| Classifier.FirstKeyword | src/downloader/alert_downloader.py:380-384 | the first keyword, in list order, contained in the text |
| Classifier.PorMatchDecides | src/downloader/alert_downloader.py:376-378 | the leftmost "por … en" match gives its stripped and capitalised capture |
| Classifier.FirstKeywordDecides | src/downloader/alert_downloader.py:379-384 | without a match, the first keyword in list order in the lower-cased text gives its capitalised form |
| Classifier.NoPhenomenonIff | src/downloader/alert_downloader.py:374-385 | the result is None exactly when there is no match and no keyword |
| Classifier.PorPhenomenonHasNoSep | src/downloader/alert_downloader.py:376-378 | a captured hazard contains none of `,.;` and newline |
| Classifier.BlankPhenomenon | src/downloader/alert_downloader.py:376-378 | "por   en" gives the empty hazard: the capture is one blank, which strip removes |
| Classifier.OffsetLen | src/downloader/alert_downloader.py:395 | the optional offset group is 0, 1 ("Z"), 5 or 6 characters long and fits the text |
| Classifier.FindCore | src/downloader/alert_downloader.py:395 | the leftmost `YYYY-MM-DDThh:mm:ss` match, or none when there is none |
| Classifier.ReplaceChar | src/downloader/alert_downloader.py:400 | `replace` on a text without the character changes nothing |
| Classifier.ReplaceCharAppend | src/downloader/alert_downloader.py:400 | `replace` works piece by piece on a concatenation |
| Classifier.FixZ | src/downloader/alert_downloader.py:399-400 | a date-time ending in "Z" gets "+00:00" |
| Classifier.FixColon | src/downloader/alert_downloader.py:402-404 | a "±hh:mm" offset is left as it is |
| Classifier.FixPlain | src/downloader/alert_downloader.py:402-404 | a "±hhmm" offset becomes "±hh:mm" |
| Classifier.FixNone | src/downloader/alert_downloader.py:402-404 | a date-time without offset is left as it is |
| Classifier.ExtractStartDateNone | src/downloader/alert_downloader.py:392-406 | the result is None exactly for the empty text or a text with no date-time |
| Classifier.ExtractStartDateShape | src/downloader/alert_downloader.py:395-405 | the result is the first match's date-time with its offset as "+00:00", "±hh:mm" or absent, in the form of section 5.6 of RFC 3339 |
| Classifier.IsoDateTimeExtracts | src/downloader/alert_downloader.py:392-405 | a normalised date-time extracts to itself |
| Classifier.ExtractStartDateIdempotent | src/downloader/alert_downloader.py:392-405 | extracting from an extracted date-time gives it back |
| Classifier.MaskKey | src/downloader/alert_downloader.py:91-96 | "***NO_KEY***" for the empty key, first four + "..." + last four for keys over 8, "***" otherwise |
| Classifier.MaskRevealsOnlyEnds | src/downloader/alert_downloader.py:94-95 | two long keys mask alike exactly when their first and last four characters agree |
| Classifier.ShortKeysLookAlike | src/downloader/alert_downloader.py:96 | all keys of 1 to 8 characters mask alike |
| Classifier.MaskShowsKeyIff | src/downloader/alert_downloader.py:91-96 | the mask equals the key exactly when the key is "***" or has eleven characters with "..." in the middle; every key of twelve or more characters is hidden |
| Archive.Head | src/downloader/alert_downloader.py:236-243 | a read of n bytes gives a prefix of the file of n bytes, or the whole of a shorter file |
| Archive.SniffReadsOnlyHeader | src/downloader/alert_downloader.py:236-244 | two files with the same first 262 bytes are sniffed alike as gzip (RFC 1952 section 2.3.1 magic) and as ustar tar |
| Archive.FileNameFromUrl | src/downloader/alert_downloader.py:218-219 | the name is the last path segment without query, or `prefix-ts.tar.gz` when that segment is empty; never empty |
| Archive.PathNameIsName | src/downloader/alert_downloader.py:251 | the last component of `dir/name` is name when name has no slash |
| Archive.EndsWithPathIff | src/downloader/alert_downloader.py:250-254 | the suffix test on the lower-cased path is the test on the name |
| Archive.FinalNameOnName | src/downloader/alert_downloader.py:250-257 | the `if`/`elif` rename decided on the lower-cased name alone: the directory plays no part |
| Archive.FinalNameAppends | src/downloader/alert_downloader.py:250-257 | the rename keeps the name or appends ".gz" (gzip only) or ".tar" (tar only); gzip data gets ".tar" only when its name already ends with ".gz" |
| Archive.GzipNameEndsWithGz | src/downloader/alert_downloader.py:250-257 | after the rename a gzip file's name ends with ".gz", or with ".gz.tar" when the data is also tar; always ".gz" when it is not |
| Archive.GzipTarNamedGzGetsTar | src/downloader/alert_downloader.py:250-257 | gzip data that also carries the ustar magic, named "x.gz", is renamed "x.gz.tar" by the `elif` |
| Archive.TarNameEndsWithTar | src/downloader/alert_downloader.py:254-257 | after the rename a plain tar file's name ends with ".tar" or ".tar.gz" |
| Archive.FinalNameIdempotent | src/downloader/alert_downloader.py:250-257 | unless the data is both gzip and tar, renaming again with the same format changes nothing |
| Archive.GzipTarNotIdempotent | src/downloader/alert_downloader.py:250-257 | for data both gzip and tar, "x" becomes "x.gz" and then "x.gz.tar" |
| Archive.GzipTarRenameSettles | src/downloader/alert_downloader.py:250-257 | for data both gzip and tar, the name after three renames is kept by a fourth |
| Reduce.Absorb | src/downloader/alert_downloader.py:500-507 | one step stores the record when the key is new or its level is strictly higher, and touches no other key |
| Reduce.FoldDomain | src/downloader/alert_downloader.py:602-609 | the fold has a key exactly when some entry goes to it |
| Reduce.FoldMax | src/downloader/alert_downloader.py:611-615 | a key's stored level is at least every level offered for it |
| Reduce.FoldFirstWinner | src/downloader/alert_downloader.py:611-615 | a key's record is offered by an entry that every earlier entry of the key is strictly below: on a tie the first record stays |
| Reduce.FoldLevelsIgnoreOrder | src/downloader/alert_downloader.py:562-615 | the keys and their levels do not depend on the order of the entries |
| Reduce.WordEnd | src/downloader/alert_downloader.py:598 | a word runs to the next white space or the end |
| Reduce.Words | src/downloader/alert_downloader.py:598 | `split()` gives non-empty words without white space |
| Reduce.WordsOfBlank | src/downloader/alert_downloader.py:598 | a text of white space only has no words |
| Reduce.WordsOfWord | src/downloader/alert_downloader.py:598 | a word alone splits into itself |
| Reduce.WordsFromCut | src/downloader/alert_downloader.py:598 | the words from a position on are those before a white-space character followed by those after it |
| Reduce.WordsSplitAtSpace | src/downloader/alert_downloader.py:598 | the words of a text are the words before any of its white-space characters followed by the words after it |
| Reduce.WordsOfJoin | src/downloader/alert_downloader.py:598 | splitting words joined with single blanks gives the words back |
| Reduce.JoinSingleSpaced | src/downloader/alert_downloader.py:598 | joining words with one blank leaves single blanks only, none at either end |
| Reduce.Excerpt | src/downloader/alert_downloader.py:598 | the excerpt is a single-spaced prefix of the joined words: all of it when it fits in 300 characters, exactly its first 300 characters otherwise |
| Reduce.RowOfWellFormed | src/downloader/alert_downloader.py:583-599 | a kept entry's row is above verde, has a code or "", is named after it, starts at a normalised date-time or the processing time, and has a short single-spaced excerpt |
| Reduce.RawRowsWellFormed | src/downloader/alert_downloader.py:575-599 | every row of the raw pass is well formed |
| Reduce.RawSkips | src/downloader/alert_downloader.py:576-582 | verde and coastal entries add no row and change no province record |
| Reduce.ProvinceMapDomain | src/downloader/alert_downloader.py:601-609 | a province has a record exactly when some kept entry resolves to it |
| Reduce.ProvinceMapMax | src/downloader/alert_downloader.py:609-615 | a province's level is the maximum over its entries |
| Reduce.ProvinceMapRecord | src/downloader/alert_downloader.py:601-615 | a record is under a province key, named after it, above verde, and is the first record of the highest level |
| Reduce.ProvinceStep | src/downloader/alert_downloader.py:601-615 | the in-place insert or field update is one step of the specification fold |
| Reduce.RawEntry | src/downloader/alert_downloader.py:576-615 | one iteration of the raw loop extends the rows and the province dictionary to those of the specification for one more entry |
| Reduce.ReduceRaw | src/downloader/alert_downloader.py:575-615 | the loop's rows and province dictionary are the specification's |
| Reduce.GroupKeyInjective | src/downloader/alert_downloader.py:498 | `prov::zone` keys are equal exactly when province-or-"00" and zone-or-"general" are |
| Reduce.NoProvinceBucketIsApart | src/downloader/alert_downloader.py:498 | an entry without province never shares a province's bucket |
| Reduce.PhenomenonOrNull | src/downloader/alert_downloader.py:495 | an absent or empty hazard is written "null", any other is kept |
| Reduce.GroupedSkips | src/downloader/alert_downloader.py:457-493 | verde, coastal, and province-less zone-less entries change nothing |
| Reduce.ZoneMapDomain | src/downloader/alert_downloader.py:492-501 | a bucket has a record exactly when some entry of the grouped pass falls in it |
| Reduce.ZoneMapMax | src/downloader/alert_downloader.py:500-507 | a bucket's level is the maximum over its entries |
| Reduce.ZoneMapRecord | src/downloader/alert_downloader.py:498-507 | a record sits under its own key, is above verde, has a province or a zone, and is the first record of the highest level |
| Reduce.ZoneStep | src/downloader/alert_downloader.py:498-507 | the grouped fold over one more entry stores its record under `prov::zone` when the key is new or its level strictly higher, and is unchanged otherwise |
| Reduce.ReduceGrouped | src/downloader/alert_downloader.py:456-507 | the loop's dictionary is the specification's |
| Service.Prefix | src/aemet-service.js:39 | `substring(0, 2)` is a prefix of at most two characters, exactly two when there are |
| Service.CpTableIsIdentity | src/aemet-service.js:11-24 | every table entry maps a prefix to itself |
| Service.CodigoProvinciaIsPrefix | src/aemet-service.js:37-41 | null exactly for a missing or empty postal code, otherwise its first two characters |
| Service.CodeFor | src/aemet-service.js:75 | a non-empty `provincia` wins, else the postal mapping; no code exactly when both are missing or empty |
| Service.Activo | src/aemet-service.js:118 | the hazard is a non-empty `fenomeno`, else a non-empty `evento`, else null |
| Service.MaxLevel | src/aemet-service.js:107-121 | the reference maximum is at least every alert's level and is verde or some alert's level |
| Service.FoldLevelIsMax | src/aemet-service.js:107-121 | the fold ends at the maximum level under verde < amarillo < naranja < rojo |
| Service.UnrecognisedChangesNothing | src/aemet-service.js:111-119 | an alert without `nivel` or with another value changes nothing |
| Service.AllVerdeGivesNull | src/aemet-service.js:107-121 | with no warning level among the alerts the result is verde with a null hazard |
| Service.VerdeHasNoPhenomenon | src/aemet-service.js:107-118 | a verde result has a null hazard |
| Service.LastRojoWins | src/aemet-service.js:115-118 | among rojo alerts the last one's hazard wins |
| Service.LastNaranjaWins | src/aemet-service.js:115-118 | without rojo, the last naranja alert's hazard wins |
| Service.FirstAmarilloWins | src/aemet-service.js:115-118 | with amarillo as the top level, the first amarillo alert's hazard wins |
| Service.MaxAlert | src/aemet-service.js:107-121 | the `forEach` loop computes the fold, whose level is the maximum |
| Service.CacheKeyInjective | src/aemet-service.js:83 | different province codes have different cache keys |
| Service.MissingCodeWritesNothing | src/aemet-service.js:77-80 | without a code the bare verde record is returned and the cache is untouched |
| Service.FreshEntryServed | src/aemet-service.js:84-88 | an entry strictly younger than ten minutes is returned as it is, nothing written |
| Service.StaleEntryIgnored | src/aemet-service.js:86-88 | an entry not strictly younger (aged exactly ten minutes included) is not served: the reply is an empty cache's |
| Service.NoAlertsCachedVerde | src/aemet-service.js:94-103 | no alerts give verde with a null hazard, cached under `alertas_<code>` |
| Service.AlertsReplyIsMax | src/aemet-service.js:107-132 | a list of alerts gives the maximum level, a null hazard at verde, and the reply is cached |
| Service.ErrorNotCached | src/aemet-service.js:134-143 | a truthy answer that is not a list (and has no zero `length`) gives the error reply and writes nothing |
| Service.OnlyOwnKeyWritten | src/aemet-service.js:83-130 | a lookup changes no other cache entry |
| Service.SweptKeys | src/aemet-service.js:147-153 | the sweep deletes exactly the entries strictly older than ten minutes and keeps the others as they are |
| Service.SweepKeepsServable | src/aemet-service.js:147-153 | whatever would be served survives the sweep |
| Service.BoundaryEntryKeptNotServed | src/aemet-service.js:86-150 | an entry aged exactly ten minutes is neither served nor deleted |
| Service.SweepIdempotent | src/aemet-service.js:147-153 | a second sweep at the same time deletes nothing more |
| Service.AlertService.constructor | src/aemet-service.js:7 | the cache starts empty |
| Service.AlertService.Obtener | src/aemet-service.js:72-144 | the reply and the new cache are the specification's `Respond` of the old cache |
| Service.AlertService.Sweep | src/aemet-service.js:147-155 | the new cache is the old one without its expired entries |

## Left out

- Network and filesystem I/O are not modelled: the HTTP requests, the lock file, tar extraction,
  CSV writing and the pruning of old files. Entry texts, the AEMET answer and the sniffed bytes are
  inputs.
- `extract_entries_from_xml` is not modelled, because it is XML parsing. Each entry's concatenated
  text is an input.
- The zone cascades of both passes are regular expressions over place names. They are not modelled:
  the zone each pass read from an entry is a field of `Reduce.Entry`.
- The loop over files, the byte decoding and the per-file `try/except` are flattened into one
  sequence of entries. An exception halfway through a file is not modelled.
- Clocks are not modelled: `datetime.utcnow()`, `Date.now()` and `new Date().toISOString()` become
  parameters (`observedAt`, `now`, `doneAt`, `stamp`).
- The hourly `setInterval` scheduling is not modelled; `Sweep` is the callback's body.
- TextOps.Normalize: NFD decomposition and `lower()` are exact only on ASCII and Latin-1 (U+0000 to
  U+00FF). Other characters keep their case, and only the combining marks U+0300 to U+036F (except
  U+034F, whose combining class is 0) are dropped.
- TextOps.LowerStr: case mapping covers ASCII and Latin-1 only. `toLowerCase()` agrees with it on the
  comparisons with "rojo", "naranja" and "amarillo", since no other character lower-cases to those
  ASCII letters.
- TextOps.Capitalize: the first character is upper-cased by its Latin-1 partner. Multi-character
  title-casing such as 'ß' is not modelled.
- TextOps.IsWordChar: `\w` is read on ASCII and Latin-1, so `\b` around non-Latin-1 letters differs.
  This affects the code token and the coastal words.
- TextOps.IsDigit: `\d` is read as ASCII digits, not every Unicode decimal digit.
- FinalNameIdempotent: holds only when the data is not both gzip and tar. For data that is both, the
  `elif` appends ".tar" to a name ending with ".gz", so the rename is not idempotent there;
  GzipTarNotIdempotent shows the case and GzipTarRenameSettles bounds it.
- The final sort of the raw rows by province code and start (`rows.sort`) is not modelled: it only
  orders the CSV, and `Reduce.ReduceRaw` gives the rows in entry order.
- Archive.PathNameIsName: pathlib's handling of "." and ".." names is not modelled.
- Service.Prefix: `substring` counts UTF-16 code units; the model counts characters.
- Service.ItemLevel: only a truthy non-string `nivel` (it reaches `toLowerCase()`) and a `null` or
  `undefined` array element make the source throw; the model gets the error reply for these only
  through `Other` payloads. A falsy non-string `nivel` (`0`, `false`) is skipped, as the model's
  absent `nivel` is.
- Service.Activo: a truthy non-string `fenomeno` or `evento` is passed through to the reply's
  `fenomeno`; the model's fields are strings, so it cannot represent that value.
- Service.AlertService.Obtener: the cache read, the AEMET request and the cache write are one step.
  The source awaits `peticionAEMET` between the read and the write, so another lookup or the sweep
  can run in between; that interleaving is not modelled.

# ITU OBS course enrollment: a Dafny model

This project models the core of `itu_obs_enroll`, a set of Python scripts that
enroll a student at Istanbul Technical University through the OBS student
information system. The scripts:

- log in with a browser and take the JWT out of `GET /ogrenci/auth/jwt`;
- wait until a target time of day, renewing the token every 15 minutes while
  the wait is long;
- POST the CRNs (course reference numbers) to `/api/ders-kayit/v21`;
- classify the JSON reply;
- in watch mode, read the public course schedule pages, find the CRNs that
  still have free seats, and enroll in those.

The model covers three Python files:

- `itu_obs_ders_kayit.py`, the main bot. It is modelled by the modules
  `DersKayitConfig`, `DersKayitSeats`, `DersKayitApi`, `DersKayitWait` and `ObsHttp`.
- `itu_obs_enroll.py`, the minimal timed script. It is modelled by the module `Enroll`.
- `obs_login.py`, which extracts the JWT and retries the login. It is
  modelled by the module `ObsLogin`.

Some modules model the Python built-ins the scripts rely on:

- `PyText`: `str.strip`, `split`, `replace`, `ljust`, `isdigit`, `int` (with
  underscore grouping) and `upper` for ASCII letters.
- `PyJson`: the JSON values the scripts meet (null, booleans, integers,
  strings, lists and dicts; no floats), with `dict.get`, `in`,
  truthiness and `str()`.
- `OrderedDict`: a Python `dict` that keeps insertion order.
- `Wrappers`, `Seqs` and `OptionSeqs`: small shared definitions.

Pure code is written as functions and lemmas. Loops are written as methods
with loop invariants, each proved equal to a specification function:

- the CRN-list parser, the branch-file loader and the URL table;
- the table parser and the endpoint merge of `check_kontenjan`;
- the reply parser;
- both wait loops;
- the repeat loop of `main`;
- the JWT key search and the login retry loop.

`wait_until_target_time` writes the renewed token into the caller's
one-element list. That list is the class `DersKayitWait.TokenHolder`, whose
field the method updates.

Everything outside the program appears as an input to the model:

- the clock is a finite sequence of readings, in microseconds since midnight;
- each fetched schedule page is a function from URL to rows
  (`None` when the GET fails);
- `json.loads` / `response.json()` are a decoder function
  (`None` where it raises);
- every reply's status is a function of the reply's index;
- the outcome of every `do_login` or browser login attempt is a function of the attempt's index;
- the answers typed at the prompts are strings.

## Model

| member | source | states |
|---|---|---|
| ObsHttp.DefaultHeaders | itu_obs_ders_kayit.py:71-84 | the eleven browser headers in insertion order with their fixed values, and no `Authorization` |
| ObsHttp.DefaultHeadersValid | itu_obs_enroll.py:37-50 | the default headers (the same in both scripts) form a well-formed ordered dict |
| ObsHttp.AuthHeader | itu_obs_ders_kayit.py:284-288 | `Authorization` is present iff the token is a non-empty string, and then it is `Bearer <token>`; every other header is the default one, unchanged |
| ObsHttp.BuildHeadersWithAuth | itu_obs_ders_kayit.py:284-288 | definition, no contract; the default headers plus `Authorization: Bearer <token>` when there is a token; stated by `ObsHttp.AuthHeader` |
| ObsHttp.JsonStrings | itu_obs_ders_kayit.py:301 | a CRN list is sent as a JSON array holding the same strings in the same order |
| ObsHttp.EnrollBody | itu_obs_enroll.py:100 | the body holds `ECRN` = the CRNs to add and `SCRN` = the CRNs to drop |
| ObsHttp.TokenAfter | itu_obs_enroll.py:102-105 | after a reply the token is dropped iff the status is 401 (or there was none), and is otherwise kept unchanged |
| DersKayitConfig.ParseToken | itu_obs_ders_kayit.py:129-140 | one loop pass yields `(branch, crn)` exactly when the piece's specification gives that pair, and nothing otherwise |
| DersKayitConfig.ParseCrnToken | itu_obs_ders_kayit.py:129-140 | definition, no contract; one piece of the raw list as `(branch, crn)` or nothing; stated by `ParseCrnTokenAtFirstColon`, `ParsedCrnShape` and `ParseFormatPair` |
| DersKayitConfig.ParsePrefixedCrnList | itu_obs_ders_kayit.py:119-141 | the two parallel lists zip to the pairs of the input, in order; `""` gives two empty lists |
| DersKayitConfig.CrnTokens | itu_obs_ders_kayit.py:119-141 | definition, no contract; the pairs the loop collects from the comma pieces; stated by `CrnTokensStep`, `TokenPairsMembers`, `TokenPairsOrder` and `CrnTokensRoundTrip` |
| DersKayitConfig.ParseCrnTokenAtFirstColon | itu_obs_ders_kayit.py:135-138 | a piece splits at its first colon; the branch is trimmed and upper-cased and the CRN trimmed; an empty side drops the piece |
| DersKayitConfig.ParsedBranchShape | itu_obs_ders_kayit.py:136-139 | a produced branch is non-empty, upper-case and colon-free |
| DersKayitConfig.ParsedCrnTrimmed | itu_obs_ders_kayit.py:137-140 | a produced CRN is non-empty and trimmed |
| DersKayitConfig.ParsedCrnShape | itu_obs_ders_kayit.py:135-140 | a produced pair has both shape properties at once |
| DersKayitConfig.CrnTokensStep | itu_obs_ders_kayit.py:128-140 | one more piece appends exactly what it contributes |
| DersKayitConfig.CrnTokensAdd | itu_obs_ders_kayit.py:138-140 | a piece that parses appends its pair |
| DersKayitConfig.CrnTokensNone | itu_obs_ders_kayit.py:130-134 | a blank piece or one without a colon appends nothing |
| DersKayitConfig.ZipTokensStep | itu_obs_ders_kayit.py:128-140 | one loop pass keeps the branch and CRN lists zipping to the pairs of the pieces read so far |
| DersKayitConfig.ParsedListsAt | itu_obs_ders_kayit.py:139-141 | the k-th branch and the k-th CRN form the k-th pair |
| DersKayitConfig.TokenPairsMembers | itu_obs_ders_kayit.py:128-140 | a pair is produced iff some piece parses to it |
| DersKayitConfig.TokenPairsOrder | itu_obs_ders_kayit.py:128-140 | each pair comes from its own piece, and later pairs from later pieces |
| DersKayitConfig.CrnTokensShape | itu_obs_ders_kayit.py:119-141 | every produced pair has a non-empty upper-case colon-free branch and a non-empty trimmed CRN |
| DersKayitConfig.ParseFormatPair | itu_obs_ders_kayit.py:135-138 | a plain pair written as `BRANCH:CRN` parses back to itself |
| DersKayitConfig.FormatPairNoComma | itu_obs_ders_kayit.py:128 | a written plain pair holds no comma, so splitting at commas keeps it whole |
| DersKayitConfig.ParseFormatPairs | itu_obs_ders_kayit.py:128-140 | the written pieces of plain pairs parse back to the pairs |
| DersKayitConfig.CrnTokensRoundTrip | itu_obs_ders_kayit.py:119-141 | round trip: plain pairs written as `B:C,B:C,...` parse back to the same pairs in the same order |
| DersKayitConfig.FormatCrnListExample | itu_obs_ders_kayit.py:121-122 | the documented pairs are written `EHB:23603,MYZ:23622` |
| DersKayitConfig.CrnTokensExample | itu_obs_ders_kayit.py:121-122 | the documented example parses to `[(EHB, 23603), (MYZ, 23622)]` |
| DersKayitConfig.TimePieces | itu_obs_ders_kayit.py:146 | the trimmed text, with commas read as dots, is cut at the dots into at least one piece |
| DersKayitConfig.FractionText | itu_obs_ders_kayit.py:149 | the fraction is always exactly three characters |
| DersKayitConfig.ThreeCharInt | itu_obs_ders_kayit.py:150 | `int()` of three characters lies in -99..999 |
| DersKayitConfig.MillisToMicros | itu_obs_ders_kayit.py:150 | a whole number of milliseconds in microseconds is a multiple of 1000 in -99000..999000 |
| DersKayitConfig.ParseTargetTime | itu_obs_ders_kayit.py:144-152 | a parsed time's microseconds are a whole number of milliseconds in -99000..999000; `None` where Python raises ValueError |
| DersKayitConfig.Millis | itu_obs_ders_kayit.py:149 | a digit fraction gives three digits |
| DersKayitConfig.ParseClockDigits | itu_obs_ders_kayit.py:151 | `HH:MM:SS` with digit fields reads as those three numbers |
| DersKayitConfig.ParseClock | itu_obs_ders_kayit.py:151 | definition, no contract; exactly three colon fields, each read by `int()`; stated by `ParseClockDigits` |
| DersKayitConfig.PiecesOfPlain | itu_obs_ders_kayit.py:146 | a trimmed text without commas is cut only at its dots |
| DersKayitConfig.ClockText | itu_obs_ders_kayit.py:146 | `HH:MM:SS` of digits has no blank at either end, no comma and no dot |
| DersKayitConfig.PiecesWithFraction | itu_obs_ders_kayit.py:146-149 | `HH:MM:SS.fff` is cut into the clock and the fraction |
| DersKayitConfig.PiecesWithoutFraction | itu_obs_ders_kayit.py:146-149 | a text without a dot is one piece |
| DersKayitConfig.ParseIntZeros | itu_obs_ders_kayit.py:149-150 | the default fraction `000` gives 0 microseconds |
| PyText.ParseIntGroupedValue | itu_obs_ders_kayit.py:150-151 | `int()` of digits grouped by single underscores is the value of the digits with the underscores removed |
| PyText.ParseIntGroupedExample | itu_obs_ders_kayit.py:150-151 | `int("1_2")` is 12 |
| PyText.ParseIntBadGroups | itu_obs_ders_kayit.py:150-151 | a doubled, leading or trailing underscore makes `int()` fail |
| DersKayitConfig.ParseTargetTimeWithFraction | itu_obs_ders_kayit.py:144-152 | `HH:MM:SS.fff` yields its fields, and microseconds of 1000 times the padded milliseconds |
| DersKayitConfig.ParseTargetTimeWithoutFraction | itu_obs_ders_kayit.py:147-152 | without a fraction the microseconds are 0 |
| DersKayitConfig.ParseTargetTimeOfPieces | itu_obs_ders_kayit.py:146-152 | a clock and a three-character fraction that both parse give the clock's fields and the fraction's milliseconds as microseconds |
| DersKayitConfig.ParseTargetTimeGroupedFraction | itu_obs_ders_kayit.py:144-152 | a three-character fraction grouped by an underscore, as in `14:00:00.1_2`, is read by `int()` with the underscore dropped: 12 milliseconds |
| DersKayitConfig.ParseTargetTimeComma | itu_obs_ders_kayit.py:146 | replacing commas by dots does not change the parsed time |
| DersKayitConfig.BranchCodeNonEmpty | itu_obs_ders_kayit.py:98-100 | the code is non-empty iff the stored `dersBransKodu` value is truthy |
| DersKayitConfig.BranchCodeOf | itu_obs_ders_kayit.py:98 | definition, no contract; `str(item.get("dersBransKodu") or "").upper()`; stated by `BranchCodeNonEmpty` and `BranchEntryShape` |
| DersKayitConfig.BranchEntry | itu_obs_ders_kayit.py:98-101 | definition, no contract; the `(code, id)` one item adds, if any; stated by `BranchEntryShape`, `BranchEntriesAdd` and `BranchEntriesNone` |
| DersKayitConfig.BranchEntryShape | itu_obs_ders_kayit.py:98-101 | an added entry has a non-empty upper-case code and an integer id |
| DersKayitConfig.BranchEntries | itu_obs_ders_kayit.py:97-101 | one entry per item of the file's list |
| DersKayitConfig.BranchEntriesStep | itu_obs_ders_kayit.py:97-101 | one more item appends exactly what it adds |
| DersKayitConfig.BranchEntriesAdd | itu_obs_ders_kayit.py:100-101 | an item with a code and an integer id adds that entry |
| DersKayitConfig.BranchEntriesNone | itu_obs_ders_kayit.py:100 | an item without a code or an integer id adds nothing |
| DersKayitConfig.BranchCodeMapShape | itu_obs_ders_kayit.py:92-104 | every key is a non-empty upper-case code and every value an integer |
| DersKayitConfig.BranchCodeMap | itu_obs_ders_kayit.py:92-104 | definition, no contract; the map the loader builds, empty when the file is not a list of dicts; stated by `BranchCodeMapShape`, `BranchCodeMapLastWins` and `BranchCodeMapNonDict` |
| DersKayitConfig.BranchCodeMapLastWins | itu_obs_ders_kayit.py:97-101 | the last item naming a code decides its id |
| DersKayitConfig.BranchCodeMapNonDict | itu_obs_ders_kayit.py:97-104 | an item that is not a dict makes the whole load give `{}` |
| DersKayitConfig.IsDictList | itu_obs_ders_kayit.py:97-104 | definition, no contract; the decoded file is a list of dicts, the only shape whose loop does not raise into `except`; stated by `BranchCodeMapNonDict` and `LoadBranchCodeMap` |
| DersKayitConfig.LoadBranchCodeMap | itu_obs_ders_kayit.py:92-104 | the loop's map is the specification's map of the decoded file |
| DersKayitConfig.ProgramUrlEmbedsId | itu_obs_ders_kayit.py:115 | the schedule URL is the fixed search URL followed by the branch id, which reads back |
| DersKayitConfig.ProgramUrl | itu_obs_ders_kayit.py:115 | definition, no contract; the schedule search URL for one branch id; stated by `ProgramUrlEmbedsId` and `ProgramUrlInjective` |
| DersKayitConfig.ProgramUrlInjective | itu_obs_ders_kayit.py:115 | distinct ids give distinct URLs |
| DersKayitConfig.UrlTableStep | itu_obs_ders_kayit.py:111-115 | visiting one more code adds its URL when it has an id and skips it otherwise |
| DersKayitConfig.UrlCodes | itu_obs_ders_kayit.py:111-114 | definition, no contract; the upper-cased requested codes that have an id in the branch map; stated by `InitDersProgramUrls` |
| DersKayitConfig.InitDersProgramUrls | itu_obs_ders_kayit.py:107-116 | the table's keys are exactly the upper-cased requested codes that have an id, each mapped to the URL of its id |
| DersKayitSeats.CountOf | itu_obs_ders_kayit.py:329-330 | a digit cell is its number and any other cell is 0, so a count is never negative |
| DersKayitSeats.SeatsOf | itu_obs_ders_kayit.py:327-331 | definition, no contract; capacity, enrolled and free seats of one row; stated by `SeatsOfFree` and `SeatsOfExamples` |
| DersKayitSeats.SeatsOfFree | itu_obs_ders_kayit.py:331 | free seats are between 0 and the capacity; there are some iff capacity > enrolled, and then free + enrolled = capacity |
| DersKayitSeats.SeatsOfExamples | itu_obs_ders_kayit.py:329-331 | a full course has 0 free seats, 30/28 has 2, and a non-digit capacity counts as 0 |
| DersKayitSeats.RowEntries | itu_obs_ders_kayit.py:319 | the header row never contributes; every other row contributes its entry |
| DersKayitSeats.RowEntry | itu_obs_ders_kayit.py:320-336 | definition, no contract; the `(crn, seats)` one row contributes, if any; stated by `ReadRow`, `ParseTableKeys` and `ParseTableSource` |
| DersKayitSeats.ParseTable | itu_obs_ders_kayit.py:314-339 | the table is a well-formed ordered dict |
| DersKayitSeats.ReadRow | itu_obs_ders_kayit.py:320-336 | one pass yields `(crn, seats)` exactly as the row's specification does |
| DersKayitSeats.ParseTableForCrns | itu_obs_ders_kayit.py:314-339 | the loop builds the table of the specification |
| DersKayitSeats.ParseTableSource | itu_obs_ders_kayit.py:319-336 | every entry comes from a data row that had that CRN and those seats |
| DersKayitSeats.ParseTableHas | itu_obs_ders_kayit.py:332 | every data row with a watched CRN puts it in the table |
| DersKayitSeats.ParseTableKeys | itu_obs_ders_kayit.py:319-336 | a CRN is in the table iff it is non-empty, watched, and in the first cell of a data row with at least 11 cells; its seats come from such a row |
| DersKayitSeats.ParseTableLastRowWins | itu_obs_ders_kayit.py:332-336 | a later row with the same CRN overwrites an earlier one |
| DersKayitSeats.ParseTableSkipsHeader | itu_obs_ders_kayit.py:318-319 | the first row is ignored whatever it holds |
| DersKayitSeats.PageSeats | itu_obs_ders_kayit.py:367-370 | a failed page contributes nothing, and the seats of a page form a well-formed dict |
| DersKayitSeats.EndpointPairsStep | itu_obs_ders_kayit.py:365-374 | one more endpoint adds its parsed entries after those of the earlier ones |
| DersKayitSeats.EndpointPairs | itu_obs_ders_kayit.py:365-374 | definition, no contract; the parsed entries of every endpoint's page, in URL-table order; stated by `EndpointPairsStep`, `MergedSeatsKeys` and `FirstEndpointWins` |
| DersKayitSeats.EndpointAbsent | itu_obs_ders_kayit.py:365-374 | a CRN on no endpoint is not in the merge |
| DersKayitSeats.EndpointHas | itu_obs_ders_kayit.py:372-374 | a CRN on some endpoint is in the merge |
| DersKayitSeats.EndpointKeep | itu_obs_ders_kayit.py:373 | once merged, a CRN's seats never change |
| DersKayitSeats.MergedSeats | itu_obs_ders_kayit.py:349-376 | the merged seats form a well-formed ordered dict |
| DersKayitSeats.OpenInStep | itu_obs_ders_kayit.py:380-382 | one more key is appended iff it has free seats |
| DersKayitSeats.OpenIn | itu_obs_ders_kayit.py:380-382 | definition, no contract; the keys with free seats, in key order; stated by `OpenInStep`, `OpenInMembers` and `OpenInDistinct` |
| DersKayitSeats.MergeInto | itu_obs_ders_kayit.py:372-374 | merging a parsed page keeps the first value for each CRN |
| DersKayitSeats.MergePage | itu_obs_ders_kayit.py:366-376 | one endpoint pass merges its page's entries, and a failed GET changes nothing |
| DersKayitSeats.OpenOf | itu_obs_ders_kayit.py:379-382 | the open list is the specification's, in dict order |
| DersKayitSeats.OpenCrns | itu_obs_ders_kayit.py:379-382 | definition, no contract; the merged CRNs with free seats, in dict order; stated by `OpenOf`, `OpenCrnsExactly`, `OpenInMembers` and `OpenInDistinct` |
| DersKayitSeats.CheckKontenjan | itu_obs_ders_kayit.py:342-384 | the seats are the merge of all endpoints in URL-table order; the open list is the CRNs with free seats |
| DersKayitSeats.CheckKontenjanEmpty | itu_obs_ders_kayit.py:361-362 | with no URL table the result is `([], {})` |
| DersKayitSeats.FirstEndpointWins | itu_obs_ders_kayit.py:371-374 | the first endpoint listing a CRN decides its seats |
| DersKayitSeats.MergedSeatsKeys | itu_obs_ders_kayit.py:365-374 | a CRN is merged iff some endpoint's page lists it |
| DersKayitSeats.OpenCrnsExactly | itu_obs_ders_kayit.py:379-384 | a CRN is open iff it was merged with free seats, and no CRN is listed twice |
| DersKayitSeats.OpenInMembers | itu_obs_ders_kayit.py:380-382 | the open keys are exactly the keys with free seats |
| DersKayitSeats.OpenInDistinct | itu_obs_ders_kayit.py:380-382 | distinct keys give an open list without repeats |
| DersKayitApi.EnsureToken | itu_obs_ders_kayit.py:277-281 | a usable token is kept without logging in; otherwise the login's outcome is returned |
| DersKayitApi.SendDersKayit | itu_obs_ders_kayit.py:291-311 | POST to the endpoint with the auth headers and `ECRN` = the CRNs, `SCRN` = []; a 401 drops the token |
| DersKayitApi.RejectedTokenRenewed | itu_obs_ders_kayit.py:277-311 | after a 401 the next `ensure_token` logs in; otherwise a usable token is reused |
| DersKayitApi.SendDersKayitAuth | itu_obs_ders_kayit.py:302 | the request carries the bearer header iff there is a token |
| DersKayitApi.CrnsOfStep | itu_obs_ders_kayit.py:409-413 | one more list element appends what it names |
| DersKayitApi.Candidates | itu_obs_ders_kayit.py:406-407 | one value per candidate key |
| DersKayitApi.AddedAccumulate | itu_obs_ders_kayit.py:406-416 | a non-list candidate adds its `crn` (if any) and the search goes on |
| DersKayitApi.OwnCrn | itu_obs_ders_kayit.py:414-416 | definition, no contract; the one CRN a non-list candidate adds, `str(crn)` of a dict with a `crn` key; stated by `AddedAccumulate` and `CollectAdded` |
| DersKayitApi.AppendCrns | itu_obs_ders_kayit.py:409-413 | the inner loop appends the CRNs the list names |
| DersKayitApi.CollectAdded | itu_obs_ders_kayit.py:406-416 | the key loop's added CRNs are those of the specification |
| DersKayitApi.ParseResponse | itu_obs_ders_kayit.py:387-432 | the method returns the specification's verdict |
| DersKayitApi.ReplyVerdict | itu_obs_ders_kayit.py:387-432 | definition, no contract; the verdict `parse_response` reaches; stated by `ParseResponse`, `VerdictOk`, `VerdictListsNeedFlag`, `VerdictMessage` and `AddedFromFirstList` |
| DersKayitApi.SuccessFlagFallback | itu_obs_ders_kayit.py:403 | the flag falls back key by key on presence, so a present `None` is used |
| DersKayitApi.SuccessFlag | itu_obs_ders_kayit.py:403 | definition, no contract; `success`, else `basarili`, else `isSuccess`, else None; stated by `SuccessFlagFallback` and `VerdictOk` |
| DersKayitApi.FailureMessage | itu_obs_ders_kayit.py:420 | definition, no contract; `message`, else `mesaj`, else `error`, else `""`; stated by `FailureMessageFallback` and `VerdictMessage` |
| DersKayitApi.FailureMessageFallback | itu_obs_ders_kayit.py:420 | the failure message falls back key by key on presence, and is `""` when none of the three keys is present |
| DersKayitApi.FailureList | itu_obs_ders_kayit.py:421 | definition, no contract; `errors`, else `hatalar`, else `failedCRNs`, else `[]`; stated by `FailureListFallback` and `VerdictListsNeedFlag` |
| DersKayitApi.FailureListFallback | itu_obs_ders_kayit.py:421 | the failure list falls back key by key on presence, and is `[]` when none of the three keys is present |
| DersKayitApi.ItemCrn | itu_obs_ders_kayit.py:410-413 | definition, no contract; `str(x["crn"])` for a dict with `crn`, a string as it is, nothing otherwise (the same test as at lines 424-427); stated by `CrnsOfStep` and `CrnsOfStrings` |
| DersKayitApi.CrnsOf | itu_obs_ders_kayit.py:409-413 | definition, no contract; the CRNs a list's elements name, in order (also the failed CRNs at lines 422-427); stated by `CrnsOfStep`, `AppendCrns`, `CrnsOfStrings` and `AddedFromFirstList` |
| DersKayitApi.AddedFrom | itu_obs_ders_kayit.py:406-416 | definition, no contract; the added CRNs of the key search from one candidate on; stated by `AddedAccumulate`, `CollectAdded` and `AddedFromFirstList` |
| DersKayitApi.VerdictOk | itu_obs_ders_kayit.py:399-432 | all ok iff the reply is a dict whose flag is `True`, or has no bool flag and status 200 |
| DersKayitApi.VerdictListsNeedFlag | itu_obs_ders_kayit.py:404-428 | added CRNs only under `True`, failed ones only under `False`; an ok verdict has no failures |
| DersKayitApi.VerdictMessage | itu_obs_ders_kayit.py:397-432 | every verdict carries a non-empty message |
| DersKayitApi.AddedFromFirstList | itu_obs_ders_kayit.py:406-414 | the first list candidate ends the search and supplies the CRNs |
| DersKayitApi.CrnsOfStrings | itu_obs_ders_kayit.py:412-413 | a list of strings names exactly those strings |
| DersKayitWait.InstantRoundTrip | itu_obs_ders_kayit.py:155-159 | a valid time of day is an instant within the day that converts back to the same fields |
| DersKayitWait.TargetInstant | itu_obs_ders_kayit.py:155-159 | today's target exists iff the text parses and the fields are in `datetime` range, and it reads back as those fields |
| DersKayitWait.PrecisionStep | itu_obs_ders_kayit.py:187-191 | above 1 s sleep 0.5 s; between the spin threshold and 1 s sleep the whole remainder; otherwise spin; a sleep never passes the target |
| DersKayitWait.WaitStep | itu_obs_ders_kayit.py:181-191 | refresh iff refreshing is on and more than 15 minutes remain, and then sleep 15 minutes; otherwise the precision step |
| DersKayitWait.WaitSteps | itu_obs_ders_kayit.py:175-191 | one step per reading before the target |
| DersKayitWait.Refreshes | itu_obs_ders_kayit.py:185 | the number of renewals never exceeds the number of passes |
| DersKayitWait.WaitStepsAt | itu_obs_ders_kayit.py:175-191 | the i-th pass is the step for the i-th reading's remaining time |
| DersKayitWait.WaitStepsNeverOversleep | itu_obs_ders_kayit.py:181-191 | no sleep goes past the target, and spinning happens only in the last 20 ms |
| DersKayitWait.NoRefreshWithoutSession | itu_obs_ders_kayit.py:173 | without a session and a token holder there are no renewals |
| DersKayitWait.NoRefreshInLastInterval | itu_obs_ders_kayit.py:181 | within 15 minutes of the target there are no renewals |
| DersKayitWait.FirstReached | itu_obs_ders_kayit.py:176-178 | the loop ends at the first reading at or after the target, or at the end of the trace |
| DersKayitWait.FirstReachedUnique | itu_obs_ders_kayit.py:176-178 | that first reading is unique |
| DersKayitWait.TokenHolder.constructor | itu_obs_ders_kayit.py:165 | the holder starts with the given token |
| DersKayitWait.WaitUntilTargetTime | itu_obs_ders_kayit.py:162-193 | a bad time fails with the holder unchanged; otherwise the wait ends at the first reading at the target, after exactly the specified passes, and the holder holds the token of the last renewal |
| DersKayitWait.WaitLoop | itu_obs_ders_kayit.py:175-191 | the loop's passes and renewals are those of the specification |
| DersKayitWait.WaitedStep | itu_obs_ders_kayit.py:175-191 | one more pass keeps the loop invariant |
| DersKayitWait.WaitPass | itu_obs_ders_kayit.py:181-191 | the if-cascade computes the specified step |
| DersKayitWait.WaitStepsTake | itu_obs_ders_kayit.py:175-191 | one more reading adds its step |
| DersKayitWait.RefreshesSnoc | itu_obs_ders_kayit.py:185 | a renewal step adds one renewal |
| Enroll.PromptTime | itu_obs_enroll.py:84-86 | definition, no contract; the trimmed typed line, or the default when the line is blank; stated by `PromptTimeAnswer` |
| Enroll.PromptTimeAnswer | itu_obs_enroll.py:84-86 | the default is taken exactly for an all-blank line; otherwise the answer is the line's non-empty text without its surrounding whitespace |
| Enroll.PromptCrnsShape | itu_obs_enroll.py:89-93 | every CRN read is non-empty, trimmed and comma-free |
| Enroll.PromptCrns | itu_obs_enroll.py:89-93 | definition, no contract; the trimmed non-empty comma pieces of the typed line; stated by `PromptCrnsShape`, `PromptCrnsRoundTrip` and `PromptCrnsBlank` |
| Enroll.CrnPiecesOfPlain | itu_obs_enroll.py:93 | trimmed non-empty pieces are kept as they are |
| Enroll.CrnPiece | itu_obs_enroll.py:93 | definition, no contract; a piece's trimmed text, dropped when empty; stated by `PromptCrnsShape` and `CrnPiecesOfPlain` |
| Enroll.PromptCrnsRoundTrip | itu_obs_enroll.py:89-93 | round trip: trimmed comma-free CRNs typed as `a,b,c` are read back as the same list |
| Enroll.PromptCrnsBlank | itu_obs_enroll.py:91-92 | a blank line gives no CRNs |
| Enroll.SendRequestContents | itu_obs_enroll.py:96-105 | POST to DERS_KAYIT_URL with the bearer header iff there is a token, ECRN/SCRN the two lists; a 401 drops the token |
| Enroll.SendRequest | itu_obs_enroll.py:96-105 | definition, no contract; the request `send_request` makes and the token it leaves; stated by `SendRequestContents` |
| Enroll.TokensSent | itu_obs_enroll.py:134-147 | one token per request sent |
| Enroll.TokensSentAt | itu_obs_enroll.py:134-147 | the k-th request goes out with the token left by the k replies before it |
| Enroll.TokenBefore | itu_obs_enroll.py:134-147 | definition, no contract; the token held after the first k replies; stated by `TokensSentAt`, `NoAuthAfterRejection` and `TokenKeptUntilRejection` |
| Enroll.SentWith | itu_obs_enroll.py:134-147 | definition, no contract; each request is `send_request` with the token of its position; stated by `SendAndRepeat`, `SentWithAt` and `SentWithStep` |
| Enroll.SentWithAt | itu_obs_enroll.py:134-147 | the k-th request is `send_request` with the k-th token and the k-th status |
| Enroll.NoAuthAfterRejection | itu_obs_enroll.py:102-104 | once a reply is 401, no later request has an `Authorization` header: the script never renews |
| Enroll.TokenKeptUntilRejection | itu_obs_enroll.py:105 | until the first 401 every request carries the original JWT |
| Enroll.EnrollSteps | itu_obs_enroll.py:71-80 | one pass per reading, 0.5 s above 1 s, the whole remainder above 10 ms, otherwise spin |
| Enroll.EnrollStepsNeverOversleep | itu_obs_enroll.py:76-80 | no sleep passes the target and spinning happens only in the last 10 ms |
| Enroll.WaitUntil | itu_obs_enroll.py:62-81 | a bad time fails; a target not after the first reading exits; otherwise the wait ends at the first later reading at the target, after the specified passes |
| Enroll.EnrollWaitLoop | itu_obs_enroll.py:71-80 | the loop stops at the first reading at the target, after the specified passes |
| Enroll.EnrollStepsTake | itu_obs_enroll.py:71-80 | one more reading adds its pass |
| Enroll.LeadingOnes | itu_obs_enroll.py:140-147 | it counts the consecutive answers `1` from the start, stopping at the first other answer or at the end of input |
| Enroll.IsOne | itu_obs_enroll.py:142-145 | definition, no contract; the stripped answer is `1`; stated by `LeadingOnes` |
| Enroll.EnrollMain | itu_obs_enroll.py:108-151 | each early exit happens exactly under its condition (no login module, empty credentials, both CRN lists empty, no JWT, wait failed); otherwise one request plus one per leading `1`, each with the token the replies left |
| Enroll.CredentialsGiven | itu_obs_enroll.py:114-117 | definition, no contract; both the stripped username and the password are non-empty; stated by `EnrollMain` |
| Enroll.SendAndRepeat | itu_obs_enroll.py:134-147 | the first request and the repeats are those the specification lists |
| Enroll.RepeatWhileOne | itu_obs_enroll.py:140-147 | the repeat loop sends one more request per leading `1` |
| Enroll.SentWithStep | itu_obs_enroll.py:147 | one more request with the held token keeps requests and tokens in step |
| Enroll.RepeatedStep | itu_obs_enroll.py:145-147 | one more `1` keeps the loop invariant |
| Enroll.LeadingOnesUnique | itu_obs_enroll.py:140-146 | the run of leading `1`s has only one possible length |
| ObsLogin.BareJwtOfSegments | obs_login.py:189 | three segments of `[A-Za-z0-9_-]+` joined by dots match the pattern |
| ObsLogin.BareJwtSegments | obs_login.py:189 | a match is exactly three such segments joined by dots, with no blanks around |
| ObsLogin.IsBareJwt | obs_login.py:189 | definition, no contract; the body matches `^seg.seg.seg$` with segments of `[A-Za-z0-9_-]+`; stated by `BareJwtOfSegments` and `BareJwtSegments` |
| ObsLogin.PyValue | obs_login.py:201 | JSON `null` is Python `None`; every other value is kept |
| ObsLogin.KeyHit | obs_login.py:196-201 | definition, no contract; whether one key decides the search, and with what value; stated by `FirstHitIsFirst`, `FirstHitSource` and the `DecodedJwt…` lemmas |
| ObsLogin.ExtractJwt | obs_login.py:183-205 | the method returns the specification's token |
| ObsLogin.JwtOf | obs_login.py:183-205 | definition, no contract; the token `_extract_jwt` returns; stated by `ExtractJwt`, the `JwtOf…` lemmas and the `DecodedJwt…` lemmas |
| ObsLogin.JwtOfBlank | obs_login.py:185-187 | a missing or blank body gives `None` |
| ObsLogin.JwtOfBare | obs_login.py:188-190 | a trimmed bare JWT is returned as it is, before any decoding |
| ObsLogin.JwtOfSegments | obs_login.py:188-190 | `xxx.yyy.zzz` comes back unchanged |
| ObsLogin.JwtOfUndecodable | obs_login.py:192-204 | a body that is neither a bare JWT nor JSON gives `None` |
| ObsLogin.FirstHitIsFirst | obs_login.py:195-201 | the keys are tried in order, and the first one that decides gives the answer |
| ObsLogin.FirstHitNone | obs_login.py:195-201 | when no key decides, the search gives nothing |
| ObsLogin.FirstHitSource | obs_login.py:195-201 | every answer comes from a key, and no key before it decided |
| ObsLogin.FirstHit | obs_login.py:195-201 | definition, no contract; the answer of the first key, in tuple order, that decides the search; stated by `FirstHitIsFirst`, `FirstHitNone` and `FirstHitSource` |
| ObsLogin.DecodedJwt | obs_login.py:193-202 | definition, no contract; the token of a decoded body: the key search for a dict, the string itself for a str, None otherwise; stated by the `DecodedJwt…` lemmas |
| ObsLogin.DecodedJwtNone | obs_login.py:194-205 | a dict where no key decides, and a number, bool, null or list, give `None` |
| ObsLogin.DecodedJwtDirect | obs_login.py:197-203 | `{"token": "abc"}` gives `abc`, and a decoded string is returned even when empty |
| ObsLogin.DecodedJwtSkipsEmpty | obs_login.py:196-199 | an empty `token` string passes to the next key, here `jwt` |
| ObsLogin.DecodedJwtNested | obs_login.py:200-201 | `{"data": {"token": v}}` gives `v`, and `None` for `null` |
| ObsLogin.DecodedJwtNonString | obs_login.py:196-201 | a non-string top-level value is passed over |
| ObsLogin.GetJwtWithPlaywright | obs_login.py:35-61 | without Playwright it raises ImportError and makes no attempt; otherwise it makes at most 3 attempts, stopping at the first truthy token, else `None` |
| ObsLogin.FirstLogin | obs_login.py:53-61 | definition, no contract; the first truthy token of the retried attempts; stated by `GetJwtWithPlaywright`, `FirstLoginTruthy`, `FirstLoginIgnoresLater` and `FirstLoginNone` |
| ObsLogin.FirstLoginTruthy | obs_login.py:55-56 | a returned token is always truthy |
| ObsLogin.FirstLoginIgnoresLater | obs_login.py:32 | only the first MAX_LOGIN_RETRIES = 3 attempts matter |
| ObsLogin.FirstLoginNone | obs_login.py:57-60 | when every attempt raises or returns nothing truthy, the result is `None` |

## Left out

- The network, the browser, the GUI, threads, logging and `print` are left out.
  Clock readings, fetched pages, reply statuses, login outcomes and typed
  answers are inputs.
- `time.sleep` is not modelled. Each wait pass is described by the `Step`
  it takes, and the next clock reading is the model's next input.
- Floating-point seconds are not modelled. Times are integer microseconds,
  which is exact for millisecond targets. `min(0.5, delta / 2)` with
  delta > 1 s is always 0.5 s.
- `datetime.now().replace(...)` is modelled as a time of day. Dates,
  midnight roll-over and time zones are not modelled.
- `watch mode`, `_watch_loop`, the GUI and the `do_login` HTTP fallback are
  not modelled.
- `do_login` and the Playwright login flow are inputs, one outcome per call.
- `str.isdigit` and `int()` accept ASCII digits only; `int()` also accepts
  single underscores between them. Python accepts other Unicode digits too.
- `DersKayitConfig.ParseTargetTime`: an hour, minute, second or fraction
  written with non-ASCII Unicode digits, which Python's `int()` reads, is
  `None` here.
- `DersKayitWait.TargetInstant`: inherits that limit of `ParseTargetTime`.
- `PyText.Upper`: `str.upper` is modelled for ASCII letters only and keeps
  the length. Python also maps `ş` to `Ş` and `ß` to `SS`.
- `DersKayitConfig.ParseToken`: `str.upper` is modelled for ASCII letters
  only, so `şb:1` gives the branch `şB` where Python gives `ŞB`.
- `DersKayitConfig.ParsePrefixedCrnList`: `str.upper` is modelled for ASCII
  letters only, as for `ParseToken`.
- `DersKayitConfig.LoadBranchCodeMap`: `str.upper` is modelled for ASCII
  letters only, so a non-ASCII code in the branch file is stored as written
  apart from its ASCII letters.
- `DersKayitConfig.InitDersProgramUrls`: `str.upper` is modelled for ASCII
  letters only, so a required code with non-ASCII letters is looked up
  without them upper-cased.
- `PyJson.Get`: on a field list with a repeated key it returns the first
  value, whereas `json.loads` keeps the last; the decoder parameter is
  expected to return dicts with distinct keys, as `json.loads` does.
- `PyJson.Json`: JSON numbers with a fraction or an exponent (floats) are not
  represented. Python would treat `{"bransKoduId": 12.0}` as not an `int`,
  format a crn of `23603.0` as `"23603.0"`, and count a message of `0.0` as
  falsy; a decoder returning such values is outside the model.
- `str()` of a JSON container is its `repr` without Python's quoting and
  escaping rules.
- `json.loads` and `response.json()` are a decoder parameter. JSON syntax
  is not modelled.
- `DersKayitConfig.InitDersProgramUrls`: the iteration order of a Python
  set depends on string hashing, so the model picks an arbitrary order. Only
  the keys and values of the table are stated, not their order.
- The ImportError raised when Playwright is missing is the value
  `PlaywrightMissing`.
- In itu_obs_enroll.py, calling `get_jwt` can raise the same ImportError.
  `Enroll.EnrollMain` takes the JWT as an input, so that crash is not modelled.
- `Enroll.RepeatWhileOne`: end of input and Ctrl-C at the prompt are both
  the end of `choices`. The loop ends there.
- A token the login returns as a non-string JSON value (a dict holding a
  non-string `token` under any of `token`, `accessToken`, `access_token`,
  `jwt`, `data`, such as `{"token": {"token": 7}}`) is formatted by `str()`
  in the header.
  The scripts' `Token` holds strings only.
- itu_obs_enroll_gui.py is not part of this model.

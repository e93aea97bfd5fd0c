# Hospital appointment scheduling core, in Dafny

This project models the decision logic of a hospital voice assistant's backend:

- the scheduling endpoints: doctor availability, patient registration, booking, rescheduling and cancelling an appointment, and booking a diagnostic test;
- the helpers those endpoints use: doctor-name cleaning, date/time parsing, the half-hour slot template and safe integer parsing;
- the request validators' key cleaning, alias mapping and patient-id digit extraction;
- the knowledge base's keyword search, which scores and ranks scraped hospital pages for the assistant.

The database is a value (`Steps.Store`) holding the patients, doctors, tests, appointments and test appointments, in table order. Each endpoint is a step function from the store before the request to an outcome and the store after it. `Endpoints.Clinic` is the same session as an object whose tables the endpoint methods update in place. Each method's contract ties its outcome and new tables to the step function of the same name, and the properties are proved about those functions. The knowledge base is a class holding its documents, and its `Search` method is proved equal to a specification function, `Knowledge.SearchSpec`.

Modules, one per file:

| file | module | models |
|---|---|---|
| wrappers.dfy | `Wrappers` | `Option` |
| text.dfy | `Text` | `str.isspace`, `lower`, `strip`, `split()`, substring `in`, digit filtering, SQL `LIKE`/`ILIKE` |
| calendar.dfy | `Calendar` | instants, `weekday()`, `"%H:%M"` rendering, `generate_slots` |
| timeparse.dfy | `TimeParse` | `datetime.strptime` for `"%Y-%m-%d %H:%M"`, `"%Y-%m-%d %I:%M %p"` and `"%Y-%m-%d"`; `parse_datetime` |
| names.dfy | `Names` | `clean_doctor_name` and the doctor lookup: `ilike`, then a fuzzy match above 70 |
| requests.dfy | `Requests` | the validators' key cleaning, aliases and patient-id conversion; `get_safe_int` |
| schedule.dfy | `Schedule` | appointment rows and statuses, the conflict query, the reschedule and cancel targets, free slots |
| steps.dfy | `Steps` | the endpoints as store transitions, and what they promise |
| clinic.dfy | `Endpoints` | the endpoints as methods of a class updating its tables in place |
| knowledge.dfy | `Knowledge` | `KnowledgeBase.search` |

External inputs become parameters:

- `datetime.now()` is a `Calendar.Now`: the minute plus the microseconds inside it.
- The fuzzy scorer of `thefuzz` is a function `score: (string, string) -> int`.
- The loaded documents are the `documents` field of `Knowledge.KnowledgeBase`.

A request body reaches the validators as the dictionary `json.loads` makes of it. `Requests.DecodeObject` builds that dictionary's items from the object's members: one item per distinct name, at the place where the name first appears, holding the value of the last member with that name. The validator functions take those items, and the rows below call them items.

## Model

| member | source | states |
|---|---|---|
| Text.Lower | app/api/routes.py:27 | `lower()` keeps the length and lower-cases each character; only letters change |
| Text.Strip | app/api/routes.py:27 | the stripped text neither starts nor ends with whitespace |
| Text.StripEmptyIffBlank | app/api/routes.py:392 | `s.strip()` is empty exactly when every character of `s` is whitespace |
| Text.Split | app/services/rag_service.py:47 | `split()` yields non-empty words that contain no whitespace; SplitCons, SplitJoin, SplitAfterSpaces and SplitBeforeSpaces fix which words, in order |
| Text.SplitCons | app/services/rag_service.py:47 | one more leading character: whitespace is skipped, and a non-whitespace character starts a new word or joins the first word when that word starts right after it |
| Text.SplitWordThen | app/services/rag_service.py:47 | a word followed by the end or by whitespace is split off whole |
| Text.SplitJoin | app/services/rag_service.py:47 | `" ".join(ws).split() == ws` for non-empty words without whitespace: the words are the maximal runs, in order, with repeats |
| Text.SplitAfterSpaces | app/services/rag_service.py:47 | leading whitespace does not change the words |
| Text.SplitBeforeSpaces | app/services/rag_service.py:47 | trailing whitespace does not change the words |
| Text.SplitTrimStart | app/services/rag_service.py:37 | `s.lstrip().split() == s.split()` |
| Text.SplitTrimEnd | app/services/rag_service.py:37 | `s.rstrip().split() == s.split()` |
| Text.SplitStrip | app/services/rag_service.py:37 | `s.strip().split() == s.split()` |
| Text.LowerJoin | app/services/rag_service.py:37 | lower-casing a space-joined text lower-cases each word and keeps the joins |
| Text.ExtractDigits | app/api/routes.py:156 | the filtered text has only digits, is no longer than the input, and an all-digit input is unchanged |
| Text.DecimalRoundTrip | app/api/routes.py:158 | the value of the decimal rendering of `n` is `n` |
| Text.DigitsOfIntToStr | app/api/routes.py:193-195 | the digits of `str(i)` spell the absolute value of `i` |
| Text.Take | app/services/rag_service.py:80 | `s[:n]` is the prefix of length `min(n, len(s))` |
| Text.LikeMatch | app/api/routes.py:338 | no contract of its own: SQL `LIKE` with `%` and `_`; LikeContains states what the lookups rely on |
| Text.LikeContains | app/api/routes.py:338 | `LIKE '%x%'` matches exactly the texts containing `x`, when `x` holds no wildcard |
| Text.IsSpace | app/api/routes.py:27-30 | no contract of its own: the characters `str.isspace()` and `\s` accept; Strip and Split state what they mean for stripping and splitting |
| Text.Contains | app/services/rag_service.py:57 | no contract of its own: Python's substring `in`; LikeContains ties it to `LIKE '%x%'`, and WordScoreZero and WordScoreFull use it for the keyword points |
| Text.ILike | app/api/routes.py:338 | no contract of its own: `ilike` is `LIKE` on the lower-cased text and pattern; Names.FirstLike and Names.ILikeIsContains state which doctor it picks |
| Calendar.Weekday | app/api/routes.py:360 | `weekday()` lies in 0..6 |
| Calendar.NextDayWeekday | app/api/routes.py:360 | the next calendar day has the next ordinal, and its weekday is one more modulo 7 |
| Calendar.FirstDayIsMonday | app/api/routes.py:420 | 0001-01-01 is a Monday (weekday 0), as in Python |
| Calendar.ExampleWeekdays | app/api/routes.py:420 | 2025-06-02 is a Monday and 2025-06-08 a Sunday |
| Calendar.IsSunday | app/api/routes.py:360 | no contract of its own: `weekday() == 6`; NextDayWeekday, FirstDayIsMonday and ExampleWeekdays pin which days that is |
| Calendar.IsLastDay | app/api/routes.py:362 | no contract of its own: 9999-12-31, the one date whose next day `datetime` cannot represent; Steps.LastDayOverflows states what the query does on it |
| Calendar.LastDayIsFriday | app/api/routes.py:360-362 | 9999-12-31 is a Friday, so the Sunday check lets it through to the overflowing `timedelta` addition |
| Calendar.BeforeIsStrictTotal | app/api/routes.py:529 | the order on instants used by `order_by` is strict and total |
| Calendar.BeforeTransitive | app/api/routes.py:529 | that order is transitive |
| Calendar.Pad2 | app/api/routes.py:48 | `%H`/`%M` rendering is two digits whose value is the number |
| Calendar.TimeTextInjective | app/api/routes.py:363 | distinct hour/minute pairs render to distinct `"%H:%M"` strings |
| Calendar.FormatTime | app/api/routes.py:363 | no contract of its own: `strftime("%H:%M")` is `TimeText` of the hour and minute; TimeText states five characters with a colon in the middle, and TimeTextInjective that distinct times render differently |
| Calendar.SlotTemplate | app/api/routes.py:43-50 | slot `k` is `"%H:%M"` of hour `9 + k/2` and minute `30 * (k % 2)`, for the 16 values of `k` |
| Calendar.SlotTemplateShape | app/api/routes.py:43-50 | the template has 16 slots from "09:00" to "16:30", 30 minutes apart, all distinct |
| Calendar.InTemplateIffOnGrid | app/api/routes.py:363-365 | a time is a template slot exactly when it is on the half-hour grid from 09:00 to before 17:00 |
| Calendar.PlusHalfHour | app/api/routes.py:49 | `+ timedelta(minutes=30)` gives a valid instant exactly 30 minutes later on the absolute minute count, across hour, day, month and year ends |
| Calendar.GenerateSlots | app/api/routes.py:43-50 | the loop returns the 16-slot template for every valid date |
| Calendar.SlotStep | app/api/routes.py:47-49 | at step `k` the loop is before 17:00 exactly when `k < 16`, appends slot `k`, and moves on to slot `k + 1` |
| TimeParse.Field | app/api/routes.py:36 | a numeric field is one or two digits within its range, not followed by another digit, and its value is the number those digits spell |
| TimeParse.DatePrefix | app/api/routes.py:36 | a parsed date has month 1..12 and day 1..31 |
| TimeParse.Parse24 | app/api/routes.py:36 | the 24-hour format yields only existing instants |
| TimeParse.Parse12 | app/api/routes.py:39 | the 12-hour format yields only existing instants |
| TimeParse.MeridiemSpec | app/api/routes.py:39 | `%p` accepts exactly "am" and "pm" in any letter case, and reports PM exactly for "pm" |
| TimeParse.Hour24 | app/api/routes.py:39 | `%I` with `%p` gives an hour in 0..23 |
| TimeParse.Hour12 | app/api/routes.py:39 | every 24-hour hour has a 12-hour reading that `%I %p` maps back to it |
| TimeParse.ParseDateTime | app/api/routes.py:33-41 | `parse_datetime` yields only existing instants; `None` is the 400 error |
| TimeParse.ParseDate | app/api/routes.py:357 | a parsed date is an existing day at midnight |
| TimeParse.DateThenClock | app/api/routes.py:36-39 | after the date and the whitespace that follows it, both formats go on to read their time of day from the same point |
| TimeParse.ParseFormat24 | app/api/routes.py:33-41 | `parse_datetime` reads back any instant rendered as `"%Y-%m-%d"` and `"%H:%M"` |
| TimeParse.ParseText24 | app/api/routes.py:34-36 | a rendered date and 24-hour time read back as that instant |
| TimeParse.ParseFormat12 | app/api/routes.py:38-39 | `parse_datetime` reads back any instant rendered as `"%Y-%m-%d"` and `"%I:%M %p"` |
| TimeParse.Parse12OfText | app/api/routes.py:38-39 | a date with `"II:MM AM"` or `"II:MM PM"` reads as the matching 24-hour instant |
| TimeParse.Parse12OfLayout | app/api/routes.py:35-39 | on `"<date> II:MM AM"` the 24-hour format fails and the 12-hour format succeeds |
| TimeParse.ParseDateOfFormat | app/api/routes.py:357 | `strptime(date, "%Y-%m-%d")` reads back a rendered date as its midnight |
| TimeParse.SingleDigitFieldsAccepted | app/api/routes.py:36 | single-digit month, day, hour and minute are accepted |
| TimeParse.HourPastDayRejected | app/api/routes.py:36-41 | an hour of 24 or more is rejected by both formats |
| TimeParse.FieldAbove | app/api/routes.py:36 | a two-digit number above a field's range is refused |
| TimeParse.NonexistentDateRejected | app/api/routes.py:36-41 | a day that its month does not have is rejected |
| Names.FirstHit | app/api/routes.py:29 | the regex takes the first alternative that matches and is followed by a word boundary; none means no alternative does |
| Names.MatchAt | app/api/routes.py:29 | a deletion at `p` is non-empty and inside the text |
| Names.MatchIsWholeFiller | app/api/routes.py:29 | a deleted stretch is one whole filler word, with word boundaries on both sides |
| Names.WholeFillerMatches | app/api/routes.py:29 | a filler word standing between word boundaries is always deleted |
| Names.TitleDot | app/api/routes.py:29 | "dr.", "mr." and "mrs." lose the dot only when a word character follows it |
| Names.RemoveNothing | app/api/routes.py:29 | a text where no filler matches is left unchanged |
| Names.CollapseSpace | app/api/routes.py:30 | after `re.sub(r'\s+', ' ')` the only whitespace is single spaces, the text is empty, starts with whitespace and ends with whitespace exactly when the input does; CollapseSplit adds that no run vanishes |
| Names.CollapseKeepsText | app/api/routes.py:30 | collapsing whitespace keeps every other character, in order |
| Names.CollapseSplit | app/api/routes.py:30 | collapsing keeps the words: every whitespace run becomes one space, none vanishes |
| Names.TidySuffix | app/api/routes.py:30-31 | a single-spaced, trimmed text cut just before a non-space character stays single-spaced and trimmed |
| Names.TidyIsJoin | app/api/routes.py:30-31 | a single-spaced, trimmed text is its own words joined by single spaces |
| Names.JoinAfterWord | app/api/routes.py:30-31 | a word, one space, and a text that is its own words joined, is again its own words joined |
| Names.CleanWords | app/api/routes.py:25-31 | for non-empty input, the result is `title()` of the words left after lower-casing, stripping and filler deletion, joined by single spaces ("john smith" keeps both words) |
| Names.RemoveFillers | app/api/routes.py:29 | no contract of its own: the `re.sub` scan from position 0; MatchIsWholeFiller, WholeFillerMatches, TitleDot and RemoveNothing state what it deletes |
| Names.TitleFrom | app/api/routes.py:31 | `title()` upper-cases a letter exactly when no letter precedes it and changes nothing else |
| Names.Title | app/api/routes.py:31 | no contract of its own: `TitleFrom` with no letter before the text; TitleIsTitleCased states its result |
| Names.TitleIsTitleCased | app/api/routes.py:31 | every letter of a `title()` result is upper case exactly when it starts a run of letters |
| Names.CleanIsTidyTitle | app/api/routes.py:25-31 | `clean_doctor_name` returns single-spaced, trimmed, title-cased text |
| Names.CleanDoctorName | app/api/routes.py:25-31 | no contract of its own: the pipeline of lower, strip, filler deletion, collapse, strip and title; CleanWords, CleanIsTidyTitle and CleanLowered state its result |
| Names.TitleLower | app/api/routes.py:31 | `title()` changes letter case only |
| Names.CleanLowered | app/api/routes.py:25-31 | empty input gives ""; up to case, the result is the lower-cased input with fillers deleted and whitespace collapsed and trimmed |
| Names.Candidates | app/api/routes.py:339 | the branch filter keeps exactly the doctors of that branch, never a doctor whose branch is NULL, and all doctors when no branch (or 0) is given |
| Names.FirstLike | app/api/routes.py:338-340 | `.first()` of the `ilike` query is the first matching row in table order, and `None` exactly when no row matches |
| Names.BestMatch | app/api/routes.py:350 | `extractOne` picks a best-scoring name, the first among equals |
| Names.FirstNamed | app/api/routes.py:352 | `next(...)` finds the first doctor bearing the matched name |
| Names.ResolveDoctor | app/api/routes.py:338-352 | the doctor found is one of the doctors in scope |
| Names.ILikeIsContains | app/api/routes.py:338 | the `ilike '%name%'` lookup is a case-insensitive substring test |
| Names.SubstringMatchWins | app/api/routes.py:338-342 | when a doctor's name contains the cleaned name, the first such doctor is chosen and fuzzy matching never runs |
| Names.FuzzyFallback | app/api/routes.py:342-352 | with no substring match, the best fuzzy candidate is chosen exactly when its score is above 70 |
| Names.EmptyNamePicksFirst | app/api/routes.py:338-340 | an empty cleaned name matches every doctor, so the first in scope is chosen |
| Names.NoCandidatesNotFound | app/api/routes.py:349-355 | with no doctors in scope, none is found |
| Requests.PutMember | app/api/routes.py:102 | storing a member in the decoded dictionary overwrites the value of an item of the same name in place, and otherwise appends a new item |
| Requests.PutMemberDistinct | app/api/routes.py:102 | storing a member keeps the item names distinct |
| Requests.PutMemberNamed | app/api/routes.py:102 | after storing a member, a name is present exactly when it was present before or is the member's name |
| Requests.DecodeObject | app/api/routes.py:99-102 | the items the validators see have distinct names |
| Requests.DecodeObjectNamed | app/api/routes.py:99-102 | a name is in the decoded object exactly when some member of the body has it |
| Requests.DecodeObjectLast | app/api/routes.py:99-102 | each decoded item is a member of the body that no later member of the same name follows |
| Requests.DecodeObjectSpec | app/api/routes.py:99-102 | the decoded items have exactly the names of the body's members, and each item is a member that no later member of the same name follows |
| Requests.LastOfNameSnoc | app/api/routes.py:99-102 | a member of another name appended to the body keeps an item the last member of its name |
| Requests.RepeatedNameKeepsFirstPlace | app/api/routes.py:99-102 | `{"a": x, "b": y, "a": z}` decodes as `{"a": z, "b": y}`: the first place, the last value |
| Requests.PaddedRepeatLosesToExactName | app/api/routes.py:99-105 | with `{"k ": x, "k": y, "k ": z}`, the cleaned key `k` holds `y`, because decoding already put `"k "` before `"k"` |
| Requests.RemoveChar | app/api/routes.py:104 | `replace(c, '')` leaves no `c`, and removing a whitespace character keeps non-whitespace ends |
| Requests.CleanKey | app/api/routes.py:104 | no contract of its own: strip, then CR (unless kept) and LF removed; CleanKeyShape and CleanKeyIdempotent state its result |
| Requests.CleanKeyShape | app/api/routes.py:104 | a cleaned key has no line feed, no carriage return when those are removed, no whitespace at either end, and is empty exactly for blank keys |
| Requests.CleanKeyIdempotent | app/api/routes.py:104 | cleaning a cleaned key changes nothing |
| Requests.CleanPairs | app/api/routes.py:101-105 | every item keeps its value under its cleaned key, in order |
| Requests.CleanKeys | app/api/routes.py:101-106 | the key-cleaning loop builds the dictionary of cleaned keys, the later of two colliding items winning |
| Requests.CollectDomain | app/api/routes.py:102-105 | the built dictionary has exactly the keys that were assigned |
| Requests.CollectLastWins | app/api/routes.py:105 | a value stays under its key unless a later item assigns that key again |
| Requests.CleanedKeysDomain | app/api/routes.py:101-106 | the cleaned dictionary has exactly the cleaned keys of the items |
| Requests.CleanedKeysLastWins | app/api/routes.py:101-106 | a item whose cleaned key no later item shares keeps its value |
| Requests.GhostKeyFound | app/api/routes.py:139-150 | a key such as `"patient_id\r\n"` is found under its canonical name, and aliases are not consulted |
| Requests.Or | app/api/routes.py:110 | Python `a or b` is truthy exactly when either is |
| Requests.Truthy | app/api/routes.py:110 | no contract of its own: Python truthiness of a JSON value (null, false, 0 and `""` are falsy); Or and AliasPriority state how the alias chains use it |
| Requests.ToStr | app/api/routes.py:192 | no contract of its own: Python `str()` of a JSON value; RescheduleIdOfInt and RescheduleIdOfTrue state what the reschedule validator makes of it |
| Requests.Get | app/api/routes.py:110 | no contract of its own: `data.get(k)` is null for a missing key; AliasPriority states its use |
| Requests.Alias | app/api/routes.py:109-112 | alias mapping adds the canonical key and leaves every other key unchanged |
| Requests.AliasPriority | app/api/routes.py:109-112 | a present canonical key wins; otherwise the first alias if truthy, else the second |
| Requests.BookPatientId | app/api/routes.py:152-160 | a string id with digits becomes the integer those digits spell; one without digits becomes null; any other value is untouched |
| Requests.ReschedulePatientId | app/api/routes.py:189-197 | a falsy id is untouched; a truthy one becomes the integer spelled by the digits of its `str()`, or null when that has none |
| Requests.BookPatientIdOfLabelledNumber | app/api/routes.py:155-158 | `"ID: 210001"` and similar digit-free labels around a number read as that number |
| Requests.BookPatientIdWithoutDigits | app/api/routes.py:159-160 | a string id without digits becomes null |
| Requests.BookPatientIdJoinsRuns | app/api/routes.py:156-158 | digit runs separated by digit-free text read as one number: `"12-34"` becomes 1234 |
| Requests.RescheduleIdOfLabelledNumber | app/api/routes.py:192-195 | the reschedule validator reads `"ID: 210001"`-style ids as the number |
| Requests.PatientIdValidatorsAgree | app/api/routes.py:152-160 | on a non-empty string id the book and reschedule conversions agree; an empty string is nulled by book and left as it is by reschedule |
| Requests.RescheduleIdOfInt | app/api/routes.py:191-195 | an integer id keeps its value and loses its sign |
| Requests.RescheduleIdOfTrue | app/api/routes.py:190-197 | `True` has no digits, so it becomes null |
| Requests.IdAndNameFields | app/api/routes.py:137-160 | the shape the book and test-booking validators share always supplies `patient_id` and its name field |
| Requests.NormalizeBook | app/api/routes.py:137-162 | the booking validator always supplies `patient_id` and `doctor_name`; NormalizeBookValues states their values |
| Requests.NormalizeBookTest | app/api/routes.py:244-266 | the test-booking validator always supplies `patient_id` and `test_name`; NormalizeBookTestValues states their values |
| Requests.NormalizeReschedule | app/api/routes.py:172-199 | the reschedule validator always supplies `patient_id`, `new_date` and `new_time`; NormalizeRescheduleValues and NormalizeRescheduleDateTime state their values |
| Requests.NormalizeCancel | app/api/routes.py:205-212 | the cancel validator always supplies `patient_id`; NormalizeCancelValues states its value |
| Requests.NormalizeAvailability | app/api/routes.py:98-118 | the availability validator supplies `doctor_name` and `branch_id`, and never leaves an empty-string branch; NormalizeAvailabilityValues states their values |
| Requests.AliasOfCleaned | app/api/routes.py:101-109 | on a map that agrees with the cleaned items, an alias step leaves the value of the last item whose key cleans to the canonical name, else the first truthy alias |
| Requests.AliasKeepsAgreement | app/api/routes.py:108-109 | an alias step keeps every other key as it was |
| Requests.SecondAliasValue | app/api/routes.py:108-111 | the same for the second of two alias steps on different keys |
| Requests.ThirdAliasValue | app/api/routes.py:186-191 | the same for the third of three alias steps on different keys |
| Requests.IdAndNameValues | app/api/routes.py:137-160 | the shared shape leaves the last `patient_id` item (else the first truthy of `patientId`, `id`) reduced to its digits, the name field likewise without conversion, and every other cleaned key unchanged, with no other key added |
| Requests.NormalizeBookValues | app/api/routes.py:137-160 | the booking validator's `patient_id` is the last such item (else `patientId` or `id`) reduced to its digits, `doctor_name` is the last such item (else `doctor` or `doctorName`), and every other cleaned key passes through unchanged |
| Requests.NormalizeBookTestValues | app/api/routes.py:244-266 | the test-booking validator's `patient_id` likewise, `test_name` is the last such item (else `test` or `name`), and every other cleaned key passes through unchanged |
| Requests.NormalizeRescheduleValues | app/api/routes.py:172-197 | the reschedule validator's `patient_id` is the last such item (else `patientId` or `id`) converted through `str()` and its digits, and every other cleaned key passes through unchanged |
| Requests.NormalizeRescheduleDateTime | app/api/routes.py:184-189 | `new_date` and `new_time` are the last items so named, else the first truthy of `date`/`newDate` and of `time`/`newTime` |
| Requests.NormalizeCancelValues | app/api/routes.py:205-211 | the cancel validator's `patient_id` is the last item whose key loses only its LF and surrounding whitespace to become `patient_id`, unconverted, else `patientId` or `id`; every other key passes through |
| Requests.NormalizeAvailabilityValues | app/api/routes.py:98-116 | `doctor_name` is the last such item (else `doctor` or `doctorName`); `branch_id` is the last such item (else `branchId` or `branch`) with `""` turned into null; every other cleaned key passes through |
| Requests.EmptyToNull | app/api/routes.py:115-116 | no contract of its own: an empty-string branch becomes null; NormalizeAvailability and NormalizeAvailabilityValues state it |
| Requests.ParseInt | app/api/routes.py:272 | `int()` accepts only non-blank text whose characters after the first are digits or underscores |
| Requests.ParseDigits | app/api/routes.py:272 | `int()` reads a run of decimal digits as the number they spell |
| Requests.ParseNegativeDigits | app/api/routes.py:272 | `int()` reads a minus sign followed by decimal digits as the negated number |
| Requests.ParseDecimal | app/api/routes.py:272 | `int()` reads back the decimal text of every integer |
| Requests.ParseIntRejectsWord | app/api/routes.py:272-273 | text starting with a letter is refused |
| Requests.SafeInt | app/api/routes.py:270-273 | falsy values give `None` |
| Requests.SafeIntOfInt | app/api/routes.py:270-273 | an integer comes back unchanged, except 0, which is falsy |
| Requests.SafeIntOfDecimal | app/api/routes.py:270-273 | the decimal text of any integer, "0" included, comes back as that integer |
| Requests.SafeIntOfBool | app/api/routes.py:270-273 | booleans never come back as integers |
| Schedule.AppendKeepsNoDoubleBooking | app/api/routes.py:443-463 | adding an active row keeps the table free of double bookings exactly when the conflict query finds nothing |
| Schedule.MoveKeepsNoDoubleBooking | app/api/routes.py:537-553 | moving a row to a slot where its doctor has no active row keeps the table free of double bookings |
| Schedule.CancelKeepsNoDoubleBooking | app/api/routes.py:602-605 | deactivating a row never creates a double booking |
| Schedule.Upcoming | app/api/routes.py:525-529 | reschedule targets the patient's earliest active row not before now, the first in table order among equals, and finds none exactly when there is none |
| Schedule.Latest | app/api/routes.py:589-592 | cancel targets the patient's latest active row, past or future, the first in table order among equals, and finds none exactly when there is none |
| Schedule.ActiveCount | app/api/routes.py:589-596 | the patient's active count is zero exactly when the patient has no SCHEDULED or RESCHEDULED row |
| Schedule.DeactivateCount | app/api/routes.py:602 | deactivating one of the patient's active rows lowers the count by one |
| Schedule.HasConflict | app/api/routes.py:441-447 | no contract of its own: an active row of that doctor at exactly that instant; AppendKeepsNoDoubleBooking and Steps.BookConflictIsExact state its role |
| Schedule.Booked | app/api/routes.py:362-365 | no contract of its own: an active row of the doctor that day renders as that `"%H:%M"`; CancelledRowFreesSlot and NewRowTakesItsSlot state it |
| Schedule.FreeSlots | app/api/routes.py:365 | a slot is kept exactly when it is in the list and not booked |
| Schedule.FreeSlotsInOrder | app/api/routes.py:365 | the kept slots stay in template order |
| Schedule.AvailableSlots | app/api/routes.py:362-365 | no contract of its own: the template filtered by FreeSlots; AvailableSlotsSpec states its result |
| Schedule.AvailableSlotsSpec | app/api/routes.py:362-365 | a slot is offered exactly when it is a template slot that no active row of the doctor on that day renders as; the slots are in template order, at most 16 |
| Schedule.CancelledRowFreesSlot | app/api/routes.py:362 | a cancelled row never takes a slot |
| Schedule.NewRowTakesItsSlot | app/api/routes.py:362-363 | a new active row of the doctor that day books exactly its own `"%H:%M"` |
| Schedule.BookingEffectOnSlots | app/api/routes.py:362-365 | a booking on the grid removes exactly its own slot; one off the grid removes none |
| Schedule.OtherRowKeepsSlots | app/api/routes.py:362 | rows of other doctors or other days leave the slots unchanged |
| Steps.AddAppointmentKeepsValid | app/api/routes.py:453-463 | appending an active row with the next key on a free slot keeps the store valid |
| Steps.ReplaceAppointmentKeepsValid | app/api/routes.py:550-553 | updating a row in place, key unchanged and no double booking, keeps the store valid |
| Steps.AddTestAppointmentKeepsValid | app/api/routes.py:745-753 | appending a test booking with the next key keeps the store valid |
| Steps.AddPatientKeepsValid | app/api/routes.py:373-374 | appending a patient with the next key and a new phone number keeps the store valid |
| Steps.FindPatient | app/api/routes.py:438 | the patient lookup finds a row with that id, and none exactly when no row has it |
| Steps.FindPhone | app/api/routes.py:371 | the phone lookup finds the first row with that number, and none exactly when no row has it |
| Steps.FindTest | app/api/routes.py:724-726 | the test lookup finds the first test whose name matches, and none exactly when no test does |
| Steps.BookCommitted | app/api/routes.py:380-463 | a confirmed booking had a date, a time, a parsed non-Sunday instant, a doctor, a patient and no conflict, and appended exactly one SCHEDULED row |
| Steps.Book | app/api/routes.py:380-480 | no contract of its own: the endpoint as a store transition; BookEffect, BookRefusesSunday, BookConflictIsExact and BookKeepsValid state it |
| Steps.BookDoctor | app/api/routes.py:425-463 | no contract of its own: the booking after the lookup; BookDoctorEffect states it |
| Steps.BookEffect | app/api/routes.py:380-463 | a booking either fails and changes nothing, or appends one SCHEDULED row with the next key at the parsed instant for a known doctor |
| Steps.BookDoctorEffect | app/api/routes.py:434-463 | after the doctor lookup, a booking either fails and changes nothing, or appends the one row for the doctor found |
| Steps.BookRefusesSunday | app/api/routes.py:420-421 | a Sunday is refused before any doctor or patient lookup, whatever the tables hold |
| Steps.BookConflictIsExact | app/api/routes.py:443-450 | once doctor and patient are found, a booking is refused exactly when an active row holds that doctor at that instant |
| Steps.BookKeepsValid | app/api/routes.py:443-463 | booking keeps keys increasing and never double-books a slot |
| Steps.BookEffectOnAvailability | app/api/routes.py:362-365 | a booking never adds a free slot, and one off the half-hour grid changes no doctor's slots |
| Steps.Reschedule | app/api/routes.py:483-572 | no contract of its own: the endpoint as a store transition; RescheduleEffect, RescheduleToSameInstantRefused and RescheduleKeepsValid state it |
| Steps.RescheduleEffect | app/api/routes.py:483-553 | a reschedule either fails and changes nothing, or changes only the target row's instant, status (RESCHEDULED) and ModifiedAt; doctor and patient stay |
| Steps.RescheduleCommitted | app/api/routes.py:525-544 | a committed move had an id, a parsed instant, an upcoming row and no conflict at the new instant |
| Steps.RescheduleToSameInstantRefused | app/api/routes.py:537-544 | the conflict check does not exclude the row being moved, so moving it to its own instant is refused |
| Steps.RescheduleKeepsValid | app/api/routes.py:537-553 | rescheduling keeps the store valid |
| Steps.Cancel | app/api/routes.py:573-617 | no contract of its own: the endpoint as a store transition; CancelEffect, CancelCounts and CancelsRunOut state it |
| Steps.CancelEffect | app/api/routes.py:573-605 | a cancel either fails and changes nothing, with the missing-id reason exactly when the id is absent or 0, or marks the latest active row CANCELLED with ModifiedBy 1 and ModifiedAt now |
| Steps.CancelCounts | app/api/routes.py:589-605 | a cancel fails with "none active" exactly when the count is 0; otherwise it succeeds and lowers the count by one |
| Steps.CancelsRunOut | app/api/routes.py:589-596 | after as many cancels as the patient has active rows, the next reports none |
| Steps.CancelTimesCount | app/api/routes.py:589-605 | `n` cancels in a row lower the active count by `n` |
| Steps.CancelKeepsValid | app/api/routes.py:602-605 | cancelling keeps the store valid |
| Steps.BookKeepsCancelled | app/api/routes.py:453-463 | booking never reactivates a cancelled row |
| Steps.RescheduleKeepsCancelled | app/api/routes.py:525-553 | rescheduling never reactivates a cancelled row |
| Steps.CancelKeepsCancelled | app/api/routes.py:589-605 | cancelling never reactivates a cancelled row |
| Steps.BookTest | app/api/routes.py:711-771 | no contract of its own: the endpoint as a store transition; BookTestEffect and BookTestCheckOrder state it |
| Steps.BookTestEffect | app/api/routes.py:711-771 | a test booking either fails and changes nothing, or appends one CONFIRMED row for an available test |
| Steps.BookTestCheckOrder | app/api/routes.py:720-738 | each failure names the first check that failed: missing date or time, then no matching test, then the matched test unavailable, then an unknown patient, each as an if-and-only-if |
| Steps.BookTestCommitted | app/api/routes.py:740-753 | with a date, a time, an available test, a known patient and a parsable instant, the booking appends exactly one CONFIRMED row with the next key |
| Steps.BookTestAcceptsAnyInstant | app/api/routes.py:720-753 | test booking has no Sunday rule and no slot check |
| Steps.BookTestKeepsValid | app/api/routes.py:745-753 | test booking keeps the store valid |
| Steps.Register | app/api/routes.py:369-376 | no contract of its own: the endpoint as a store transition; RegisterEffect and RegisterTwice state it |
| Steps.RegisterEffect | app/api/routes.py:369-376 | a known phone returns its patient and creates nobody; a new phone creates one patient with the next key |
| Steps.RegisterTwice | app/api/routes.py:371-372 | registering the same phone twice gives the same id, and the second call changes nothing |
| Steps.RegisterKeepsValid | app/api/routes.py:371-374 | registering keeps keys increasing and phone numbers unique |
| Steps.Blank | app/api/routes.py:392 | no contract of its own: `not x or not str(x).strip()` for a text field; Text.StripEmptyIffBlank states that this means all whitespace |
| Steps.MissingId | app/api/routes.py:492 | no contract of its own: `not req.patient_id` refuses both a missing id and 0; RescheduleEffect and CancelEffect state that no move or cancellation happens then |
| Steps.CheckAvailability | app/api/routes.py:324-367 | no contract of its own: the endpoint as a query, including the overflow on the last representable day and the failure for a doctor without a branch; AvailabilitySpec states it |
| Steps.DayAvailability | app/api/routes.py:357-367 | no contract of its own: the answer for a found doctor, with 9999-12-31 failing where `target_date + timedelta(days=1)` overflows and a branchless doctor failing where the response reads `doctor_obj.branch.Branch_Name`; DayAvailabilitySpec and LastDayOverflows state it |
| Steps.AvailabilitySpec | app/api/routes.py:324-367 | a day answer names a doctor in scope; it is "closed" exactly on Sundays; the request fails with an overflow exactly when the doctor is found and the date is a non-Sunday 9999-12-31, and fails on the missing branch exactly when the found doctor has none and the date is any other non-Sunday; a slot list comes only for a doctor with a branch, and holds, in template order, exactly the template slots that doctor's active rows that day leave free |
| Steps.DayAvailabilitySpec | app/api/routes.py:357-367 | for a found doctor: a bad date format exactly when the date does not parse, an overflow exactly on a non-Sunday 9999-12-31, a missing-branch failure exactly on the other non-Sundays when the doctor has no branch, a slot list exactly on those days when it has one, and that list is the free template slots in order |
| Steps.LastDayOverflows | app/api/routes.py:362 | on 9999-12-31, at any time of day, the availability query for a found doctor ends in the overflow failure |
| Endpoints.Clinic.Book | app/api/routes.py:380-480 | the method's outcome and new tables are those of `Steps.Book`, and the tables stay valid |
| Endpoints.Clinic.BookDoctor | app/api/routes.py:437-463 | the patient check, conflict check and insert change the tables as `Steps.BookDoctor` does |
| Endpoints.Clinic.Reschedule | app/api/routes.py:483-572 | the outcome and in-place row update are those of `Steps.Reschedule`, and the tables stay valid |
| Endpoints.Clinic.Cancel | app/api/routes.py:573-617 | the outcome and in-place row update are those of `Steps.Cancel`, and the tables stay valid |
| Endpoints.Clinic.BookTest | app/api/routes.py:711-771 | the outcome and new tables are those of `Steps.BookTest`, and the tables stay valid |
| Endpoints.Clinic.Register | app/api/routes.py:369-376 | the outcome and new tables are those of `Steps.Register`, and the tables stay valid |
| Endpoints.Clinic.CheckAvailability | app/api/routes.py:324-367 | the answer is `Steps.CheckAvailability` of the current tables, so it fails for a branchless doctor as AvailabilitySpec states |
| Endpoints.Clinic.OpenSlots | app/api/routes.py:362-365 | the slots offered on a non-Sunday are the template minus the doctor's booked times, in order |
| Endpoints.Clinic.FilterFree | app/api/routes.py:365 | the comprehension keeps exactly the unbooked slots, in order |
| Endpoints.Clinic.BookedTimes | app/api/routes.py:362-363 | the set holds exactly the `"%H:%M"` of the doctor's active rows that day |
| Knowledge.Keywords | app/services/rag_service.py:47 | every kept word is a keyword, and there are no more of them than words; KeywordsSpec, KeywordsAppend and KeywordsOne fix the list |
| Knowledge.KeywordsSpec | app/services/rag_service.py:47 | a word is kept exactly when it is in the query and is not a stop word and longer than 2 |
| Knowledge.KeywordsAppend | app/services/rag_service.py:47 | selection works word by word, so order and repeats are kept |
| Knowledge.KeywordsOne | app/services/rag_service.py:47 | a single word is kept exactly when it is a keyword |
| Knowledge.QueryText | app/services/rag_service.py:37 | no contract of its own: the lower-cased, stripped question; QueryWordsSpec and BlankQueryRanksAll state its use |
| Knowledge.QueryWords | app/services/rag_service.py:47 | no contract of its own: the keywords of the question; QueryWordsSpec states exactly which words they are |
| Knowledge.Show | app/services/rag_service.py:78 | no contract of its own: an f-string renders a missing title or URL as `None`; BlockShape states the source line |
| Knowledge.Content | app/services/rag_service.py:52 | no contract of its own: `doc.get("content", "")`; ScoresIffMatches and BlockShape state its use |
| Knowledge.QueryWordsSpec | app/services/rag_service.py:37-47 | the keywords are exactly the words of the lower-cased, stripped query that are not stop words and are longer than 2; each is non-empty and has no whitespace |
| Knowledge.QueryWordsOfWords | app/services/rag_service.py:37-47 | for a query whose words are `ws`, the keywords are exactly the lower-cased `ws` minus stop words and words of length at most 2, in order and with repeats |
| Knowledge.WordScore | app/services/rag_service.py:56-58 | the keyword points are even and at most 2 per keyword |
| Knowledge.WordScoreZero | app/services/rag_service.py:56-58 | the keyword points are 0 exactly when no keyword occurs |
| Knowledge.WordScoreFull | app/services/rag_service.py:56-58 | the keyword points are full exactly when every keyword occurs |
| Knowledge.Score | app/services/rag_service.py:52-62 | a score lies between 0 and 2 per keyword plus 5 |
| Knowledge.ScoresIffMatches | app/services/rag_service.py:51-65 | a page is kept exactly when its lower-cased content contains the whole query or one of the keywords |
| Knowledge.Scored | app/services/rag_service.py:64-65 | every kept result has a positive score |
| Knowledge.ScoredSpec | app/services/rag_service.py:51-65 | a result is kept exactly when its page is a document with that positive score |
| Knowledge.SortByScore | app/services/rag_service.py:68 | the insertion sort keeps the length; SortByScoreSpec and StableSortUnique state that it is `list.sort` |
| Knowledge.SortByScoreSpec | app/services/rag_service.py:68 | the sort is highest first, keeps the same results, and keeps document order among equal scores |
| Knowledge.StableSortUnique | app/services/rag_service.py:68 | a stable descending sort has one possible result, so the model gives the same order as Python's `list.sort` |
| Knowledge.Ranked | app/services/rag_service.py:51-68 | no contract of its own: the scored pages, sorted; RankedSpec states it |
| Knowledge.RankedSpec | app/services/rag_service.py:51-68 | the ranking holds exactly the scoring pages with their scores, highest first, ties in document order |
| Knowledge.PySlice | app/services/rag_service.py:70 | `results[:limit]` is the prefix Python's slice takes, including for a negative limit |
| Knowledge.Block | app/services/rag_service.py:78-80 | no contract of its own: one page's text; BlockShape states it |
| Knowledge.BlockShape | app/services/rag_service.py:77-80 | a page contributes its source line, at most 600 characters of its content, and "..." |
| Knowledge.SearchSpec | app/services/rag_service.py:33-83 | the returned text is never longer than 2000 characters |
| Knowledge.SearchSpecShape | app/services/rag_service.py:72-75 | the fallback sentence comes back exactly when no page is shown; otherwise the text opens with the header line |
| Knowledge.FallbackIffNoMatch | app/services/rag_service.py:64-73 | with a positive limit, the fallback sentence comes back exactly when no page scores |
| Knowledge.BestShownFirst | app/services/rag_service.py:68-70 | the first page shown scores at least as high as every document |
| Knowledge.BlankQueryRanksAll | app/services/rag_service.py:37-68 | a blank query is contained in every page, so every document scores 5, in document order |
| Knowledge.KnowledgeBase.Search | app/services/rag_service.py:33-83 | `search` returns `SearchSpec` of its documents, query and limit, and changes nothing |
| Knowledge.Collect | app/services/rag_service.py:51-65 | the document loop keeps exactly the scoring pages, in document order |
| Knowledge.ScoreDocument | app/services/rag_service.py:52-62 | the inner loop computes the page's score |
| Knowledge.AppendBlocks | app/services/rag_service.py:77-80 | the `+=` loop appends the shown pages' blocks in ranking order |

## Left out

- E-mail notifications (welcome, booking, reschedule, cancellation and test confirmations) are side effects with no result the endpoint depends on. They are not modelled.
- Logging, and the `CreatedIpAddress`/`ModifiedIpAddress` audit columns taken from `request.client.host`, are not modelled. `CreatedBy`, `CreatedAt`, `ModifiedBy` and `ModifiedAt` are kept.
- Response messages and dictionaries are reduced to typed outcomes (`Steps.Outcome`, `Steps.Availability`). The texts of the messages are not modelled.
- The availability response's branch name is left out. It reads the `Branch` table through a relationship that this model does not hold. A doctor whose `Branch_Id` is NULL has no branch to read, and that case is modelled as the failure `Steps.NoBranch` (the source raises an uncaught `AttributeError`, a server error). A non-NULL `Branch_Id` is assumed to name an existing branch, as its foreign key requires.
- Persistence mechanics are not modelled: sessions, `commit`, connection errors and the `StorageError` path. The read-then-write race between the conflict query and the insert is a concurrency issue and is outside a sequential model; each endpoint runs as one atomic step.
- `thefuzz` similarity scoring is a foreign library. The model takes the scorer as a function parameter and proves only what follows from choosing its first maximum.
- Case mapping, `\w` and `str.isdigit` are modelled for ASCII only. Non-ASCII letters and digits are treated as other characters. `str.isspace` uses its full Unicode set.
- SQL `LIKE` escape characters and database collation are not modelled. `ilike` is `lower(text) LIKE lower(pattern)` with `%` and `_`.
- Pydantic type coercion after the validators is not modelled: the typed `patient_id: int` field rejecting null, or a non-numeric string. The endpoints take the id as the validated integer, or as `Option<int>` where the field is optional.
- Cancel's string ids are not modelled. The cancel validator does not convert the id, and a string id reaches the database query unconverted; the model takes an optional integer.
- The JSON text itself (tokens, escapes, whitespace) is not parsed. `Requests.DecodeObject` starts from the object's members in order and models only how `json.loads` merges repeated names.
- On 9999-12-31 the availability query raises an uncaught `OverflowError` (a server error, not a JSON answer). The model returns the outcome `Steps.DayOutOfRange` for it and does not model the error response.
- JSON values in requests are null, booleans, integers and strings. Floats, lists and objects are not modelled. Document fields are optional strings.
- Names.FirstLike, Names.SubstringMatchWins, Names.EmptyNamePicksFirst, Steps.FindTest, Schedule.Upcoming and Schedule.Latest: the database returns an unspecified row for `.first()` without `ORDER BY` (app/api/routes.py:338-340, 425, 724-726) and among rows tied on `Appointment_Date` (app/api/routes.py:525-529, 589-592). The model assumes the earliest row in insertion order. That is an assumption about an unspecified choice, not behaviour the program promises.
- `KnowledgeBase.load_data` reads the filesystem and is not part of this model. The documents are the class's field, given at construction.
- `datetime.now()` is a parameter (`Calendar.Now`), as is the current session's table content.
- The reschedule endpoint's doctor-name lookup feeds only the notification e-mail, so it is not modelled.
- The other endpoints (`/branches`, `/doctors`, `/patient/verify`, the knowledge and test-availability tools) are not part of this model.
- Requests.ParseInt: the contract states only what the accepted text looks like. Its values are stated by `Requests.ParseDigits`, `Requests.ParseNegativeDigits`, `Requests.ParseDecimal` and `Requests.ParseIntRejectsWord`, not for every input (signs, underscores and surrounding whitespace are modelled in the body).
- Knowledge.SearchSpec: Python's `lower()` is modelled for ASCII only, as everywhere else.
- TimeParse.Parse12: strptime's locale-dependent behaviour is not modelled; the C locale is assumed for `%p` (see also `TimeParse.MeridiemSpec`).

# FlowArc review scheduling, modelled in Dafny

FlowArc is a skill-practice journal. A user logs a practice session, a language
model grades it, and an FSRS spaced-repetition card decides when the skill is
next due. This project models the parts of the application that make these
decisions, and proves what they promise:

- **Scheduling helpers** (`fsrs.dfy`, module `Fsrs`):
  - turning an analysis (feeling, skill level, confidence) into an FSRS grade;
  - creating a card and advancing it with the scheduler;
  - days until due, whether a card is due (`IsReviewDue`), urgency, the due label and the mastery level.
- **Prompt-injection filter** (`llm_analysis.dfy`, module `LlmAnalysis`): `sanitizeInput`.
  - Its six case-insensitive regular expressions become token lists.
  - A greedy matcher over those lists is proved sound and complete against the regular-expression language.
- **VAPID key conversion** (`push_notification.dfy`, module `PushNotification`): `urlBase64ToUint8Array`.
  - It turns base64url (section 5 of RFC 4648) into standard base64 (section 4 of RFC 4648).
  - `atob` follows the forgiving-base64 decode of the WHATWG Infra Standard.
  - The decoded character codes are copied into a new byte array.
- **Daily reminder job** (`notify_expired.dfy`, module `NotifyExpired`):
  - groups the due skill documents by user;
  - builds each user's notification text;
  - collects the users whose push notification was delivered.
- **Skill card** (`skill_card.dfy`, module `SkillCard`): the relative date label and the colour priority.
- **Home page lists** (`home_page.dfy`, module `HomePage`):
  - the category tabs;
  - the skills shown under a tab;
  - removal of a deleted skill;
  - whether a category name is shown (`ShowCategoryName`).
- **Add-skill form** (`skill_form.dfy`, module `SkillForm`):
  - a class holding the two text fields;
  - the submit handler;
  - the submit button's disabled state.

Shared modules:

- `numerics.dfy` holds the day rounding and the decimal rendering of numbers in labels and ids.
- `js_strings.dfy` holds JavaScript whitespace and `String.prototype.trim`.
- `sequences.dfy` holds `filter`, insertion into a `Set`, and order facts about them.
- `wrappers.dfy` holds `Option`.

Instants are integers: milliseconds since the epoch. Each reading of the clock
is a parameter (`now`, `clockMs`). The scheduler `f.next`, `createEmptyCard`
and `formatDate` of the ts-fsrs library are parameters:

- a `Scheduler` function;
- an `emptyCard` value;
- a `formatDate` function.

In the reminder job, the stored push subscriptions are a map. Whether a send
succeeds is a function parameter of the user id, the subscription, the title
and the body, so each user's send succeeds or fails on its own.

The app does not blend the scheduler's interval with the analysis's
`nextReviewInterval`. It applies no minimum interval per category and clamps
no analysis field, so none of these are modelled. A skill level of 0, for
example, is simply below 4.

## Model

| member | source | states |
|---|---|---|
| Fsrs.AnalysisToGrade | src/app/fsrs.ts:24-44 | The grade is Easy exactly for a smooth session at level ≥ 7 with confidence ≥ 0.7. It is Again or Hard exactly for a difficult session or a level below 4. Within those it is Again exactly when confidence < 0.6. |
| Fsrs.AnalysisToGradeFirstMatch | src/app/fsrs.ts:30-43 | The later rules apply only when the earlier ones do not. Each of these gets Good: smooth at level ≥ 5 without the Easy condition; normal at level ≥ 4; smooth at level 4; an unrecognised feeling at level ≥ 4. |
| Fsrs.GradeMonotoneInConfidence | src/app/fsrs.ts:28-40 | With feeling and level fixed, more confidence never gives a lower grade. |
| Fsrs.GradeMonotoneInSkillLevel | src/app/fsrs.ts:28-43 | With feeling and confidence fixed, a higher level never gives a lower grade. |
| Fsrs.CreateNewFsrsCard | src/app/fsrs.ts:47-59 | The new card holds the skill id and the library's empty card. Its id is the skill id, `_` and the clock reading. Both dates are the creation instant, so the card is due at once with 0 days left. |
| Fsrs.CardIdsDistinct | src/app/fsrs.ts:48 | Two cards made for one skill at different clock readings get different ids. |
| Fsrs.ReviewCard | src/app/fsrs.ts:62-75 | The card id and skill id are kept. The library card is the scheduler's result for the graded analysis. The review instant is recorded, and the next review is the new card's due instant. |
| Fsrs.ReviewedCardNotDue | src/app/fsrs.ts:62-89 | Whenever the scheduler moves the due instant past the review instant, the reviewed card is not due at that instant and has at least one day left. |
| Fsrs.DaysUntilNextReview | src/app/fsrs.ts:78-89 | The count is never negative. It is 0 exactly when the card is due. Otherwise it is the d with (d−1) days < time left ≤ d days. |
| Fsrs.DaysUntilNonIncreasing | src/app/fsrs.ts:78-83 | As time passes the day count never grows. |
| Fsrs.UrgencyForDays | src/app/fsrs.ts:94-98 | The urgency is one of 1.0, 0.8, 0.6, 0.4 and 0.2. It is 1.0 exactly when no days are left, 0.8 exactly for 1 day, 0.6 exactly for 2 or 3 days, 0.4 exactly for 4 to 7 days and 0.2 exactly for more than 7. |
| Fsrs.UrgencyNonIncreasingInDays | src/app/fsrs.ts:94-98 | More days left never means more urgency. |
| Fsrs.ReviewUrgency | src/app/fsrs.ts:92-99 | The urgency is one of the five values. It is 1.0 exactly when the card is due, 0.8 exactly when it is due within a day, 0.6 exactly when within 1 to 3 days, 0.4 exactly when within 3 to 7 days, and 0.2 exactly when more than 7 days away. |
| Fsrs.IsReviewDue | src/app/fsrs.ts:86-89 | A card is due exactly when the whole days until its due instant, rounded up, are zero or fewer. |
| Fsrs.UrgencyNonDecreasingOverTime | src/app/fsrs.ts:92-99 | As time passes a card's urgency never drops. |
| Fsrs.FormatNextReviewDate | src/app/fsrs.ts:102-114 | A due card reads `復習が必要`, one day left reads `明日`, and 2 to 7 days read the decimal count followed by `日後`. Beyond a week the label is the library formatter's rendering of the due instant. |
| Fsrs.FormatNextReviewDateDeterminesDays | src/app/fsrs.ts:105-110 | Within a week, equal labels mean equal day counts. |
| Fsrs.SkillMasteryLevel | src/app/fsrs.ts:117-129 | The level is beginner below 30 days of stability, intermediate from 30 up to 90, advanced from 90 up to 365, and expert from 365. |
| Fsrs.MasteryMonotoneInStability | src/app/fsrs.ts:117-129 | A more stable card never has a lower mastery level. |
| Numerics.CeilDays | src/app/fsrs.ts:81 | `Math.ceil(ms / 86400000)` is the day count d with (d−1) days < ms ≤ d days. |
| Numerics.NatToStringRoundTrip | src/app/fsrs.ts:110 | A count rendered in a template literal reads back as the same number. |
| Numerics.IntToStringInjective | src/app/fsrs.ts:48 | Different clock readings render differently, including negative readings. |
| LlmAnalysis.MatchAt | src/app/llmAnalysis.ts:38-43 | A match found at a start position ends between that position and the end of the input. |
| LlmAnalysis.MatchAtSound | src/app/llmAnalysis.ts:38-43 | Every block the matcher reports belongs to the pattern's regular-expression language: literals ignoring case, and `\s+`/`\s*` as runs of JavaScript whitespace. |
| LlmAnalysis.MatchAtComplete | src/app/llmAnalysis.ts:38-43 | Every block of the language that starts at a position is the block the greedy matcher finds there. |
| LlmAnalysis.SearchFrom | src/app/llmAnalysis.ts:47-48 | The search reports the first start position with a match and that match's end. It reports nothing only when no position matches. |
| LlmAnalysis.Find | src/app/llmAnalysis.ts:47-48 | A match is found at the least start index where the matcher succeeds, and no earlier index has one. Nothing is found exactly when no index has a match. |
| LlmAnalysis.FindIsLeftmostMatch | src/app/llmAnalysis.ts:47-48 | What `test` detects and `replace` replaces is the leftmost block in the language. Nothing is found exactly when no block of the input is in the language. |
| LlmAnalysis.FirstHit | src/app/llmAnalysis.ts:46-50 | The result is the first pattern in list order that matches anywhere, with its leftmost match. Every earlier pattern matches nowhere. |
| LlmAnalysis.FirstHitIsLeftmostBlock | src/app/llmAnalysis.ts:46-50 | Nothing is replaced exactly when no block of the input is in any pattern's language. Otherwise the replaced block is in the language of the first pattern that has such a block, and no block starting earlier is in that language. |
| LlmAnalysis.SanitizeInput | src/app/llmAnalysis.ts:35-53 | When no pattern matches, the input comes back unchanged. Otherwise only the leftmost match of the first matching pattern becomes `[フィルタリング済み]`, and the text before and after it is kept. |
| LlmAnalysis.FirstHitIgnoresCase | src/app/llmAnalysis.ts:38-43 | Inputs that differ only in ASCII letter case hit the same pattern at the same positions (the `i` flag). |
| LlmAnalysis.SanitizeOutputMayStillMatch | src/app/llmAnalysis.ts:46-50 | One pass does not clean the text: a match that starts at or after the end of the replaced block still matches in the output, so the output again triggers a pattern. |
| JsStrings.Trim | src/app/components/SkillForm.tsx:14-15 | The result is the input with its leading and trailing JavaScript whitespace removed. It starts and ends with a non-whitespace character, and it is empty exactly when the input is all whitespace. |
| JsStrings.TrimUnique | src/app/components/SkillForm.tsx:15 | Exactly one tight string is obtained from a text by dropping surrounding whitespace. |
| JsStrings.TrimIdempotent | src/app/components/SkillForm.tsx:15 | Trimming a trimmed string changes nothing. |
| PushNotification.Padding | src/app/pushNotification.ts:78 | There are between 0 and 3 `=`, they make the length a multiple of 4, and there are three exactly when the length is 1 more than a multiple of 4. |
| PushNotification.ToStandardAlphabet | src/app/pushNotification.ts:79 | Every `-` becomes `+` and every `_` becomes `/`. Every other character keeps its value and position. |
| PushNotification.Normalise | src/app/pushNotification.ts:78-79 | The text handed to `atob` has a length that is a multiple of 4 and no shorter than the key. |
| PushNotification.Atob | src/app/pushNotification.ts:80 | A successful decode is a binary string: every character code is below 256. |
| PushNotification.CharCodes | src/app/pushNotification.ts:81-84 | There is one byte per character, and byte i is the code of character i. |
| PushNotification.CopyCharCodes | src/app/pushNotification.ts:81-84 | The loop fills a new array whose contents are the character codes of the decoded string. |
| PushNotification.UrlBase64ToUint8Array | src/app/pushNotification.ts:77-86 | The conversion fails exactly when `atob` throws. Otherwise it returns a new array holding the decoded bytes. |
| PushNotification.DecodeSextets | src/app/pushNotification.ts:80 | Decoding the 6-bit groups of an encoding gives back the bytes. |
| PushNotification.StripPaddingOfPadded | src/app/pushNotification.ts:78-80 | The `=` added to an encoding are exactly those that `atob` removes. |
| PushNotification.UrlBase64RoundTrip | src/app/pushNotification.ts:77-86 | Base64url-encoding any bytes without padding and converting the text back gives the same bytes. |
| PushNotification.UrlBase64Decode | src/app/pushNotification.ts:77-86 | The conversion fails exactly when `atob` throws on the padded, standard-alphabet key. It always fails for a key one character longer than a multiple of four. |
| PushNotification.LengthOneMoreThanMultipleOfFourFails | src/app/pushNotification.ts:78-80 | A key whose length is 1 more than a multiple of 4 gets three `=`, and `atob` then always throws. |
| NotifyExpired.IsComplete | src/app/api/cron/notify-expired/route.ts:32 | A document is used exactly when it is a pair of a non-empty user id and a non-empty name. |
| NotifyExpired.UserIds | src/app/api/cron/notify-expired/route.ts:30-32 | A user id occurs exactly when some document with both a user id and a name carries it. |
| NotifyExpired.GroupByUser | src/app/api/cron/notify-expired/route.ts:29-35 | The keys are the users of the complete documents, in the order of each user's first document. Each list holds that user's skill names in snapshot order, repeats kept. |
| NotifyExpired.UserOrderIsUsersWithDocs | src/app/api/cron/notify-expired/route.ts:32-34 | A user is a key exactly when one of their documents is complete. A key's list is never empty. |
| NotifyExpired.GroupingKeepsEveryName | src/app/api/cron/notify-expired/route.ts:29-35 | The list lengths add up to the number of complete documents: no name is lost or counted twice. |
| NotifyExpired.QuotedList | src/app/api/cron/notify-expired/route.ts:47 | The list is empty exactly when there are no names. Otherwise it opens with `「` and closes with `」`. |
| NotifyExpired.NotificationBody | src/app/api/cron/notify-expired/route.ts:45-47 | Every body ends with the sentence `アプリで進捗を記録しましょう。`. It opens with `「` exactly when there is one skill. |
| NotifyExpired.BodyShape | src/app/api/cron/notify-expired/route.ts:45-47 | One skill gives `「name」` followed by the fixed sentence. Any other number gives the fixed heading, then the quoted list, then the line-feed closing line. |
| NotifyExpired.QuotedListAdjacent | src/app/api/cron/notify-expired/route.ts:47 | Neighbouring names appear next to each other, in order, each in 「」 and separated by `、`. |
| NotifyExpired.BodyMentionsEverySkill | src/app/api/cron/notify-expired/route.ts:45-47 | Every one of the user's skills appears quoted in the body. |
| NotifyExpired.NotifyUsers | src/app/api/cron/notify-expired/route.ts:37-54 | The result is the users, in map order, who have a subscription and whose own send of this title and body succeeded. |
| NotifyExpired.NotifyExpiredReviews | src/app/api/cron/notify-expired/route.ts:24-56 | Each notified user appears at most once, in the order of their first due document. A user is notified exactly when they own a complete due document, have a subscription, and the send of their body succeeded. |
| SkillCard.FormatDate | src/app/components/SkillCard.tsx:10-19 | The label is `今日` exactly for 0 days and `明日` exactly for 1 day. A negative d gives \|d\| with `日経過`, and d ≥ 2 gives d with `日後`. |
| SkillCard.FormatDateDeterminesDays | src/app/components/SkillCard.tsx:15-18 | Equal labels mean equal day counts: exactly one label applies to each count. |
| SkillCard.PastAndFutureLabelsDiffer | src/app/components/SkillCard.tsx:17-18 | A past label never equals a future label. |
| SkillCard.IsOverdue | src/app/components/SkillCard.tsx:21 | An overdue date is zero or more whole days past; any other date is zero or more whole days ahead. |
| SkillCard.IsToday | src/app/components/SkillCard.tsx:22 | Today holds exactly when the date is at most now and less than a day before it. |
| SkillCard.IsTomorrow | src/app/components/SkillCard.tsx:23 | Tomorrow holds exactly when the date is after now and at most one day after it. |
| SkillCard.TomorrowLabelWindow | src/app/components/SkillCard.tsx:12-16 | The label is `明日` exactly when the date is after now and at most one day after it. |
| SkillCard.TodayLabelWindow | src/app/components/SkillCard.tsx:12-15 | The label is `今日` exactly when the date is at most now and less than a day before it. |
| SkillCard.GetCardStyle | src/app/components/SkillCard.tsx:25-44 | Overdue colours come first, then today's, then tomorrow's, otherwise the default. Each style is chosen exactly in its case. |
| SkillCard.DateTextColor | src/app/components/SkillCard.tsx:113 | The date text is red exactly when overdue, orange exactly when not overdue and labelled today, and the plain text colour in every other case. It is always the border colour or the plain text colour. |
| SkillCard.DueNowIsToday | src/app/components/SkillCard.tsx:21-22 | Overdue is strict: a date equal to now is styled as today's. |
| SkillCard.RecentPastLabelledTodayStyledOverdue | src/app/components/SkillCard.tsx:21-34 | A date less than a day in the past is labelled `今日` but styled as overdue. |
| SkillCard.NextDayIsHighlighted | src/app/components/SkillCard.tsx:21-38 | A date within the next day is styled as today's or tomorrow's, never with the default colours. |
| Sequences.Dedupe | src/app/page.tsx:78 | The result holds every element of the input and nothing else, each once. |
| Sequences.DedupeKeepsFirstAppearanceOrder | src/app/page.tsx:78 | The elements appear in the order of their first occurrence in the input. |
| Sequences.FilterNoDuplicates | src/app/api/cron/notify-expired/route.ts:37-54 | Filtering a list without repeats gives a list without repeats. |
| HomePage.CategoryValues | src/app/page.tsx:78 | The values are never empty. A string is among them exactly when it is non-empty and some skill has it as its category. |
| HomePage.Categories | src/app/page.tsx:78 | The tabs have no repeats and no empty entry. A string is a tab exactly when it is non-empty and some skill's category. |
| HomePage.CategoriesInFirstAppearanceOrder | src/app/page.tsx:78 | The tabs are ordered by where their category first appears among the skills. |
| HomePage.FilteredSkills | src/app/page.tsx:138 | Under `all` the list is unchanged. Otherwise it is exactly the skills of the selected category, in their original order and with their multiplicities. |
| HomePage.RemoveSkill | src/app/page.tsx:73-75 | Every skill with the deleted id is gone. Every other skill is kept, in order and as many times as before. |
| HomePage.RemoveSkillAbsentOrRepeated | src/app/page.tsx:74 | Deleting an id no skill carries changes nothing, and deleting the same id twice is deleting it once. |
| HomePage.ShowCategoryName | src/app/page.tsx:146 | A category name is shown exactly when the selected tab is neither `all` nor `category-select`. |
| HomePage.ShownCategoryMatchesSkills | src/app/page.tsx:138-146 | When a category name is shown, every listed skill belongs to that category. |
| SkillForm.SubmissionFor | src/app/components/SkillForm.tsx:12-19 | Nothing is submitted exactly when the name is all whitespace. A submitted name is non-empty, has no surrounding whitespace, and is the typed name with only surrounding whitespace dropped. The category is absent exactly when it is all whitespace; otherwise it is non-empty, has no surrounding whitespace, and is the typed category with only surrounding whitespace dropped. |
| SkillForm.SubmittedFieldsAreTrimmed | src/app/components/SkillForm.tsx:14-15 | From the submission's contract alone, the submitted name is `skillName.trim()` and the category is `category.trim()`, or absent when that is empty. |
| SkillForm.SkillFormState.constructor | src/app/components/SkillForm.tsx:9-10 | Both fields start empty. |
| SkillForm.SkillFormState.SetSkillName | src/app/components/SkillForm.tsx:44 | The name field takes the typed value, and the category is unchanged. |
| SkillForm.SkillFormState.SetCategory | src/app/components/SkillForm.tsx:71 | The category field takes the typed value, and the name is unchanged. |
| SkillForm.SkillFormState.SubmitDisabled | src/app/components/SkillForm.tsx:107 | The button is disabled exactly when a submit would pass nothing on. |
| SkillForm.SkillFormState.HandleSubmit | src/app/components/SkillForm.tsx:12-19 | The submission is what the fields call for. After a submission both fields are empty. A rejected submit leaves both fields unchanged. |

## Left out

- The internals of the ts-fsrs library are not modelled. This covers:
  - the stability and difficulty update of `f.next`;
  - its fuzz and short-term steps;
  - `createEmptyCard`;
  - `formatDate`.
  They are foreign floating-point code, so they are parameters. Properties that depend on the scheduler (`Fsrs.ReviewedCardNotDue`) assume what they need of its result as a precondition.
- The padding of the weight vector `w` to 21 entries, and the scheduler's configuration, are not modelled. They are library setup and never reach the modelled functions.
- Numbers are unbounded reals and integers, so NaN and the infinities are not modelled. The instant arithmetic is exact only for the magnitudes `Date` allows (below 2^53 ms), which is all it can hold.
- A feeling outside the three named values is an arbitrary string. The code treats it as neither smooth, normal nor difficult, and so does the model.
- Numbers rendered in labels and ids use plain decimal digits. The exponent form JavaScript uses from 10^21 on is not modelled.
- Strings are sequences of code points, not UTF-16 code units. The only difference that could matter is where `\s`, `trim` and the ASCII case fold meet characters outside the Basic Multilingual Plane; all of them treat such characters as non-whitespace and leave their case alone.
- The `i` flag is modelled as ASCII case folding. All pattern characters are ASCII letters or `:`, and no other character folds onto them.
- The Firestore reads and writes, the `web-push` send, the Notification permission check, service-worker registration and the push subscription itself are I/O. In the reminder job they are parameters:
  - the snapshot of due documents;
  - the stored subscription per user;
  - whether each user's send succeeds.
  The query's date comparison is Firestore's and is not modelled.
- A skill document holds only `userId` and `name`, and both as strings. A non-string value that is truthy in JavaScript is not modelled.
- The reminder job's map is a Dafny map plus its key order. Two JavaScript object behaviours are not modelled:
  - Keys that look like array indices are listed before the others.
  - A user id equal to an inherited property name such as `constructor` would find an existing value.
- The skill card reads the clock several times while rendering. The model uses one reading (`now`) for all of them.
- `getSkillFSRSCard` and `saveLineUserId` are imported by other files, but `src/app/firestore.ts` does not define them, so they are not part of this model.
- The language-model call (`analyzeLogWithLLM` and the analyze-log route), the LINE routes, voice input, sign-in and sign-out, and all rendering and modal state are not modelled. They are network I/O or UI.
- Only one replacement per call is modelled, because the code makes only one. That this single pass can leave suspicious text in place is proved (`LlmAnalysis.SanitizeOutputMayStillMatch`), not repaired.

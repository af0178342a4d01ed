# A verified model of the LMS rule sets

This project models the rule-bearing core of a learning-management system: an
Express/Mongoose backend with two React pages. The model covers:

- **Progress tracker:** one record per (user, lecture), updated by watch events and quiz submissions.
- **Lecture discussions:** comments with an ordered list of embedded replies.
- **Course and lecture catalog:** creation, editing, publishing, and the ordered lecture list of a course.
- **Identity rules:** the ordered sign-up checks, login, Google sign-up, and the password-reset sequence (send code, verify code, reset).
- **AI search fallback:** a direct search, then a search on the keyword a generative model suggests.
- **Lecture page:** the quiz session, the completion prompt and the per-lecture progress map.
- **Course page:** the average rating, the already-reviewed check, enrolment, the creator's other courses and the preview gate.

The stores become Dafny classes over maps and sequences, with `modifies`
clauses. Each request handler becomes a method whose postcondition ties the
new store to a pure function of the old one. Every error path is modelled:
the HTTP status and the message the handler sends. Outside collaborators are
parameters of the model:

- bcrypt's hash and compare;
- the email validator;
- the media upload;
- the generative model's reply;
- the regular-expression match;
- `Math.random`;
- the clock.

Files:

| file | module(s) | what it holds |
|---|---|---|
| `common.dfy` | `Js`, `Http` | JavaScript values as a request carries them, `trim`, the `=== 'true' \|\| === true` flag rule, and HTTP results |
| `progress.dfy` | `ProgressTracker` | the progress records and their update rules |
| `discussion.dfy` | `Discussion` | comments, replies, listing and deletion |
| `catalog.dfy` | `Catalog` | courses, lectures, edits, the lecture list and `$pull` |
| `auth.dfy` | `Auth` | the sign-up checks, login and the one-time-code reset |
| `search.dfy` | `AiSearch` | the two-phase search |
| `view_lecture.dfy` | `ViewLecture` | the quiz session, the completion prompt and the progress map |
| `view_course.dfy` | `ViewCourse` | the course-page predicates |

Conventions:

- Ids and texts are strings, and `""` stands for a missing or falsy value (`!x` in the source).
- Optional document fields are `Option`.
- Durations and averages are exact reals. Division by zero is modelled as JavaScript evaluates it: Infinity for a positive numerator, NaN for zero and -Infinity for a negative one.
- Time is an integer count of milliseconds.

## Model

| member | source | states |
|---|---|---|
| Js.IsTrueFlagCases | backend/controllers/courseController.js:83 | only `true` and the string `'true'` count as true; `'false'`, absent, null, `'TRUE'` and `1` are all false |
| Js.TrimRules | backend/controllers/aiController.js:55-58 | a trimmed string is empty iff the original is all whitespace; otherwise it neither starts nor ends with whitespace, and it is no longer than the original |
| ProgressTracker.DefaultsAreNotStarted | backend/models/progressModel.js:19-41 | a new record has 0 watched, 0 total, is not completed, has no completion time and no quiz score, and the quiz is not attempted |
| ProgressTracker.CompletionThreshold | backend/controllers/progressController.js:14-15 | for a positive total, completion holds iff watched is at least 90% of total, inclusive |
| ProgressTracker.UpdateRules | backend/controllers/progressController.js:19-31 | on an existing record: nothing changes unless watched strictly grows; completion only switches on; `completedAt` changes only on the not-completed to completed step and is then `now`; quiz fields are kept; the record stays well formed |
| ProgressTracker.CreateRules | backend/controllers/progressController.js:32-41 | a first event stores the supplied values; `completedAt` is set iff the record is completed, and is then `now`; there is no quiz score |
| ProgressTracker.QuizScoreRules | backend/controllers/progressController.js:93-94 | a submission sets the score and the attempted flag, overwrites an earlier score, and leaves the durations and completion untouched |
| ProgressTracker.ProgressIsMonotone | backend/controllers/progressController.js:19-31 | over any sequence of watch and quiz requests, watched never decreases, a completed record stays completed with its first completion time, and the record stays well formed |
| ProgressTracker.LectureProgress | backend/controllers/progressController.js:57-59 | the stored record if one exists, else the not-started reply (not completed, 0 watched); never a 404 |
| ProgressTracker.CourseProgress | backend/controllers/progressController.js:72-74 | exactly the caller's records of that course |
| ProgressTracker.CourseProgressOnePerLecture | backend/models/progressModel.js:45 | under the unique (user, lecture) index, a course's records name each lecture at most once |
| ProgressTracker.ReadAfterUpdate | backend/controllers/progressController.js:17-44 | after an update the lecture reads back as stored, with at least the reported and the previous watched duration |
| ProgressTracker.Tracker.UpdateProgress | backend/controllers/progressController.js:9-44 | 400 and no change when an id is missing; otherwise the record becomes `AfterUpdate` of the old one and is returned with 200; the store stays well formed |
| ProgressTracker.Tracker.UpdateQuizScore | backend/controllers/progressController.js:87-97 | 404 and no change without a record; otherwise the score is recorded by `WithQuizScore` and 200 is returned |
| Discussion.IndexOf | backend/controllers/commentController.js:40-43 | the position of the comment with that id, or None exactly when no comment has it |
| Discussion.ReplyAppendsAtEnd | backend/controllers/commentController.js:45-50 | a reply lands last with the caller as author and the current time; earlier replies and the comment's identity, lecture, author, text and creation time are unchanged |
| Discussion.RepliesKeepOrder | backend/models/commentModel.js:34 | replies added one after another appear in the order they were added |
| Discussion.OnLecture | backend/controllers/commentController.js:68 | exactly the comments of that lecture, each as often as in the collection and no other |
| Discussion.OnLectureKeepsOrder | backend/controllers/commentController.js:68 | the query keeps collection order: it distributes over concatenation |
| Discussion.SortNewestFirst | backend/controllers/commentController.js:71 | the same comments (as a multiset), ordered by creation time descending |
| Discussion.LectureComments | backend/controllers/commentController.js:68-71 | newest first, a permutation of the lecture's comments: each comment of the lecture as often as in the collection, no comment of another lecture |
| Discussion.RemoveAtRules | backend/controllers/commentController.js:95-96 | deleting a comment removes exactly that one (its id is gone, one fewer comment), keeps every other comment unchanged, and keeps the store valid |
| Discussion.Board.AddComment | backend/controllers/commentController.js:9-23 | 400 and nothing created when the lecture or text is missing; otherwise one comment by the caller with no replies is appended and returned with 201 |
| Discussion.Board.AddReply | backend/controllers/commentController.js:36-56 | 400 for a missing id or text, 404 for an unknown comment, no change in either case; otherwise only that comment changes, by `WithReply`, with 200 |
| Discussion.Board.DeleteComment | backend/controllers/commentController.js:86-96 | 404 for an unknown id and 403 for a requester who is not the author, with no change; otherwise the comment (with its replies) is removed and 200 is returned |
| Catalog.EditRules | backend/controllers/courseController.js:83-91 | an edit publishes iff the flag is `true` or `'true'`; an absent flag or `'false'` unpublishes; each of title, subTitle, description, category, level and price is replaced when sent and kept when absent; creator and lecture list are untouched; a sent file replaces the thumbnail and no file keeps it |
| Catalog.EditLectureRules | backend/controllers/courseController.js:206-218 | a non-empty title replaces the stored one, an empty one keeps it; `isPreviewFree` is always rewritten, so omitting it sets false |
| Catalog.Pull | backend/controllers/courseController.js:239-242 | `$pull` removes every occurrence of the id and keeps every other entry as often as it was listed |
| Catalog.PullKeepsOrder | backend/controllers/courseController.js:239-242 | the kept entries stay in order: pull distributes over concatenation |
| Catalog.PullOnePosition | backend/controllers/courseController.js:239-242 | in a list without duplicates, pulling an entry removes exactly its position and nothing else |
| Catalog.PullAbsent | backend/controllers/courseController.js:239-242 | pulling an id that is not listed changes nothing |
| Catalog.PullAfterAppend | backend/controllers/courseController.js:166 | pulling the id `createLecture` just appended restores the list as it was |
| Catalog.PullNoDuplicates | backend/controllers/courseController.js:241 | pulling keeps a duplicate-free list duplicate-free |
| Catalog.CourseById | backend/controllers/courseController.js:121-124 | 404 "Course not found" iff the id is unknown, else 200 with the course |
| Catalog.PublishedCourses | backend/controllers/courseController.js:42-51 | exactly the published courses |
| Catalog.CreatorCourses | backend/controllers/courseController.js:61-67 | exactly the caller's courses |
| Catalog.PublishedAfterEdit | backend/controllers/courseController.js:83-95 | after an edit the course is listed as published iff the flag was true; no other course's listing changes |
| Catalog.PullEverywhereRules | backend/controllers/courseController.js:232-242 | removing a lecture keeps the catalog valid, no course lists it afterwards, courses that did not list it are unchanged, and the course that listed it keeps its other lectures in order, losing only that position |
| Catalog.UpdateOneIsPullEverywhere | backend/controllers/courseController.js:239-242 | pulling from the one course that lists the lecture equals pulling from all courses |
| Catalog.UpdateNoneIsPullEverywhere | backend/controllers/courseController.js:239-242 | when no course lists the lecture, the update matches nothing |
| Catalog.Catalog.CreateCourse | backend/controllers/courseController.js:10-28 | 400 and nothing created without title or category; otherwise a course by the caller, unpublished, with no thumbnail when no file was sent, and 201 |
| Catalog.Catalog.EditCourse | backend/controllers/courseController.js:83-103 | 404 for an unknown course; otherwise the course becomes `Edited` and is returned with 200, published iff the flag was true |
| Catalog.Catalog.RemoveCourse | backend/controllers/courseController.js:135-142 | 404 for an unknown course; otherwise only the course is deleted and its lectures stay |
| Catalog.Catalog.CreateLecture | backend/controllers/courseController.js:158-171 | 400 and nothing created without a title or course id; otherwise the lecture is created; its id is appended at the end of a known course (201), and an unknown course leaves the lecture behind with a 500 |
| Catalog.Catalog.EditLecture | backend/controllers/courseController.js:200-221 | 404 for an unknown lecture; otherwise the lecture becomes `EditedLecture` and 200 is returned |
| Catalog.Catalog.RemoveLecture | backend/controllers/courseController.js:232-243 | 404 for an unknown lecture; otherwise the lecture is deleted and its id is pulled from the course that lists it, keeping the catalog valid |
| Auth.HasCharIn | backend/controllers/authController.js:31-37 | true iff some character lies in the range (`/[A-Z]/`, `/[0-9]/`) |
| Auth.HasSpecial | backend/controllers/authController.js:39 | true iff some character is one of `@$!%*?&` |
| Auth.SignUpCheckOrder | backend/controllers/authController.js:14-41 | sign-up passes iff all fields are present, the email is new and valid, and the password is strong; a missing field is reported first, then a taken email, then a malformed email; every failure is a 400 |
| Auth.PasswordCheckOrder | backend/controllers/authController.js:27-41 | with the fields and the email accepted, the password failures come in the order length under 8, no upper-case letter, no digit, no special character, each with its own message |
| Auth.OtpCode | backend/controllers/authController.js:146 | the code drawn from `Math.random()` in [0, 1) lies in 1000..9999 |
| Auth.DecimalString | backend/controllers/authController.js:146 | `toString` of a number gives a non-empty string of decimal digits |
| Auth.OtpCodeHasFourDigits | backend/controllers/authController.js:146 | every issued code is four characters long |
| Auth.OtpWithoutCodeAcceptedAsWritten | backend/controllers/authController.js:167 | as written, a request without `otp` (or with `otp: null`) verifies a user with no pending code; the intended test rejects it |
| Auth.OtpTestsAgreeWhilePending | backend/controllers/authController.js:167 | while a code is pending, the written test and the intended one agree |
| Auth.OtpExpiryIsInclusive | backend/controllers/authController.js:149 | a code issued at t verifies (as a string or a number) at t + 300000 and nothing verifies at t + 300001 |
| Auth.OtpIsSingleUse | backend/controllers/authController.js:171-173 | with the corrected test: after a successful verification the user may reset, and no value verifies again until a new code is sent |
| Auth.ResetWithoutCodeAsWritten | backend/controllers/authController.js:167-200 | with the test as written: a request without `otp` verifies a user with no pending code, `resetPassword` then stores whatever new hash is sent, and the same empty request verifies the user again, before and after the reset |
| Auth.OneResetPerVerification | backend/controllers/authController.js:189-200 | after a reset, and after a new code is sent, a reset is no longer allowed |
| Auth.GoogleSignupIsIdempotent | backend/controllers/authController.js:113-118 | repeating a Google sign-up changes nothing; only an unknown email adds a user |
| Auth.Login | backend/controllers/authController.js:71-80 | 400 "User does not exist!" for an unknown email; 400 "Incorrect Password" on a mismatch; 500 for a user without a password; success iff the password matches, returning the user |
| Auth.Accounts.SignUp | backend/controllers/authController.js:14-60 | the first failing check is answered with no change; otherwise one user is added whose stored password is the hash, with 201 |
| Auth.Accounts.GoogleSignup | backend/controllers/authController.js:113-128 | the user for the email (the returned user carries that email), created only if unknown, with 200 |
| Auth.Accounts.SendOtp | backend/controllers/authController.js:141-154 | 404 for an unknown email; otherwise a code in 1000..9999 is stored, expiring at now + 300000, verification is withdrawn, and the code is handed to the mailer |
| Auth.Accounts.VerifyOtp | backend/controllers/authController.js:165-176 | with the corrected test: 400 "Invalid OTP!" with no change unless it passes; otherwise the user is verified and the code and expiry are cleared; a code accepted as a string has four characters |
| Auth.Accounts.ResetPassword | backend/controllers/authController.js:187-203 | 404 unless verified; 400 when the new password matches the old; otherwise the new hash is stored and verification is spent |
| AiSearch.TrimmedText | backend/controllers/aiController.js:56-57 | the trimmed text when it is present and not blank, None otherwise |
| AiSearch.Keyword | backend/controllers/aiController.js:55-58 | the trimmed `response.text`, else the trimmed `text`, else "Others"; never empty |
| AiSearch.KeywordIsTrimmed | backend/controllers/aiController.js:55-58 | the keyword is non-empty and neither starts nor ends with whitespace |
| AiSearch.Find | backend/controllers/aiController.js:63-72 | exactly the published courses of which one of title, subTitle, description, category or level matches |
| AiSearch.FindKeepsOrder | backend/controllers/aiController.js:63-72 | the search keeps collection order: it distributes over concatenation |
| AiSearch.SearchWithAi | backend/controllers/aiController.js:11-98 | empty input gives 400 with no model call and no search; otherwise the model is called; a failure gives 500; the keyword search runs only after an empty direct search |
| AiSearch.SearchSelectsPhase | backend/controllers/aiController.js:74-92 | non-empty direct results are returned without the keyword search; otherwise the keyword results (possibly empty); every result is published and matches the input or the keyword |
| AiSearch.UnpublishedNeverFound | backend/controllers/aiController.js:64 | an unpublished course is never returned |
| ViewLecture.CountCorrect | frontend/src/pages/ViewLecture.jsx:240-245 | the number of correctly answered questions is between 0 and the quiz length |
| ViewLecture.CountCorrectExtremes | frontend/src/pages/ViewLecture.jsx:240-245 | a full score iff every answer is correct; zero iff none is |
| ViewLecture.ScoreAtMostAnswered | frontend/src/pages/ViewLecture.jsx:240-245 | only answered questions score, except that an unanswered question matches an undefined `correctAnswer` (`undefined === undefined`); with every `correctAnswer` given, the score is at most the number of questions answered |
| ViewLecture.ScoreQuiz | frontend/src/pages/ViewLecture.jsx:240-245 | the counting loop computes `CountCorrect` |
| ViewLecture.SubmitEnabledIffAllAnswered | frontend/src/pages/ViewLecture.jsx:670 | with answers only for questions of the quiz, Submit is enabled iff every question is answered |
| ViewLecture.VerdictFor | frontend/src/pages/ViewLecture.jsx:687 | "Excellent" iff score >= 4, "Good Job" iff score is 3, "Keep Learning" iff score <= 2 |
| ViewLecture.VerdictIsMonotone | frontend/src/pages/ViewLecture.jsx:687 | a higher score never gets a lesser verdict |
| ViewLecture.CompletionModalOnFirstCompletion | frontend/src/pages/ViewLecture.jsx:188-193 | the prompt opens iff the update completes a lecture that was not completed and the quiz is untaken; that update stamps `completedAt`; the next update does not reopen it |
| ViewLecture.BuildProgressMap | frontend/src/pages/ViewLecture.jsx:99-102 | the map is keyed by exactly the lectures of the list, and each key holds the last record for that lecture |
| ViewLecture.QuizSession.Start | frontend/src/pages/ViewLecture.jsx:220-225 | a new quiz at question 0 with no answers, not submitted; the score is left as it was |
| ViewLecture.QuizSession.SelectAnswer | frontend/src/pages/ViewLecture.jsx:234-237 | ignored after submission; otherwise only the current question's answer changes |
| ViewLecture.QuizSession.Previous | frontend/src/pages/ViewLecture.jsx:654 | one question back, clamped at 0 |
| ViewLecture.QuizSession.Next | frontend/src/pages/ViewLecture.jsx:660-666 | one question forward, offered only before the last one, so the index stays in range |
| ViewLecture.QuizSession.Submit | frontend/src/pages/ViewLecture.jsx:239-247 | posts and shows `CountCorrect` of the answers; enabled only once all questions are answered |
| ViewLecture.QuizSession.Reattempt | frontend/src/pages/ViewLecture.jsx:721-726 | same quiz, question 0, no answers, not submitted, score 0 |
| ViewCourse.AverageRating | frontend/src/pages/ViewCourse.jsx:67-74 | 0 for missing or empty reviews; otherwise average times count equals the sum of ratings |
| ViewCourse.SumWithin | frontend/src/pages/ViewCourse.jsx:72 | ratings within [lo, hi] sum to between lo·n and hi·n |
| ViewCourse.AverageWithinStars | frontend/src/pages/ViewCourse.jsx:67-74 | with every rating between 1 and 5, the average of a non-empty list is between 1 and 5 |
| ViewCourse.AverageOfEqualRatings | frontend/src/pages/ViewCourse.jsx:72-73 | equal ratings average to that rating |
| ViewCourse.SomeReviewBy | frontend/src/pages/ViewCourse.jsx:35-37 | the front-to-back `.some` scan is true iff some review in the list is by the current user |
| ViewCourse.AlreadyReviewed | frontend/src/pages/ViewCourse.jsx:35-37 | true iff some review's user, populated `_id` or raw id, is the current user; false without a review list |
| ViewCourse.HandleReview | frontend/src/pages/ViewCourse.jsx:33-41 | posts nothing iff already reviewed; otherwise posts the rating, comment and course |
| ViewCourse.NoSecondReview | frontend/src/pages/ViewCourse.jsx:35-38 | a user whose review is on the course, in either form, never posts another |
| ViewCourse.SomeEntryIs | frontend/src/pages/ViewCourse.jsx:94-97 | the front-to-back `.some` scan is true iff some entry, a string id or an object's `_id`, names the course |
| ViewCourse.IsEnrolledIn | frontend/src/pages/ViewCourse.jsx:94-97 | true iff some enrolled entry (string id or object `_id`) is the course; false without a user or a list |
| ViewCourse.CheckEnrollmentAsWritten | frontend/src/pages/ViewCourse.jsx:93-103 | the flag after the check is the old flag or the enrolment; it is never cleared |
| ViewCourse.EnrolmentSurvivesNavigation | frontend/src/pages/ViewCourse.jsx:93-103 | as written, a flag set for one course stays set after moving to a course the user is not enrolled in |
| ViewCourse.EnrolmentFollowsRoute | frontend/src/pages/ViewCourse.jsx:106-119 | over a sequence of courses shown, as written the flag means "enrolled in any course shown so far"; corrected it means "enrolled in the current one" |
| ViewCourse.OtherCoursesBy | frontend/src/pages/ViewCourse.jsx:146-148 | exactly the listed courses with that creator and a different id, each as often as listed and no other |
| ViewCourse.OtherCoursesKeepOrder | frontend/src/pages/ViewCourse.jsx:146-148 | the filter keeps list order: it distributes over concatenation |
| ViewCourse.OtherCoursesEffect | frontend/src/pages/ViewCourse.jsx:145-150 | the list is recomputed only once the creator id is known and the course list is non-empty; otherwise it is kept |
| ViewCourse.CurrentCourseExcluded | frontend/src/pages/ViewCourse.jsx:147 | the course being viewed is never among the creator's other courses |
| ViewCourse.SelectPreview | frontend/src/pages/ViewCourse.jsx:289-293 | a free-preview lecture becomes the selection; any other click changes nothing |
| ViewCourse.PreviewIsAlwaysFree | frontend/src/pages/ViewCourse.jsx:288-293 | after any clicks the selection is a clicked free-preview lecture, and nothing is selected iff no free lecture was clicked |

## Left out

- HTTP transport, cookies, tokens (`genToken`), `populate`, toasts, Redux dispatch, axios calls and rendering are not modelled. A handler's reply is its status and value.
- The 500 answers for thrown exceptions in general are not modelled. The exceptions that are modelled: bcrypt on a user without a password (`Auth.Login`, `Auth.Accounts.ResetPassword`), `createLecture` on an unknown course, and the search's failing model call or refused pattern. Their message texts are approximations of the thrown error's text.
- There is no concurrency: each request is one atomic step, so the read-then-write races of `updateProgress` and `addReply` are not represented.
- Floating point: durations and averages are exact reals. `toFixed(1)` in `calculateAverageRating` is string formatting and is left out.
- JSON numbers in `Js.Value` are integers.
- Request fields are strings, with `""` for missing. A non-string value (a number, an array) where a string is expected is not modelled. Neither are undefined durations or scores reaching `updateProgress` and `updateQuizScore` (NaN comparisons).
- `Auth.SignUpCheckOrder` and `Auth.PasswordCheckOrder`: the password length is counted in characters. JavaScript counts UTF-16 code units, so a password with characters outside the Basic Multilingual Plane can pass the length check in the source yet fail it here.
- `AiSearch.Find`: `$regex` with the `i` option is the abstract predicate `fm`. A pattern the engine refuses is the abstract predicate `validPattern`. Case-insensitive regular-expression matching itself is not modelled.
- The generative model, bcrypt, `validator.isEmail`, `sendMail`, `uploadOnCloudinary` and `Math.random` are parameters of the model.
- `Math.random` enters `Auth.OtpCode` as a real number in [0, 1).
- userModel.js, courseModel.js and lectureModel.js are not part of this model. The model assumes the following defaults:
  - a new course is unpublished and has no lectures;
  - a new lecture has no video and is not a free preview;
  - a new user is not verified and has no code or expiry.
- `Catalog.Edited` assumes Mongoose drops undefined keys from an update, so an absent edit field keeps the stored value.
- `getPublishedCourses` and `getCreatorCourses` have an `if(!courses)` 404 branch. It cannot fire, because `find` returns an array, so both are modelled as always 200.
- `getCourseLecture`, `getCreatorById` and `logOut` are not rule sets of this core.
- `generateLectureSummary` and `generateQuiz` are routed but not defined in aiController.js. Neither is modelled, and a quiz enters `ViewLecture.QuizSession.Start` as given.
- backend/middlewares/isAuth.js only provides the caller id, so methods require a non-empty caller. An invalid token answers 500 there, not 400.
- `renderMarkdown`, the summary and comment panels, `handleVideoEnded`, the Razorpay checkout and the `setCourseData` calls of ViewCourse.jsx are not modelled. `setCourseData` is never imported, so those calls throw.
- The page's own progress-map update after a watch event (ViewLecture.jsx:196) is not modelled.
- Auth.Accounts.VerifyOtp: uses the corrected test, not the one at authController.js:167. So a request without `otp` for a user with no pending code gets 400 here, while the handler as written answers 200 and sets `isOtpVerifed`. The written behaviour is stated on values by `Auth.OtpWithoutCodeAcceptedAsWritten` and `Auth.ResetWithoutCodeAsWritten`; the store model does not reach that state.
- `resetPassword` does not apply the sign-up password rules to the new password. The model keeps that behaviour.

## Findings

| source | as written | input that shows it | evidently intended | confidence | as-written member | corrected member |
|---|---|---|---|---|---|---|
| backend/controllers/authController.js:167 | `user.resetOtp != otp \|\| user.otpExpires < Date.now()` rejects; with both stored fields unset, `undefined != undefined` and `undefined < now` are both false, so the request is accepted | a user with no pending code (one who never asked for a code, or whose code was already used) and a `verifyOtp` body with `email` and no `otp`; this sets `isOtpVerifed`, and `resetPassword` then accepts a new password | accept only when a code is pending, the request carries it, and it has not expired | medium, not executed (depends on userModel.js declaring no default for `resetOtp` and `otpExpires`) | Auth.OtpWithoutCodeAcceptedAsWritten | Auth.OtpIsSingleUse |
| frontend/src/pages/ViewCourse.jsx:100-102 | `checkEnrollment` only ever sets `isEnrolled` to true; the effect re-runs when `courseId` changes but the page keeps its state | a user enrolled in course A and not in course B opens A, then goes to B from the page (the route parameter changes, the page stays mounted); the flag stays true for B | the flag reflects enrolment in the course shown | medium, not executed (depends on the router keeping the page mounted when only the course id changes) | ViewCourse.EnrolmentSurvivesNavigation | ViewCourse.EnrolmentFollowsRoute |

In the first row, `Auth.OtpAcceptedAsWritten` is the written test and
`Auth.OtpAccepted` the corrected one. `Auth.Accounts.VerifyOtp` uses the
corrected test, and `Auth.OtpTestsAgreeWhilePending` shows that the two differ
only when no code is pending. `Auth.ResetWithoutCodeAsWritten` follows the
written test through verification and reset. In the second row,
`ViewCourse.CheckEnrollmentAsWritten` is the written check. The corrected
effect sets the flag to `ViewCourse.IsEnrolledIn` of the course shown,
whichever way it comes out (`ViewCourse.VisitAll`).

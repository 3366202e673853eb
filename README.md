# Course registration page script, modelled in Dafny

This project models the browser-side core of the course registration system.
That core is the page script `COURSE-REGISTRATION-SYSTEM/myscript.js`, and the
model covers the following parts of it:

- the HTML escaping applied to every value shown in a table cell (`escapeHtml`);
- the e-mail syntax check (`isValidEmail`);
- the three-rule submit validation (`validateFormData`);
- the on-blur field check (`validateField`);
- page detection from the URL path (`getCurrentPageName`) and the page
  dispatch (`handlePageLoad`);
- the cell selection of the course and student table rows (`createCourseRow`,
  `createStudentRow`);
- the DOM state these helpers drive: the rows of a list table, the options of
  the course select, and the submit flow with its notifications.

Modules, one per file:

- `Strings` (strings.dfy): the JavaScript whitespace class, shared by `\s`
  and `trim`; `trim`; the UTF-16 `length`; `split` and `join` on one
  character.
- `Html` (html.dfy): `escapeHtml`, a decoder `Unescape` for the five
  references it emits, and the `Safe` predicate for markup-safe text.
- `Email` (email.dfy): the e-mail check computed by scanning, and the regular
  expression `^[^\s@]+@[^\s@]+\.[^\s@]+$` read as an existential over where its
  `@` and `.` fall. The two are proved equal.
- `Validation` (validation.dfy): `validateFormData` over the submitted entries,
  and `validateField` over one form control.
- `Pages` (pages.dfy): the page name and the four page behaviours.
- `Rows` (rows.dfy): JSON values with JavaScript truthiness, `||` and `String()`;
  the cells of both tables; the course option label.
- `Tables` (tables.dfy): two classes. `TableBody` holds the rows a list page
  shows. `CourseSelect` holds the options of the course select.
- `Submission` (submission.dfy): the class `RegistrationForm`, which holds the
  entries, the submit button, the notifications raised and those on screen,
  the bodies POSTed and the navigations scheduled.

Network replies are parameters. `fetch` and `response.json()` are represented by
the reply they settle to: a network failure, or a response with its `ok` flag
and its body.

Behaviours of the code worth noting:

- On a failed submit, `validateFormData` raises the failing rule's message.
  The `catch` block then raises "Please fill in all required fields correctly.",
  and `showNotification` removes the notification on screen before adding a new
  one. So the generic message is what stays visible, not the rule's own.
- The submit button ends enabled after every submission (`disabled = false`)
  rather than back in whatever state it had before. Its label is restored.
- The blur check trims the e-mail value before matching it, but the submit rule
  does not trim. An address with whitespace around it that reaches the script
  (a no-break space, U+00A0, say) therefore passes on blur and fails on submit.
- A single select is invalid only when its value is empty. Its error is shown
  only for a non-empty value, so a select never shows its message.
- The course option label reads `durationInWeeks` alone, with no fallback. A
  course that gives its length as `duration` is labelled `undefined weeks`,
  while its table row shows the length.
- A list page tests `courses && courses.length > 0` before calling `forEach`.
  So a JSON body that is not an array but has a positive `length` (a non-empty
  string, for one) throws and shows the error row. Any other non-array value
  shows the "no data" row.

## Model

| member | source | states |
|---|---|---|
| Strings.Trim | COURSE-REGISTRATION-SYSTEM/myscript.js:433 | `trim` gives the empty string exactly when the input is all whitespace; otherwise the result neither starts nor ends with whitespace |
| Strings.TrimIsInfix | COURSE-REGISTRATION-SYSTEM/myscript.js:433 | trimming keeps one contiguous piece of the input, starting at the position the lemma returns, and removes only whitespace around it |
| Strings.TrimSurrounded | COURSE-REGISTRATION-SYSTEM/myscript.js:287 | trimming removes exactly the surrounding whitespace: whitespace-only ends around a text without whitespace at its ends trim to that text |
| Strings.Utf16Length | COURSE-REGISTRATION-SYSTEM/myscript.js:287 | `length` counts between one and two units per character, one per character when all lie in the Basic Multilingual Plane; a single character counts one inside that plane and two outside it |
| Strings.Utf16LengthAppend | COURSE-REGISTRATION-SYSTEM/myscript.js:287 | `length` is additive over concatenation, so with the single-character case it fixes the count of every string |
| Strings.Split | COURSE-REGISTRATION-SYSTEM/myscript.js:74 | `split('/')` never returns an empty list and no piece contains `/`; Strings.JoinSplit and Strings.SplitJoin tie it to `join` |
| Strings.JoinSplit | COURSE-REGISTRATION-SYSTEM/myscript.js:74 | `split('/')` loses nothing: joining the pieces with `/` gives the path back |
| Strings.SplitJoin | COURSE-REGISTRATION-SYSTEM/myscript.js:74 | splitting a join of `/`-free pieces gives the same pieces back |
| Html.EscapeHtml | COURSE-REGISTRATION-SYSTEM/myscript.js:548-557 | `escapeHtml` never shortens its input; its safety and round trip are Html.EscapeIsSafe and Html.UnescapeEscape |
| Html.EscapeHtmlLength | COURSE-REGISTRATION-SYSTEM/myscript.js:548-557 | escaping never shortens the text, and leaves it unchanged exactly when it holds none of `& < > " '` |
| Html.EscapeIsSafe | COURSE-REGISTRATION-SYSTEM/myscript.js:548-557 | escaped text has no `<`, `>`, `"` or `'`, and each `&` in it opens one of the five references |
| Html.UnescapeEscapeAppend | COURSE-REGISTRATION-SYSTEM/myscript.js:549-556 | decoding the references undoes escaping, also when other text follows the escaped part |
| Html.UnescapeEscape | COURSE-REGISTRATION-SYSTEM/myscript.js:549-556 | decoding the output of `escapeHtml` gives back the original text, so escaping is injective |
| Email.IsValidEmail | COURSE-REGISTRATION-SYSTEM/myscript.js:306-309 | an address is accepted exactly when it has no whitespace, one `@` not in first place, and after it a domain with a dot that is neither its first nor its last character |
| Email.EmailMatchesRegex | COURSE-REGISTRATION-SYSTEM/myscript.js:306-309 | the scanning check and the regular expression `^[^\s@]+@[^\s@]+\.[^\s@]+$` accept the same strings, in both directions |
| Email.LeadingWhitespaceNeverMatches | COURSE-REGISTRATION-SYSTEM/myscript.js:307 | the pattern is anchored, so a string starting with whitespace never matches |
| Email.EmailExamples | COURSE-REGISTRATION-SYSTEM/myscript.js:306-309 | `a@b.co` matches; `a@b`, `a.b@` and `ab.com` do not |
| Validation.ValidateFormData | COURSE-REGISTRATION-SYSTEM/myscript.js:284-303 | acceptance needs a name, an e-mail entry and a non-empty course, and a course rejection means the course is empty; the full iff per rule is Validation.ValidateFormDataMeaning |
| Validation.ValidateFormDataMeaning | COURSE-REGISTRATION-SYSTEM/myscript.js:284-303 | the verdict is acceptance exactly when the name, e-mail and course rules all hold; otherwise it names the first rule that fails, in that order (each rule stated as an iff) |
| Validation.FirstFailureWins | COURSE-REGISTRATION-SYSTEM/myscript.js:284-303 | once a rule fails, the entries later rules would read cannot change the verdict |
| Validation.NameRuleRejects | COURSE-REGISTRATION-SYSTEM/myscript.js:287 | a missing name, an empty name and one letter inside whitespace are rejected |
| Validation.NameRuleAccepts | COURSE-REGISTRATION-SYSTEM/myscript.js:287 | two letters inside whitespace are accepted |
| Validation.NameRuleCountsCodeUnits | COURSE-REGISTRATION-SYSTEM/myscript.js:287 | a single character outside the Basic Multilingual Plane passes, because `length` counts its two UTF-16 units |
| Validation.ValidateField | COURSE-REGISTRATION-SYSTEM/myscript.js:432-461 | an error is shown exactly when the value is invalid and its trim is not empty; the rule per kind is Validation.ValidateFieldMeaning |
| Validation.ValidateFieldMeaning | COURSE-REGISTRATION-SYSTEM/myscript.js:432-461 | only a text field named `name`, an e-mail field and a single select have a rule, each judged on the trimmed value; an error is shown exactly when the value breaks its rule and is not blank |
| Validation.BlankFieldShowsNoError | COURSE-REGISTRATION-SYSTEM/myscript.js:454-458 | a blank or whitespace-only value never shows a field error |
| Validation.SelectNeverShowsError | COURSE-REGISTRATION-SYSTEM/myscript.js:448-458 | a single select never shows its error message |
| Validation.NameFieldAgreesWithSubmit | COURSE-REGISTRATION-SYSTEM/myscript.js:287 | the blur check of the name field and the submit name rule give the same answer |
| Validation.EmailFieldAgreesWithSubmit | COURSE-REGISTRATION-SYSTEM/myscript.js:433-446 | on a value without surrounding whitespace, the blur check of the e-mail field and the submit e-mail rule give the same answer |
| Validation.EmailTrimmedOnlyOnBlur | COURSE-REGISTRATION-SYSTEM/myscript.js:433-446 | an accepted address typed after whitespace passes the blur check and fails the submit rule |
| Pages.CurrentPageName | COURSE-REGISTRATION-SYSTEM/myscript.js:72-75 | the page name is never empty and never contains `/`; it is the path's final segment, or `index.html` when that segment is empty |
| Pages.LastOfSplit | COURSE-REGISTRATION-SYSTEM/myscript.js:74 | the piece `pop` takes from `split('/')` is the path's final segment |
| Pages.Dispatch | COURSE-REGISTRATION-SYSTEM/myscript.js:50-68 | each page is chosen exactly for its name with and without `.html`, and the home page exactly for every other name |
| Pages.HandlePageLoad | COURSE-REGISTRATION-SYSTEM/myscript.js:47-69 | the behaviour is the dispatch on the path's final segment, or on `index.html` when that segment is empty |
| Pages.PageNameOfPath | COURSE-REGISTRATION-SYSTEM/myscript.js:72-75 | for a directory part followed by a name, the page name is that name, or `index.html` when the name is empty |
| Pages.PageLoadOfPath | COURSE-REGISTRATION-SYSTEM/myscript.js:47-69 | each of the three pages is chosen exactly for its two names, with and without `.html`; every other name, `index` included, gives the home page |
| Rows.Or | COURSE-REGISTRATION-SYSTEM/myscript.js:162-165 | `a \|\| b` is one of its operands: the first when it is truthy, otherwise the second |
| Rows.PickIsFirstTruthy | COURSE-REGISTRATION-SYSTEM/myscript.js:162-165 | a chain of `\|\|` over alternate spellings gives the first truthy one, and `N/A` when none is |
| Rows.ToString | COURSE-REGISTRATION-SYSTEM/myscript.js:556 | `String()` gives a string back unchanged, and gives empty text only for the empty string |
| Rows.NonStringNeedsNoEscape | COURSE-REGISTRATION-SYSTEM/myscript.js:556 | `String()` of a non-string value has no special characters, so escaping leaves it unchanged |
| Rows.CellMeaning | COURSE-REGISTRATION-SYSTEM/myscript.js:162-164 | a cell is safe markup that decodes back to the text of the chosen value |
| Rows.DurationCellMeaning | COURSE-REGISTRATION-SYSTEM/myscript.js:165 | the duration cell is safe. It decodes to the first truthy of `durationInWeeks`, `duration` or `N/A`, then a space. It ends in `weeks` exactly when `durationInWeeks` is truthy |
| Rows.CourseRow | COURSE-REGISTRATION-SYSTEM/myscript.js:156-169 | a course row has four cells; what each holds is Rows.CourseRowMeaning |
| Rows.CourseRowMeaning | COURSE-REGISTRATION-SYSTEM/myscript.js:156-169 | all four course cells are safe, and each decodes to the first truthy of its spellings, in order, or `N/A` |
| Rows.StudentRow | COURSE-REGISTRATION-SYSTEM/myscript.js:172-184 | a student row has three cells; what each holds is Rows.StudentRowMeaning |
| Rows.StudentRowMeaning | COURSE-REGISTRATION-SYSTEM/myscript.js:172-184 | all three student cells are safe, and each decodes to the first truthy of its spellings (`emailId` before `email`) or `N/A` |
| Rows.RowWithoutWeeks | COURSE-REGISTRATION-SYSTEM/myscript.js:165 | a course giving its length only as `duration` shows that length in its row, followed by a space and no `weeks` |
| Rows.CourseOption | COURSE-REGISTRATION-SYSTEM/myscript.js:408-413 | an option's value is empty exactly when the course name is falsy and the id is the empty string |
| Rows.OptionLabelIgnoresDuration | COURSE-REGISTRATION-SYSTEM/myscript.js:411 | without `durationInWeeks`, the option label reads `undefined weeks` whatever `duration` holds |
| Tables.RowOfWidth | COURSE-REGISTRATION-SYSTEM/myscript.js:156-184 | a data row has one cell per column: 4 on the course page, 3 on the student page, as many as its placeholder rows span |
| Tables.MapSeqIndex | COURSE-REGISTRATION-SYSTEM/myscript.js:99-102 | appending one item per element in `forEach` order yields one item per element, the i-th built from the i-th |
| Tables.RowsOfRecords | COURSE-REGISTRATION-SYSTEM/myscript.js:99-102 | the appended rows are one per record, the i-th built from the i-th record |
| Tables.TableBody.ShowLoadingState | COURSE-REGISTRATION-SYSTEM/myscript.js:187-196 | the table holds only the loading row |
| Tables.TableBody.ShowEmptyState | COURSE-REGISTRATION-SYSTEM/myscript.js:199-207 | the table holds only the "no data" row with the given message |
| Tables.TableBody.ShowErrorState | COURSE-REGISTRATION-SYSTEM/myscript.js:210-222 | the table holds only the error row with the given message |
| Tables.TableBody.ShowRecords | COURSE-REGISTRATION-SYSTEM/myscript.js:96-108 | after a successful read the table holds one data row per record, in order, or only the "no data" row when there are none |
| Tables.TableBody.Render | COURSE-REGISTRATION-SYSTEM/myscript.js:82-113 | whatever the table held is replaced: an error row on failure, a "no data" row for no records, or exactly one data row per record, in order |
| Tables.TableBody.LoadAvailableCourses | COURSE-REGISTRATION-SYSTEM/myscript.js:78-114 | the course table ends with the error row, the "no courses" row, or one course row per course, in order, each built by `createCourseRow` |
| Tables.TableBody.LoadEnrolledStudents | COURSE-REGISTRATION-SYSTEM/myscript.js:117-153 | the student table ends with the error row, the "no students" row, or one student row per student, in order, each built by `createStudentRow` |
| Tables.Placeholders | COURSE-REGISTRATION-SYSTEM/myscript.js:403-405 | at most one option is kept, and it is the first option with an empty value; none is kept exactly when no option has an empty value |
| Tables.CourseSelect.PopulateCourseOptions | COURSE-REGISTRATION-SYSTEM/myscript.js:393-419 | an unread reply leaves the options unchanged; otherwise they become the kept placeholder followed by one option per course, in order |
| Tables.PlaceholdersStable | COURSE-REGISTRATION-SYSTEM/myscript.js:403-405 | after options with non-empty values are appended, the placeholder search finds the same placeholder again |
| Tables.RepopulateIsStable | COURSE-REGISTRATION-SYSTEM/myscript.js:393-419 | populating again with the same courses changes nothing, provided every course gives a non-empty option value |
| Submission.RefusalMessage | COURSE-REGISTRATION-SYSTEM/myscript.js:256-259 | the refusal message is `Registration failed: ` followed by the body text when it is non-empty, and by the status text otherwise |
| Submission.RegistrationForm.constructor | COURSE-REGISTRATION-SYSTEM/myscript.js:225-230 | a fresh form has no notification on screen, nothing sent and the button enabled, so the invariant `Valid` (at most one notification on screen, the last one raised) holds from the start |
| Submission.RegistrationForm.ShowNotification | COURSE-REGISTRATION-SYSTEM/myscript.js:322-365 | the first notification on the page is removed and the new one appended; from a state satisfying `Valid`, the new notice is then the only one on screen and `Valid` still holds |
| Submission.RegistrationForm.Refuse | COURSE-REGISTRATION-SYSTEM/myscript.js:243-274 | on invalid entries, the rule's message and then the generic message are raised, and the generic one is the only notification left on screen; `Valid` is kept |
| Submission.RegistrationForm.Send | COURSE-REGISTRATION-SYSTEM/myscript.js:247-274 | valid entries are POSTed once. A success raises the success notice, resets the form and schedules `index.html`. A failure raises its error message and keeps the entries and the page. `Valid` is kept |
| Submission.RegistrationForm.HandleFormSubmission | COURSE-REGISTRATION-SYSTEM/myscript.js:225-281 | entries failing validation are never sent and raise the rule's message then the generic one. Valid entries are sent exactly once, and each outcome raises its own notice. The button always ends enabled with its label restored, and `Valid` is kept |

## Left out

- `fetch`, `response.json()` and `response.text()` are not modelled as I/O. The value each settles to is a parameter, and a body read that fails after a response is not represented.
- The loading row shown while a fetch is pending is modelled, but it is replaced before any observer could see it, since the reply is given at once.
- Timers are not modelled: the 2-second delay before the move to `index.html` (only the scheduled navigation is recorded), the 5-second auto-dismiss of notifications, and dismissal on click.
- Two submissions overlapping while a POST is pending cannot happen here: each call to `HandleFormSubmission` runs to completion.
- Styles, animation delays, `addStaggerAnimation`, and the loading spinner and button colours are left out.
- `setupFormEnhancements`, `setupNavigationEnhancements`, `setupHomePage`, `showFieldError` and `clearFieldError` styling, `handleBackNavigation` and `handleApiError` are outside the modelled core. Only whether a field error is shown is recorded.
- `validateField` chooses its rule by `field.type || field.tagName.toLowerCase()`. The tag-name fallback is not modelled: every form control here has a `type`.
- The placeholder the course select keeps is found by `option[value=""]`. The model reads each option's value, not its attribute.
- JSON numbers are integers; fractions and exponent notation of `String()` are not modelled. Array elements that are not objects are not modelled either.
- A record field holding an array is not represented. Such a field is always truthy, so `||` does not fall back past it. `String([])` is empty, so the cell would show nothing rather than `N/A`, and a non-empty array would show its elements joined by commas. A field holding an object is modelled; it reads as `[object Object]`.
- A form without a `button[type="submit"]` is not modelled. There, `handleFormSubmission` throws when it reads the button's label (myscript.js:229-230), after the default action is prevented, so nothing is validated, shown or sent. The model always has the button.
- The early returns when the page has no table body (myscript.js:80 and :119) or no course select (:395) are not modelled: the model always has the element.
- The browser's sanitization of an `<input type="email">` value is not modelled. That sanitization strips leading and trailing ASCII whitespace before the script reads the value. So on a real page the blur and submit checks differ only on other whitespace that `trim` removes, such as U+00A0 or U+2028.
- Characters are Unicode scalar values. UTF-16 appears only through `Utf16Length`, where the name rule compares a length; lone surrogates are not represented.
- The Java back end (controller, service, entity) is not part of this model.
- Validation.EmailFieldAgreesWithSubmit: stated only for values without surrounding whitespace, because on other values the two checks differ (see Validation.EmailTrimmedOnlyOnBlur).

# Submission store and field validators

A Dafny model of the form-submission backend's controller
(`src/controllers/submissionController.ts`). The service keeps an ordered
list of `Submission` records (`src/types/submission.ts`) and addresses them
by position. It exposes submit, read, delete, edit, search-by-email and
ping. Submit and edit first check the five client fields: all present,
then the email shape, then a ten-digit phone number, then a GitHub link.

The model is functional. The stored list is a `seq<Submission>`. Each
handler is a pure function from the current sequence and the request to a
`Step`, which holds the response and the sequence as it stands afterwards.
Loading the store means reading the sequence, and saving it means
returning the new one.

Modules, one per file:

- `Options` (`options.dfy`): `Option`. `None` is a missing value or JavaScript's `NaN`.
- `CharClasses` (`chars.dfy`): the ECMAScript `\s` and `\d` classes and the `[a-zA-Z0-9-]` class.
- `Validators` (`validators.dfy`): the three validators. Each is a
  character-level predicate, which the handlers use. Each also has a ghost
  predicate for the language of its regular expression, written as an
  existential split that mirrors the pattern. A lemma proves the two
  agree on every string.
- `IntParsing` (`int_parsing.dfy`): `parseInt(x, 10)`. It skips
  leading whitespace, reads an optional sign, then takes the longest run
  of digits. `ShowInt` is a right inverse: `ParseInt(ShowInt(n)) == Some(n)`. It is not a left inverse, since `"3"`, `" 3"`, `"+3"`, `"03"` and `"3abc"` all read as 3.
- `Submissions` (`submission.dfy`): the record, the five client fields and the id helpers.
- `Controller` (`controller.dfy`): validation, the six handlers, the
  HTTP status of each response (`Status`) and the error texts (`Message`).
- `StoreLaws` (`store_laws.dfy`): laws that relate the handlers to each
  other, the store invariants they keep, and the exact characterisation
  of search.

Inputs the service takes from its environment become parameters:

- the fresh id from `uuidv4()`;
- the two clock readings at submit (`createdAt` and `updatedAt`, read
  separately, so they need not be equal);
- the clock reading at edit (`now`);
- the index after `parseInt` (`Option<int>`);
- the search query (`Option<string>`, with `None` for a missing query).

## Model

| member | source | states |
|---|---|---|
| `Validators.EmailMatchesPattern` | src/controllers/submissionController.ts:18-22 | The email check accepts `s` exactly when `s` is in the language of `^[^\s@]+@[^\s@]+\.[^\s@]+$`. This holds both ways, for every string. |
| `Validators.EmailValidIsPattern` | src/controllers/submissionController.ts:18-22 | An accepted email splits as local `@` host `.` tld, each part a non-empty run with no whitespace and no `@`. |
| `Validators.EmailPatternIsValid` | src/controllers/submissionController.ts:18-22 | Every string of the form local `@` host `.` tld has no whitespace and exactly one `@`. The part before the `@` is non-empty, and the part after it has a dot that is neither its first nor its last character. |
| `Validators.EmailAcceptsPlain` | src/controllers/submissionController.ts:18-22 | `alice@example.com` is accepted. |
| `Validators.EmailAcceptsDottedLocal` | src/controllers/submissionController.ts:18-22 | `a.b@c.d.e` is accepted: dots may appear in the local part and more than once in the domain. |
| `Validators.EmailRejects` | src/controllers/submissionController.ts:18-22 | The check refuses an address with no dot in the domain, an empty local part, a domain whose only dot is its first or last character, a space, or two `@`. |
| `Validators.PhoneMatchesPattern` | src/controllers/submissionController.ts:24-28 | The phone check accepts `s` exactly when `s` is ten one-character pieces, each a decimal digit: the language of `^\d{10}$`. This holds both ways, for every string. |
| `Validators.ConcatSingletons` | src/controllers/submissionController.ts:26 | Any number of one-character pieces put together have as many characters as there are pieces, and list the pieces' characters in order. |
| `Validators.PhoneExamples` | src/controllers/submissionController.ts:24-28 | `1234567890` is a valid phone number. Five or eleven digits are refused. Nine digits then a newline are refused. Ten digits then a newline are refused too, because without the `m` flag `$` matches only at the very end. An embedded space is refused. |
| `Validators.SplitPath` | src/controllers/submissionController.ts:30-34 | A path of name characters and single slashes, with no slash first or last, cuts into non-empty `[a-zA-Z0-9-]` segments. Joining those segments with `/` gives the path back. |
| `Validators.JoinPathIsPath` | src/controllers/submissionController.ts:32 | Joining non-empty `[a-zA-Z0-9-]` segments with single slashes gives a path: no slash first or last, and no `//`. |
| `Validators.GithubMatchesPattern` | src/controllers/submissionController.ts:30-34 | The GitHub check accepts `s` exactly when `s` is in the language of `^https://github\.com/[a-zA-Z0-9-]+(/[a-zA-Z0-9-]+)*/?$`. The prefix is case-sensitive and an optional final slash is allowed. |
| `Validators.GithubAcceptsOwner` | src/controllers/submissionController.ts:30-34 | `https://github.com/alice` is accepted. |
| `Validators.GithubAcceptsRepo` | src/controllers/submissionController.ts:30-34 | `https://github.com/alice/repo` is accepted. |
| `Validators.GithubAcceptsTrailingSlash` | src/controllers/submissionController.ts:30-34 | `https://github.com/alice/` is accepted. |
| `Validators.GithubRejectsOtherPrefixes` | src/controllers/submissionController.ts:30-34 | `http://`, `gitlab.com` and `GitHub.com` links are refused. |
| `Validators.GithubRejectsBadPaths` | src/controllers/submissionController.ts:30-34 | The bare prefix, a `//` in the path and a `_` in a segment are refused. |
| `IntParsing.TrimStart` | src/controllers/submissionController.ts:88 | The result is a suffix of the input and does not begin with whitespace. Every character dropped before it is whitespace, so exactly the leading whitespace goes. |
| `IntParsing.DigitPrefix` | src/controllers/submissionController.ts:88 | The result is the longest prefix made only of ASCII digits: the character after it, if any, is not a digit. |
| `IntParsing.DigitsValueOfShowNat` | src/controllers/submissionController.ts:88 | Reading the decimal digits of `n` gives `n`. |
| `IntParsing.DigitPrefixOfDigits` | src/controllers/submissionController.ts:103 | Digits followed by a non-digit (or nothing) have exactly those digits as their digit prefix. |
| `IntParsing.ParseDigitsOfDigits` | src/controllers/submissionController.ts:103 | Non-empty digits followed by a non-digit (or nothing) read as their value. |
| `IntParsing.ParseTrimmedDigits` | src/controllers/submissionController.ts:103 | Without a sign, non-empty digits followed by a non-digit read as their value. |
| `IntParsing.ParseTrimmedMinus` | src/controllers/submissionController.ts:142 | A leading `-` negates the value of the digits directly after it, and `NaN` stays `NaN`. No whitespace or second sign may come between, so `"- 3"` and `"-+3"` are `NaN`. |
| `IntParsing.ParseTrimmedShowNegative` | src/controllers/submissionController.ts:142 | `-` then the digits of `m` reads as `-m`, whatever non-digit text follows. |
| `IntParsing.ParseTrimmedShowInt` | src/controllers/submissionController.ts:142 | Once whitespace is gone, an optional sign and the digits of `n` parse to `n`, whatever non-digit text follows. |
| `IntParsing.ParseShowInt` | src/controllers/submissionController.ts:88 | `parseInt` of the decimal text of any integer, followed by text that does not start with a digit, is that integer. For example `"12abc"` gives 12. |
| `IntParsing.ParseShowIntExact` | src/controllers/submissionController.ts:103 | `parseInt` inverts the decimal text of every integer. |
| `IntParsing.TrimStartSkipsWhitespace` | src/controllers/submissionController.ts:142 | Trimming ignores any leading run of whitespace characters. |
| `IntParsing.ParseSkipsWhitespace` | src/controllers/submissionController.ts:88 | Leading whitespace never changes the parsed index. |
| `IntParsing.ParseNoDigits` | src/controllers/submissionController.ts:88-89 | When no digit follows the whitespace and the optional sign, the result is `NaN`, which no bounds check accepts. |
| `IntParsing.ParseUnsignedIsNatural` | src/controllers/submissionController.ts:103-104 | Text without `-` never parses to a negative index. |
| `IntParsing.ParseDecimalExample` | src/controllers/submissionController.ts:88 | `"42"` parses to 42. |
| `IntParsing.ParseBlankThenDigit` | src/controllers/submissionController.ts:88 | Any run of whitespace followed by one digit reads as that digit's value. |
| `IntParsing.ParseBlankPrefixExample` | src/controllers/submissionController.ts:88 | `"  7"` parses to 7. |
| `IntParsing.ParseTrailingTextExample` | src/controllers/submissionController.ts:88 | `"3abc"` parses to 3. |
| `IntParsing.ParseNegativeExample` | src/controllers/submissionController.ts:88 | `"-1"` parses to -1, which every bounds check refuses. |
| `IntParsing.ParseRejectsExamples` | src/controllers/submissionController.ts:88 | `""`, `"abc"` and `"-"` parse to `NaN`. |
| `Submissions.NewRecord` | src/controllers/submissionController.ts:66-75 | A new record holds the five client fields verbatim. |
| `Controller.Ping` | src/controllers/submissionController.ts:36-38 | `ping` answers 200 and leaves the store as it is. |
| `Controller.Status` | src/controllers/submissionController.ts:45-166 | A response is 400 exactly when it reports a failed check and 404 exactly when the record is not found. Every other response is 200. |
| `Controller.MessagesDistinct` | src/controllers/submissionController.ts:45-60 | The four error texts (`All fields are required`, `Invalid email format`, `Phone number must be 10 digits long`, `Invalid GitHub link`) are pairwise different, so the text names the failed check. |
| `Controller.Validate` | src/controllers/submissionController.ts:43-62 | No error means all four checks pass. An error names a check that fails, and every check earlier in the order (required, email, phone, GitHub) passes. So the error is the first failing check. |
| `Controller.Submit` | src/controllers/submissionController.ts:40-82 | On a validation failure, the response is that error and the store is unchanged. Otherwise the store grows by one record, at the end, and all earlier records stay. The new record has the supplied fields, the fresh id and the two timestamps, and it is the record returned. |
| `Controller.Read` | src/controllers/submissionController.ts:84-97 | The record at `idx` is returned exactly when `0 <= idx < \|store\|`. A negative index or `NaN` gives not-found. The store never changes. |
| `Controller.Delete` | src/controllers/submissionController.ts:99-114 | The bounds check is the same as for read. On success the removed record is `store[idx]`. Earlier records keep their positions, later ones move down one, and the length drops by one. Otherwise the response is not-found and the store is unchanged. |
| `Controller.Edit` | src/controllers/submissionController.ts:116-159 | Validation comes first, then the bounds check. On success only position `idx` changes. It gets the five supplied fields and `updatedAt = now`, and it keeps its `id` and `createdAt`. The length is unchanged. |
| `Controller.Filter` | src/controllers/submissionController.ts:165 | Every record returned has the queried email and comes from the store. |
| `Controller.Search` | src/controllers/submissionController.ts:161-170 | The store is unchanged. The count is the number of records returned. Each record returned is in the store and its email equals the query. A missing query returns nothing. |
| `StoreLaws.ValidationPrecedesStore` | src/controllers/submissionController.ts:43-62 | Submit and edit reject the same fields with the same error. A rejection does not depend on the store or the index, and it leaves the store as it was. |
| `StoreLaws.HandlersKeepStoreValid` | src/controllers/submissionController.ts:40-159 | If every stored record passes all four checks, the same holds after submit, edit and delete. |
| `StoreLaws.HandlersKeepIdsDistinct` | src/controllers/submissionController.ts:64-78 | If the stored ids are distinct and the new id is fresh, they stay distinct after submit, edit and delete. |
| `StoreLaws.SubmitThenRead` | src/controllers/submissionController.ts:76-90 | After a successful submit, reading the decimal text of the old length returns the new record. |
| `StoreLaws.SubmitThenDeleteRestores` | src/controllers/submissionController.ts:76-106 | Deleting the last position right after a successful submit returns the new record and restores the previous store. |
| `StoreLaws.DeleteThenReinsert` | src/controllers/submissionController.ts:105 | Putting the deleted record back at its position rebuilds the original store. |
| `StoreLaws.DeleteShiftsReads` | src/controllers/submissionController.ts:104-106 | After deleting at `i`, reading `j >= i` gives what `j + 1` held before. Reading `j < i` is unchanged. Reading the old last position gives not-found. |
| `StoreLaws.EditThenRead` | src/controllers/submissionController.ts:143-151 | Reading the edited position returns the old id and creation time with the new fields and `now`. Every other position reads as before. |
| `StoreLaws.EditIdempotent` | src/controllers/submissionController.ts:143-151 | Repeating an edit with the same fields and time leaves the response and the store as after the first edit. |
| `StoreLaws.FilterSelects` | src/controllers/submissionController.ts:165 | The filter lists the records at `Positions` in order. Those positions are strictly increasing and are exactly the positions whose email equals the query. |
| `StoreLaws.SearchSelectsMatches` | src/controllers/submissionController.ts:163-166 | Search returns an order-preserving selection of exactly the records whose email equals the query. |
| `StoreLaws.SelectionIsFilter` | src/controllers/submissionController.ts:165 | Any order-preserving selection of exactly the matching records equals the filter's result, so the search answer is unique. |
| `StoreLaws.IncreasingBounded` | src/controllers/submissionController.ts:165 | Strictly increasing positions below `n` number at most `n`. A selection is never longer than the store. |
| `StoreLaws.FilterAppend` | src/controllers/submissionController.ts:165 | Filtering a store with one more record at the end gives the old result, followed by that record when it matches. |
| `StoreLaws.SearchAfterSubmit` | src/controllers/submissionController.ts:165 | After a successful submit, a search for the new email returns the old matches followed by the new record. A search for any other email is unchanged. |
| `StoreLaws.SearchNoMatch` | src/controllers/submissionController.ts:161-166 | With no record holding the queried email, or with no query at all, the response is `{submissions: [], count: 0}`. |

## Left out

- File I/O (`getSubmissions`, `saveSubmissions`, lines 9-16). This is I/O
  through a foreign JSON parser. Loading is reading the sequence and saving
  is returning it. The 500 responses on I/O or parse failure are not
  modelled.
- `uuidv4()` and `new Date()`. These sources are nondeterministic, so
  their values are parameters. Timestamps are integers; serialising them
  to ISO text is not modelled.
- Express plumbing: the router (`src/routes/index.ts`), server start-up
  (`src/server.ts`), and request and response objects. Responses are the
  `Response` datatype, and `Status` gives their HTTP codes.
- JavaScript coercion of non-string inputs. Fields are strings and a
  missing field is the empty string. A number or array given as `index`
  is not modelled; only its string form is. A non-string search query is
  `None`, since it equals no stored email.
- `Controller.Read`, `Controller.Delete`, `Controller.Edit`: `parseInt`
  gives a double. For digit strings of 2^53 and more it rounds, and the
  model reads the exact value. Every value that large is far beyond the
  length of any JavaScript array, so the bounds check answers the same.
  The negative zero from `"-0"` is read as 0, which JavaScript's
  comparison and indexing treat alike.
- The lost-update race between concurrent load-mutate-save cycles. This
  is a concurrency hazard; the model is sequential.
- Strings are sequences of Unicode scalar values, not UTF-16 code units.
  For well-formed text no validator's answer changes. The digit, name and
  whitespace classes hold no surrogates. The email class `[^\s@]` does
  match surrogates, but a surrogate pair is two code units inside a
  `[^\s@]` run in JavaScript and one character inside it here, so a
  non-empty run stays non-empty either way. A lone surrogate, which a
  JSON body can carry (`"\uD800@b.c"` is accepted by the email regular
  expression), has no Dafny `char` and cannot be given to the model.

## Notes on the source

- Submit reads the clock twice (lines 73-74), once for `created_at` and
  once for `updated_at`, so the model takes two independent times.
- The index goes through `parseInt(index, 10)`, so `" 3"`, `"3abc"` and
  `"+3"` all address position 3.
- Edit validates the fields before it parses the index. An edit with bad
  fields and an out-of-range index answers 400, not 404.

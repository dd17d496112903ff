# Form generator core, in Dafny

`app.py` is a small form-generator app. A language model turns a plain-language request into a JSON form schema; the app renders the form, validates what a user submits and keeps the submissions in session state. This project models the three deterministic pieces of that program and proves what they promise:

- **`clean_json_output`** (module `CleanJson`): pulls the JSON object out of raw model text. It looks for the first ```` ```json ```` fence that is later closed by ```` ``` ````, and returns the stripped text between the two. Otherwise it returns the slice from the first `{` through the last `}`. If either brace is missing, the text comes back unchanged. The regular expression `` ```json\s*([\s\S]*?)\s*``` `` is modelled by a search over start positions: a maximal leading `\s*` and a lazy body that stops at the first place where spaces and a closing fence follow.
- **The rule engine of `perform_validation`** (module `Validation`): each field's `validation` text is split on `,` and every token is stripped. The submitted value is stripped too. The checks `required`, `email_format` (or a field of type `email`), `min_length:N`, `exact_length:N` and `number_only` then build an ordered list of errors. The engine is an imperative method, `PerformValidation`, with a loop over fields, a `continue` on a failed `required`, and an inner loop over the rule tokens. Each method is proved equal to a pure function: `PerformValidation` to `ErrorsOf`, `CheckValue` to `ValueErrors`, `CheckLengthRules` to `LengthErrors` and `CheckLengthRule` to `LengthRuleErrors`. `FieldErrors` gives one field's errors inside `ErrorsOf`. The properties are lemmas about these functions.
- **The in-memory submission store** (module `Submissions`): a map from the collection path `"form_submissions/" + form_id` to an append-only sequence of records. It is a class, `SubmissionStore`, with a `Save` method and a `GetAll` function. A saved record is `{"timestamp": t}` overlaid with the submitted data.

Module `Text` models the Python string operations the core relies on, restricted to ASCII:

- `str.strip` and `str.split`;
- `str.index` and `str.rindex`;
- `str.replace(c, '', 1)`, `str.isdigit` and `int`.

The program never calls `str.join`. `Text.Join` exists only as the inverse of `Split` in `JoinSplit` and `SplitJoin`.

Module `Wrappers` holds `Option`.

Inputs that come from outside the program become parameters:

- the submitted values are a map from field name to an optional string;
- the date stamped on a record is an argument of `Save`.

The result of `clean_json_output` need not start with `{` and end with `}`. A fenced body comes back stripped, whatever it holds (`FencedContent`). `"}{"` gives `""` (`ReversedBracesGiveEmpty`). `NoFenceShape` states the shape that does hold on fence-free text.

## Model

| member | source | states |
|---|---|---|
| CleanJson.FencedContent | app.py:158-160 | When an opening fence is found first at `p` and the next closing fence after it is at `c`, the result is exactly the stripped text between them |
| CleanJson.FenceFoundIff | app.py:158-159 | The regular expression finds a match exactly when an opening fence is followed, not overlapping, by a closing fence |
| CleanJson.FencedPaddedBody | app.py:158-160 | A fenced body without backticks, padded by whitespace on both sides, is returned without the padding |
| CleanJson.WholeTextFenced | app.py:158-160 | A text that is one fenced block with a backtick-free body returns the stripped body |
| CleanJson.FencedFieldsExample | app.py:158-160 | A fenced `{"fields": []}` yields exactly `{"fields": []}` |
| CleanJson.BraceSlice | app.py:162-165 | Without a fence, with the first `{` at `a` and the last `}` at `b`: the result is the slice from `a` through `b`, and the empty string when `b` comes before `a` |
| CleanJson.ReversedBracesGiveEmpty | app.py:162-165 | `"}{"` gives the empty string, not an error |
| CleanJson.Unchanged | app.py:162-167 | Without a fence and with a brace missing, the input comes back unchanged |
| CleanJson.NoFenceShape | app.py:162-167 | Without a fence, the result is the input, the empty string, or a text that starts with `{` and ends with `}` |
| CleanJson.BracedIsFixed | app.py:162-165 | A fence-free text that starts with `{` and ends with `}` is returned as it is |
| CleanJson.IdempotentWithoutFence | app.py:155-167 | On fence-free text, cleaning twice gives the same result as cleaning once |
| CleanJson.ResultIsSubstring | app.py:155-167 | The result is always a contiguous piece of the input |
| CleanJson.CleanJsonOutput | app.py:155-167 | The result is never longer than the input |
| CleanJson.SearchFence | app.py:158 | `re.search`: tries each start position in turn and returns the group of the first match; a match it returns lies inside the text |
| CleanJson.LazyEnd | app.py:158 | The lazy group `([\s\S]*?)`: the first end from which whitespace and a closing fence follow |
| CleanJson.SearchFenceSound | app.py:158 | A match found by the search from any position is a real opening fence followed by a closing fence |
| CleanJson.FenceMatch | app.py:158 | The search matches at the first opening fence; the group lies between it and the next closing fence, with only whitespace around it |
| CleanJson.LazyEndStops | app.py:158 | The lazy group ends no later than the next closing fence, with only whitespace between its end and that fence |
| CleanJson.SkipSpaces | app.py:158 | `\s*` consumes a run of whitespace and stops at a non-space |
| CleanJson.MatchFenceAt | app.py:158 | A match at a position starts with an opening fence, and its group ends where spaces and a closing fence follow |
| Text.Trim | app.py:160 | The stripped text starts and ends with a non-space and is no longer than the input |
| Text.TrimBounds | app.py:160 | The stripped text is a slice of the input with only whitespace cut from either end |
| Text.TrimOfPadded | app.py:160 | Stripping whitespace padding from a text with non-space ends gives that text back |
| Text.TrimIgnoresPadding | app.py:160 | Padding a text with whitespace does not change its stripped form |
| Text.TrimEmptyIff | app.py:185 | The stripped text is empty exactly when the text is all whitespace |
| Text.TrimIdempotent | app.py:183-185 | Stripping twice gives the same result as stripping once |
| Text.IndexOf | app.py:163 | `index` returns the first occurrence of the character |
| Text.LastIndexOf | app.py:164 | `rindex` returns the last occurrence of the character |
| Text.IndexOfUnique | app.py:163 | Any position holding the character with none before it is the one `index` returns |
| Text.LastIndexOfUnique | app.py:164 | Any position holding the character with none after it is the one `rindex` returns |
| Text.FindFrom | app.py:158 | The search for a pattern returns its first occurrence from a position, or reports that there is none |
| Text.Split | app.py:183 | Splitting gives at least one piece, two when the separator occurs, and no piece contains the separator |
| Text.JoinSplit | app.py:183 | Joining the pieces of a split with the separator gives the original text back |
| Text.SplitJoin | app.py:183 | Splitting a join of separator-free pieces gives the pieces back |
| Text.RemoveFirst | app.py:215 | Removing the first `.` shortens the text by one when there is one, and leaves it unchanged otherwise |
| Text.IsDigits | app.py:222 | `str.isdigit` on ASCII: non-empty and made of digits only; `NumberOnlyIff` gives what it accepts after one `.` is removed |
| Text.ParseInt | app.py:207 | `int`: strips, reads an optional sign, then one to 4300 digits (CPython's default `sys.get_int_max_str_digits()`; a longer run raises `ValueError`); `ParseIntIff` and `ParseIntOfParts` give what it accepts and the value it reads (the same call reads `exact_length` at line 214) |
| Text.ParseIntIff | app.py:207 | `int` succeeds exactly on whitespace, an optional sign, a run of one to 4300 digits, then whitespace (the same call reads `exact_length` at line 214) |
| Text.ParseIntOfParts | app.py:207 | On such a text, `int` reads the digits' value, negated after a `-` (the same call reads `exact_length` at line 214) |
| Text.ParseDigits | app.py:207 | `int` reads a bare run of at most 4300 digits as its decimal value |
| Text.TooManyDigitsRefused | app.py:207 | `int` raises on a run of more than 4300 digits, however it is padded or signed, so the rule is skipped (the same call reads `exact_length` at line 214) |
| Text.ParseDecimal | app.py:207 | `int` reads back every natural number of at most 4300 decimal digits |
| Text.DigitsValueOfDecimal | app.py:207 | The digits of a natural number's decimal form have that number as their value |
| Validation.FieldDefinition | app.py:56-62 | One field of a form: name, label, type, validation text and options |
| Validation.Lookup | app.py:184 | `submitted_data.get(name)`: the submitted value, or none when the name is absent |
| Validation.RuleArgument | app.py:207 | `int(rule.split(':')[1])`: the number after the first `:`, or none when it is not an integer (the same call reads `exact_length` at line 214) |
| Validation.RuleArgumentIff | app.py:207 | The number reads exactly when the text after the first `:`, up to any second `:`, is a padded, optionally signed run of one to 4300 digits (the same call reads `exact_length` at line 214) |
| Validation.ErrorsOf | app.py:182-225 | The errors of all fields, field after field; `PerformValidation` is proved equal to it, and `NoErrorsIff` and `ErrorsOfAppend` state its properties |
| Validation.FieldErrors | app.py:183-223 | One field's errors: the required error alone for an empty value under `required`, nothing for another empty value, and the value checks otherwise; `RequiredIff`, `InvalidEmailIff`, `TooShortIff`, `WrongLengthIff` and `NotNumericIff` say exactly when each error appears |
| Validation.ValueErrors | app.py:197-223 | The checks on a non-empty value: the email error, then the length errors, then the numeric error; `CheckValue` is proved equal to it |
| Validation.LengthErrors | app.py:204-218 | The loop over rule tokens; `CheckLengthRules` is proved equal to it, and `TooShortInLengthErrors` and `WrongLengthInLengthErrors` say exactly when each error appears |
| Validation.LengthRuleErrors | app.py:205-218 | One token's `min_length` error followed by its `exact_length` error; `CheckLengthRule` is proved equal to it |
| Validation.MinLengthErrors | app.py:205-210 | A `min_length:N` token reports a value shorter than a readable `N`; `TooShortInRule` states it |
| Validation.ExactLengthErrors | app.py:212-218 | An `exact_length:N` token reports a checked length other than a readable `N`; `WrongLengthInRule` states it |
| Validation.LengthToCheck | app.py:215 | The length an `exact_length` rule compares: a `number` field first loses one `.` |
| Validation.EmailPattern | app.py:200 | The regular expression: a non-empty local part, `@`, a domain with at least one character before a final `.`, then two or more letters |
| Validation.EmailFormatOk | app.py:200 | A scan that splits at the first `@` and the domain's last `.`; `EmailFormatIff` proves it accepts exactly what `EmailPattern` matches |
| Validation.NumberOnlyOk | app.py:222 | `replace('.', '', 1).isdigit()`; `NumberOnlyIff` gives what it accepts |
| Validation.Rules | app.py:183 | One rule token per comma-separated piece; each token has no comma and no surrounding whitespace |
| Validation.SingleRule | app.py:183 | A validation text that is one stripped token without commas gives exactly that token |
| Validation.NamedRuleTokens | app.py:183 | The texts `required`, `email_format` and `number_only` give one token each |
| Validation.StrValue | app.py:184-185 | The stripped value is empty exactly when the value is missing or all whitespace |
| Validation.PerformValidation | app.py:171-225 | The errors are those of the fields taken in order, and the data returned is the submitted map unchanged |
| Validation.CheckValue | app.py:197-223 | The checks on a non-empty value give the email error, then the length errors, then the numeric error |
| Validation.CheckLengthRules | app.py:203-218 | The loop over tokens gives the errors of each length rule in token order |
| Validation.CheckLengthRule | app.py:204-218 | One token gives its `min_length` error, then its `exact_length` error; a malformed number gives none |
| Validation.NoErrorsIff | app.py:182-225 | Validation reports nothing exactly when every field on its own reports nothing |
| Validation.ErrorsOfAppend | app.py:182-225 | The errors of two runs of fields are the first run's errors followed by the second's |
| Validation.EmptyValue | app.py:185-197 | A missing or blank value gets exactly one required error when `required` is a token, and no error at all otherwise |
| Validation.RequiredIff | app.py:188-190 | The required error appears exactly when `required` is a token and the value is empty, and it is then the field's only error |
| Validation.RequiredRuleOnly | app.py:183-190 | On a field whose type is not `email`, with `required` as the only rule, an empty value gets the required error and any other value passes |
| Validation.EmailFormatIff | app.py:200 | The scan for an email address accepts exactly the texts the pattern matches |
| Validation.EmailSamples | app.py:200 | The pattern accepts `a@b.com` and rejects `not-an-email` |
| Validation.InvalidEmailIff | app.py:199-201 | The email error appears exactly for a non-empty value that fails the pattern, when `email_format` is a token or the field type is `email` |
| Validation.AtMostOneEmailError | app.py:199-201 | A field gets at most one email error, and it comes first |
| Validation.EmailRuleOnly | app.py:183-201 | With `email_format` as the only rule, exactly the non-empty values that fail the pattern are rejected |
| Validation.InvalidEmailInValue | app.py:199-201 | Among the value checks, the email error appears exactly when the email check runs and fails |
| Validation.ValueErrorsKinds | app.py:198-223 | The value checks never report a missing value, and only their first error can be an email error |
| Validation.TooShortInRule | app.py:205-210 | One token reports a too-short error for `n` exactly when it reads `min_length:n` and the value is shorter than `n` |
| Validation.WrongLengthInRule | app.py:212-218 | One token reports a wrong-length error for `n` exactly when it reads `exact_length:n` and the checked length differs from `n` |
| Validation.IgnoredRuleNoErrors | app.py:204-218 | A token that is not a length rule with a well-formed number adds no length error |
| Validation.IgnoredRuleAddsNothing | app.py:204-218 | Inserting such a token anywhere among the rules does not change the length errors |
| Validation.NoLengthRulesNoErrors | app.py:204-218 | Without a well-formed length rule there is no length error |
| Validation.LengthErrorsAppend | app.py:204-218 | The length errors of two runs of tokens are the first run's followed by the second's |
| Validation.LengthErrorsKinds | app.py:204-218 | The length loop reports only too-short and wrong-length errors |
| Validation.TooShortInLengthErrors | app.py:204-210 | The loop reports a too-short error for `n` exactly when the value is shorter than `n` and some token reads `min_length:n` |
| Validation.WrongLengthInLengthErrors | app.py:204-218 | The loop reports a wrong-length error for `n` exactly when the checked length differs from `n` and some token reads `exact_length:n` |
| Validation.TooShortIff | app.py:185-210 | A field gets a too-short error for `n` exactly when its value is non-empty, shorter than `n`, and a token reads `min_length:n` |
| Validation.WrongLengthIff | app.py:185-218 | A field gets a wrong-length error for `n` exactly when its value is non-empty, its checked length differs from `n`, and a token reads `exact_length:n` |
| Validation.LengthErrorInValue | app.py:198-223 | Among the value checks, the length errors are exactly those of the length loop |
| Validation.MinRuleText | app.py:205-207 | The token `min_length:N`, with `N` written in decimal in at most 4300 digits, reads `N` |
| Validation.MinRuleToken | app.py:183 | The validation text `min_length:N` gives exactly that token |
| Validation.OnlyMinRule | app.py:198-223 | A lone `min_length:n` token on a non-email field reports a too-short error exactly when the value is shorter than `n` |
| Validation.LoneRuleField | app.py:183-223 | A field whose only rule is not `required` gets that rule's value checks, and nothing for an empty value |
| Validation.MinLengthRuleOnly | app.py:183-223 | On a field whose type is not `email`, with `min_length:N` (`N` of at most 4300 digits) as the only rule, exactly the non-empty values shorter than `N` are rejected |
| Validation.NumberOnlyIff | app.py:221-222 | The numeric check accepts exactly digits with at most one decimal point and at least one digit |
| Validation.NotNumericInValue | app.py:221-223 | Among the value checks, the numeric error appears exactly when `number_only` is a token and the check fails |
| Validation.NotNumericIff | app.py:185-223 | A field gets the numeric error exactly when its value is non-empty, `number_only` is a token and the value is not numeric |
| Validation.UnrecognisedRulesNoErrors | app.py:182-223 | A field of a type other than `email` whose tokens are all unrecognised gets no error |
| Validation.UnrecognisedValueErrors | app.py:198-223 | The value checks report nothing when no token is recognised and the field type is not `email` |
| Submissions.CollectionPath | app.py:35-37 | The path is the collection prefix followed by the form id |
| Submissions.CollectionPathInjective | app.py:35-37 | Two forms share a collection exactly when their ids are equal |
| Submissions.MakeRecord | app.py:45 | The record has the submitted keys plus `timestamp`; submitted values win, and the date is used only when `timestamp` was not submitted |
| Submissions.SubmissionsOf | app.py:48-51 | `.get(path, [])` on a given store: the form's records, or none |
| Submissions.Saved | app.py:39-46 | The store after saving: the form's collection, created if absent, gains the new record at its end; `SavedAppendsOne`, `SavedKeepsOthers`, `SavedPaths` and `SavedValid` state its properties |
| Submissions.SavedAppendsOne | app.py:39-46 | Saving appends exactly the new record to the form's submissions and keeps the earlier ones in order |
| Submissions.SavedKeepsOthers | app.py:39-46 | Saving for one form leaves every other form's submissions untouched |
| Submissions.SavedPaths | app.py:39-46 | Saving adds at most one collection, the form's own |
| Submissions.SavedValid | app.py:39-46 | Saving keeps every collection under the prefix and every record stamped |
| Submissions.SubmissionStore.constructor | app.py:28-29 | The store starts empty |
| Submissions.SubmissionStore.GetAll | app.py:48-51 | A form with no collection has no submissions; every stored record carries a timestamp |
| Submissions.SubmissionStore.Save | app.py:39-46 | The store becomes the old one with the form's collection created if absent and the record appended; other forms are unchanged |

## Left out

- Page rendering, widgets and navigation (app.py:227-425) are user-interface code driven by widget events.
- The calls to the language models (app.py:93-150) are network I/O with external responses.
- Parsing JSON into the schema (app.py:72-73 and its callers) is library behaviour. `FormSchema` is not part of this model, and `PerformValidation` takes the field list directly.
- The form id is derived with SHA-256 (app.py:383), a foreign hash. Form ids are opaque strings here.
- `date.today()` is a clock; `Save` takes the timestamp as an argument.
- The submitted values come from session state under a key that does not match the membership test (app.py:176-179). The model takes the submitted map as input.
- `value is not date.today()` compares object identity and is treated as `value is not None`. Values are optional strings, so `str(value)` of other types is not modelled.
- The second required check (app.py:192-194) can never fire after the first one and is not modelled.
- `Text.Trim`, `Text.ParseInt` and `Text.IsDigits` cover only ASCII:
  - `str.strip` and the regex class `\s` cover Unicode whitespace, including the separators `\x1c`-`\x1f`; the model covers only space, tab, line feed, carriage return, vertical tab and form feed;
  - `str.isdigit` also accepts non-ASCII digits; the model accepts only `0`-`9`;
  - `int` also accepts non-ASCII digits and `_` separators; the model reads an optional sign and ASCII digits.
- `Text.MaxStrDigits` is CPython's default limit of 4300 digits. A limit changed at run time (`sys.set_int_max_str_digits`, `PYTHONINTMAXSTRDIGITS`) is not modelled.
- Validation errors are structured values carrying the field label and the rule's number. The rendered message text and its emoji are not modelled.
- The order of keys inside a saved record is not modelled, because records are maps.
- `Submissions.SubmissionStore.GetAll` returns a value. The source returns the stored list itself, so a caller could mutate the store through it; that aliasing is not modelled.
- Python's object types are not modelled. The store's records hold values of one type `V`, and the validation values are strings.

# Contact-form validation of the ambulance-request app

The ambulance-request web application has a "Contact Us" page
(`client/src/pages/ContactUs.jsx`) whose form holds four text fields —
`name`, `phone`, `email` and `message` — all initially empty. The form
library calls the page's `validate` function with the current values. It
returns an object that maps each field it rejects to the message displayed
under that field:

- an empty `name`, `phone` or `message` is reported as required;
- an empty `email` is reported as required;
- a filled-in `email` that fails the regular expression
  `/^[A-Z0-9._%+-]+@[A-Z0-9.-]+\.[A-Z]{2,}$/i` is reported as invalid.

The project is built in three layers:

- `regexp.dfy` (module `RegExp`) models the small part of JavaScript regular
  expressions that the pattern uses: literal characters, character classes
  `[...]`, concatenation, `+` and `{n,}`. Matching is defined as a whole-string
  match, because the pattern is anchored with `^` and `$` and has no `m` flag.
  Under the `i` flag, characters are compared after canonicalisation, as in
  ECMAScript's non-Unicode mode. This layer proves that the `i` flag makes
  every such pattern blind to ASCII letter case.
- `email_syntax.dfy` (module `EmailSyntax`) writes the contact form's pattern
  as a value of that syntax. It also gives a structural description, the
  executable predicate `IsWellFormedEmail`:
  - exactly one `@`;
  - a non-empty local part of letters, digits and `._%+-` before it;
  - a domain of letters, digits, `.` and `-` after it;
  - the domain's last `.` has something before it and two or more letters,
    and nothing else, after it.

  The module proves that this description accepts exactly the strings the
  regular expression accepts, and proves the verdict on a few concrete addresses.
- `contact_us.dfy` (module `ContactUs`) models `initialValues` and
  `validate`. The per-field outcome is stated in `Validate`'s contract, and
  the lemmas beside it cover:
  - acceptance: no errors exactly when every field is filled in and the email
    matches;
  - the errors reported for the initial values;
  - indifference to the letter case of the email;
  - each error entry depending only on its own field.

`wrappers.dfy` holds the `Option` type used by the index helpers.

## Model

The table lists the members whose contracts state something. The definitions they
rest on carry no contract of their own:

- `RegExp.Matches` and `RegExp.MatchesRepeat` give the meaning of `test` for a
  pattern anchored by `^` and `$`: a match of the whole string
  (client/src/pages/ContactUs.jsx:25).
- `EmailSyntax.EmailPattern` is the regular-expression literal, and
  `EmailSyntax.MatchesEmailRegex` is its `.test(values.email)`
  (client/src/pages/ContactUs.jsx:25).
- `ContactUs.InitialValues` is `initialValues`, four empty strings
  (client/src/pages/ContactUs.jsx:5-10).

| member | source | states |
|---|---|---|
| `RegExp.Canonicalize` | client/src/pages/ContactUs.jsx:25 | under the `i` flag a lower-case ASCII letter is compared as the upper-case letter at the same position of the alphabet (`a` as `A`), and every other character as itself; without the flag nothing changes |
| `RegExp.MatchesIgnoresCase` | client/src/pages/ContactUs.jsx:25 | with the `i` flag, any pattern matches a string exactly when it matches every string that differs from it only in ASCII letter case |
| `RegExp.RepeatIgnoresCase` | client/src/pages/ContactUs.jsx:25 | the same case-blindness for a repetition `body{min,}` (the `+` and `{2,}` of the pattern) |
| `RegExp.RepeatClass` | client/src/pages/ContactUs.jsx:25 | `[...]{min,}` matches exactly the strings of at least `min` characters, every one of them in the class |
| `RegExp.ConcatLit` | client/src/pages/ContactUs.jsx:25 | a non-letter literal (`@`, `\.`) followed by a pattern matches exactly that character followed by a match of the pattern, with or without `i` |
| `RegExp.ConcatRepeatClass` | client/src/pages/ContactUs.jsx:25 | `[...]{min,}` followed by a pattern matches exactly when some split after at least `min` class characters leaves a match of the pattern |
| `EmailSyntax.LocalClassChars` | client/src/pages/ContactUs.jsx:25 | with `i`, `[A-Z0-9._%+-]` accepts exactly the ASCII letters of either case, the digits and `._%+-` |
| `EmailSyntax.DomainClassChars` | client/src/pages/ContactUs.jsx:25 | with `i`, `[A-Z0-9.-]` accepts exactly the ASCII letters of either case, the digits, `.` and `-` |
| `EmailSyntax.LetterClassChars` | client/src/pages/ContactUs.jsx:25 | with `i`, `[A-Z]` accepts exactly the 52 ASCII letters |
| `EmailSyntax.TopLevelMatch` | client/src/pages/ContactUs.jsx:25 | `\.[A-Z]{2,}` matches exactly a `.` followed by two or more letters |
| `EmailSyntax.DomainPatternMatch` | client/src/pages/ContactUs.jsx:25 | `[A-Z0-9.-]+\.[A-Z]{2,}` matches exactly the strings with a `.` at some position `dot > 0`, domain characters before it and at least two letters, and only letters, after it |
| `EmailSyntax.EmailPatternMatch` | client/src/pages/ContactUs.jsx:25 | the whole pattern matches exactly the strings with an `@` after a non-empty run of local-part characters and a domain of that shape after it |
| `EmailSyntax.DomainShapeIsLastDot` | client/src/pages/ContactUs.jsx:25 | a domain has that shape exactly when it consists of domain characters and its last `.` is not first and is followed by two or more letters only |
| `EmailSyntax.EmailSplitOnlyAt` | client/src/pages/ContactUs.jsx:25 | an address the pattern splits at an `@` contains exactly one `@`, and it is that one |
| `EmailSyntax.EmailSplitIsWellFormed` | client/src/pages/ContactUs.jsx:25 | an address splits as the pattern requires exactly when it satisfies the structural description |
| `EmailSyntax.EmailRegexCharacterisation` | client/src/pages/ContactUs.jsx:25 | the regular expression accepts an address exactly when it has one `@`, a non-empty local part of letters, digits and `._%+-`, and a domain of letters, digits, `.` and `-` whose last `.` has a non-empty prefix and two or more letters only after it |
| `EmailSyntax.EmailRegexIgnoresCase` | client/src/pages/ContactUs.jsx:25 | changing the letter case of an address changes neither the regular expression's verdict nor the structural one |
| `EmailSyntax.AcceptedExamples` | client/src/pages/ContactUs.jsx:25 | `J.D+x@b-c.IO` and `a@b.cd` are accepted |
| `EmailSyntax.RejectedExamples` | client/src/pages/ContactUs.jsx:25 | `a@b.c` (one-letter ending), `@b.cd` (empty local part) and `a@.cd` (nothing before the last `.`) are rejected |
| `EmailSyntax.RejectedDoubleAt` | client/src/pages/ContactUs.jsx:25 | `a@@b.cd` is rejected |
| `EmailSyntax.RejectedBlank` | client/src/pages/ContactUs.jsx:25 | `a b@c.de` is rejected |
| `ContactUs.Validate` | client/src/pages/ContactUs.jsx:12-34 | only `name`, `phone`, `email` and `message` can carry an error. Each of `name`, `phone` and `message` has an entry exactly when it is empty, with that field's "required" message; a blank-only value is accepted. `email` has an entry exactly when it is empty or fails the regular expression. The entry is "Email is required" when `email` is empty, never "Invalid email address", and "Invalid email address" otherwise |
| `ContactUs.ValidateAcceptsIff` | client/src/pages/ContactUs.jsx:12-34 | the result is empty exactly when all four fields are non-empty and the email matches the regular expression |
| `ContactUs.InitialValuesErrors` | client/src/pages/ContactUs.jsx:5-34 | validating the initial all-empty values gives exactly the four "required" messages |
| `ContactUs.ValidateIgnoresEmailCase` | client/src/pages/ContactUs.jsx:23-27 | replacing the email by one that differs only in ASCII letter case leaves the whole result unchanged |
| `ContactUs.ValidateFieldsIndependent` | client/src/pages/ContactUs.jsx:15-31 | whether a field has an entry, and which message it holds, depends only on that field's value |

## Left out

- `handleSubmit` (client/src/pages/ContactUs.jsx:36-44) is not modelled. It only logs, waits on a timer, shows an alert and resets the form through the form library.
- The page's rendering and the form library itself are not modelled: when `validate` is called, how errors are shown, and the submit button's state.
- The browser's own checks for `type="email"` and `type="tel"` inputs are not modelled.
- Field values are modelled as strings, because every field is a text input. JavaScript's `!value` is therefore modelled as `value == ""`. The `undefined` and `null` values that would also count as missing do not arise here and are not modelled.
- `RegExp.Canonicalize` maps only ASCII letters. ECMAScript also upper-cases other characters. It never maps a non-ASCII character to an ASCII one, though, so this cannot change whether a character is in one of the pattern's all-ASCII classes or equals its literals.
- Strings are sequences of Unicode characters. JavaScript's UTF-16 code units are not modelled. A character outside the basic plane is one character here and two code units there; neither form can match any class of the pattern.
- `RegExp` covers only the constructs the email pattern uses. Alternation, groups, captures, other anchors and other flags are not modelled.
- The other files of the repository are not part of this model. These are the API client, the authentication context, the other forms and their schema-library rules, the map page, the presentation components and the server.
- A nearby-facility search, ranking or distance computation is not part of this model, because no source for it exists among these files. The map page's distance is a random placeholder, and its ETA is floating-point arithmetic.

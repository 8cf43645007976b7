# Credential validation and local user store of the authentication demo

This project models the two logic modules of a client-side authentication demo.

- The credential validators (`src/utils/validation.ts`), in module `Validation`:
  - `validateEmail` applies a shape check (`^[^\s@]+@[^\s@]+\.[^\s@]+$`) and then a gmail.com-only policy.
  - `validatePassword` applies the required / 6-character rule and gives a 0..4 strength score.
  - `validateConfirmPassword` is an exact-equality check.
- The user and session store (`src/utils/storage.ts`), in module `Storage`. Class `UserStore` holds the two
  browser-storage slots, `auth_app_users` and `auth_app_current_user`. Its methods are `saveUser`,
  `loginUser`, `setCurrentUser` and `logoutUser`. Its reading functions are `getUsers`, `getCurrentUser`
  and `isLoggedIn`.

Module `Text` holds the character class `\s`, ASCII lower-casing and `endsWith`. Module `Wrappers` holds
`Option`/`Result`, which stand in for `null` returns and the thrown duplicate-email error.

The regular expression is modelled literally as `MatchesEmailPattern`: the string splits into three
`[^\s@]+` parts around an '@' and a '.'. The lemma `EmailPatternIff` relates it to an independent
description, `SingleAtDottedDomain`: no whitespace, exactly one '@', not first, and a '.' after it with a
character on each side. The password score is specified by `Satisfied(p)`, the set of the five criteria
the password meets. The method `ValidatePassword` keeps the source's running counter and is proved
equal to `min(4, |Satisfied(p)|)`. Each storage slot is `Missing | Blank | Unparseable | Holds(value)`.
`Blank` is the empty string, which the code treats as missing (`!usersJson`). The fresh `id` and
`createdAt` of a new user are parameters of `SaveUser`.

The regular expression's last part is `[^\s@]+`, so an '@' after the dot is refused too.

## Model

| member | source | states |
|---|---|---|
| `Validation.EmailPatternIff` | src/utils/validation.ts:9-10 | the email regular expression accepts a string exactly when it has no whitespace, exactly one '@' (not first), and a '.' after the '@' with at least one character on each side |
| `Validation.ValidateEmail` | src/utils/validation.ts:7-20 | valid exactly when the address is well shaped and its lower-cased form ends with "@gmail.com". The shape message is returned exactly for malformed input, so a malformed address never gets the gmail message. The gmail message is returned exactly for well-shaped, non-gmail input. An error is present exactly when invalid |
| `Validation.SuffixAfterAt` | src/utils/validation.ts:15 | for a string whose only '@' is at i, the lower-cased string ends with "@gmail.com" iff the lower-cased text after i is "gmail.com" |
| `Validation.GmailPolicy` | src/utils/validation.ts:14-19 | a well-shaped address is accepted iff the text after its '@', lower-cased, is exactly "gmail.com" |
| `Validation.DomainPolicyExamples` | src/utils/validation.ts:15-19 | "a@GMAIL.com" is valid; "a@yahoo.com" is refused with "Only gmail.com email addresses are allowed" |
| `Validation.MalformedGmailGetsShapeMessage` | src/utils/validation.ts:9-12 | "a b@gmail.com" ends in @gmail.com but gets "Please enter a valid email address", because the shape check runs first |
| `Validation.SatisfiedCount` | src/utils/validation.ts:43-58 | the number of satisfied criteria equals the sum of one point per criterion met, as the five `strength += 1` steps add them |
| `Validation.SomeCriterionAlwaysMet` | src/utils/validation.ts:48-58 | every non-empty password meets at least one of the four character-class criteria (lower case, upper case, digit, special), so it satisfies at least one criterion |
| `Validation.ValidatePassword` | src/utils/validation.ts:27-64 | "" gives {false, 0, "Password is required"}. Lengths 1..5 give {false, 1, "Password must be at least 6 characters"} whatever the content. Length 6 or more gives valid with strength min(4, number of satisfied criteria). Strength is at most 4, and at least 1 when valid |
| `Validation.PasswordExamples` | src/utils/validation.ts:43-63 | "Abc12345!" meets all five criteria and scores 4; "abcdefgh" meets exactly length and lower case and scores 2 |
| `Validation.ValidateConfirmPassword` | src/utils/validation.ts:72-81 | valid iff the two strings are identical; otherwise the error is "Passwords do not match" |
| `Validation.ConfirmReflexive` | src/utils/validation.ts:76-80 | a password always confirms itself, the empty password included |
| `Storage.FirstMatch` | src/utils/storage.ts:68-70 | the index found is a user whose lower-cased email and exact password match, and no earlier user matches; it is the list length when nobody matches |
| `Storage.MatchIsUnique` | src/utils/storage.ts:66-78 | when stored emails are distinct up to case, any matching user is the one login finds |
| `Storage.AppendKeepsEmailsDistinct` | src/utils/storage.ts:26-39 | appending a user whose email is not taken keeps the stored emails pairwise distinct up to case |
| `Storage.UserStore.GetUsers` | src/utils/storage.ts:48-58 | the decoded list when the users slot holds one; no users when it is missing, empty or unparseable |
| `Storage.UserStore.GetCurrentUser` | src/utils/storage.ts:90-100 | the session user when the slot holds one; none when it is missing, empty or unparseable |
| `Storage.UserStore.IsLoggedIn` | src/utils/storage.ts:112-114 | true iff getCurrentUser returns a user |
| `Storage.UserStore.SaveUser` | src/utils/storage.ts:23-43 | an email taken up to case fails with "This email is already registered" and writes nothing. Otherwise the record is returned with the input's name, email and password and the supplied id and createdAt. The users slot then holds the list as read plus that record at the end. The old list stays a prefix, distinct emails stay distinct, and the session slot is untouched |
| `Storage.UserStore.SetCurrentUser` | src/utils/storage.ts:83-85 | the session slot holds the user and getCurrentUser returns it; the users slot is untouched |
| `Storage.UserStore.LoginUser` | src/utils/storage.ts:66-78 | the first matching user in insertion order is returned and becomes the session. With no match the result is none and the session is unchanged. The result is none iff no stored user matches. The users slot is never written |
| `Storage.UserStore.LogoutUser` | src/utils/storage.ts:105-107 | the session slot is removed whatever it held, so a second logout gives the same state; isLoggedIn is then false; the users slot is untouched |

## Left out

- JSON encoding and decoding are not modelled. A slot is modelled by what decoding yields: missing, empty, unparseable, or a value.
- A slot whose JSON parses to a value of the wrong shape is not modelled, for either slot. The code does not check the parsed value. A users slot that is not a list of users makes `some`/`find` throw or misbehave. A session slot holding, say, `0` makes `isLoggedIn` true, and one holding `null` reads as no session.
- The `console.error` logging on a corrupt slot is left out. It is output only.
- `generateId` (`Math.random`, `Date.now`) and `new Date().toISOString()` are not modelled. They are nondeterministic. `SaveUser` takes the id and creation time as parameters, so the model does not prove them unique or non-empty.
- `localStorage.setItem` failures (for example, a full quota) are not modelled. Concurrent writers from other tabs are also out of scope.
- Text.ToLower: does not model full Unicode `toLowerCase`. Only ASCII letters are lower-cased. For example, the Kelvin sign U+212A, which JavaScript lower-cases to 'k', is left unchanged.
- Validation.ValidatePassword: lengths are counted in Unicode scalar values, not the UTF-16 code units of JavaScript's `length`. A password with characters outside the Basic Multilingual Plane is therefore counted shorter than JavaScript counts it.
- The React form controllers, the strength meter and the page components are not part of this model. They only render, navigate and combine validator results.

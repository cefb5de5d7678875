# Sign-in token store

A Dafny model of the sign-in helper of the resource website front end
(`js/signin.js`). After a successful Google sign-in, `onSignIn` builds the
record `id_token=<token>; expires=<HTTP date>; path=/;` and assigns it to
the page-global property `document.cookies`. `getID_Token` reads that
property back. It splits the string on `;` and drops the leading spaces of
each segment. It then returns what follows `id_token=` in the first segment
that starts with it. When the property is undefined or no segment matches,
it returns the empty string.

The code writes `document.cookies`, with an `s`. That is an ordinary
property, not the browser's cookie jar. So the store holds one string, and
every sign-in replaces the whole previous value.

Layout:

- `js_strings.dfy`, module `JsStrings`: JavaScript's `split` with a
  one-character separator (`Split`). It comes with `Join` and lemmas in both
  directions showing that each undoes the other.
- `signin.dfy`, module `SignIn`: the store and the two operations.
  - The store is a class `Document` whose field `cookies: Option<string>`
    stands for `document.cookies`. `None` is `undefined`.
  - `OnSignIn` overwrites that field.
  - `GetIdToken` reads it with the source's two loops. It is proved equal to
    the parse function `ParseIdToken`.
  - Lemmas state the parser's properties and the round trip.

Inputs that come from the host become parameters:

- The provider's auth response is an `AuthResponse(idToken, expiresIn)` value.
- The clock is an integer `now` in milliseconds.
- `Date.prototype.toUTCString` is a function parameter `toUtcString: int -> string`.

The round trip needs no assumption about the date text. The token lies in
the first `;`-segment whatever the date looks like.

A token containing `;` does not survive the round trip. Only its part before
the first `;` is read back (`RoundTrip`). So the code gives the round trip only
for tokens without `;`.

## Model

| member | source | states |
|---|---|---|
| SignIn.Document.constructor | js/signin.js:15-17 | before any sign-in, `document.cookies` is undefined |
| SignIn.OnSignIn | js/signin.js:1-11 | the stored value becomes exactly `id_token=` + token + `; expires=` + the formatted instant `now + expires_in*1000` + `; path=/;`, whatever was stored before; the token is returned unchanged |
| SignIn.GetIdToken | js/signin.js:14-42 | the loops return exactly the parse of the stored value; an undefined value gives `""`; `first_run` has no influence on the result |
| JsStrings.Split | js/signin.js:22 | `split(';')` gives at least one segment and no segment contains the separator |
| JsStrings.JoinSplit | js/signin.js:22 | gluing the segments back together with the separator gives the original string |
| JsStrings.SplitJoin | js/signin.js:22 | splitting a join of separator-free pieces gives back exactly those pieces, so `split` is the unique such decomposition |
| JsStrings.SplitHead | js/signin.js:22 | the first segment is the part of the string before its first separator |
| SignIn.StripLeadingSpacesSpec | js/signin.js:25-27 | the inner loop leaves a suffix that does not start with a space, and everything it dropped is a space |
| SignIn.MatchesIff | js/signin.js:25-28 | a segment matches exactly when it is a run of spaces followed by `id_token=`; a name that only ends in `id_token=` does not match |
| SignIn.ExampleNotAtStart | js/signin.js:28 | `my_id_token=x` yields `""` |
| SignIn.FirstMatchNone | js/signin.js:21-32 | when no segment matches, the result is `""` |
| SignIn.FirstMatchWins | js/signin.js:23-31 | the first matching segment, in split order, gives the result: its text after `id_token=` |
| SignIn.LaterMatchesIgnored | js/signin.js:28-31 | once a segment has matched, appending more segments, matching or not, changes nothing |
| SignIn.FirstMatchFrom | js/signin.js:28-29 | a non-empty result is the value of some matching segment |
| SignIn.ParseNoSemicolon | js/signin.js:22-29 | the token read back never contains `;` |
| SignIn.ParseJoined | js/signin.js:22-31 | for a stored string made of `;`-free segments, the parser sees exactly those segments |
| SignIn.TokenAfterOtherCookies | js/signin.js:23-31 | after any number of non-matching cookies and any run of spaces, `id_token=<t>` yields `t`, whatever follows |
| SignIn.RoundTrip | js/signin.js:9 | reading back a stored record gives the token up to its first `;`, hence the whole token when it has none, whatever the date text |
| SignIn.CookieSegments | js/signin.js:8-9 | with no `;` in the token or the date, the record splits into `id_token=<t>`, ` expires=<d>`, ` path=/` and a final empty segment |
| SignIn.SignInThenRead | js/signin.js:1-42 | signing in and then reading returns the token (up to its first `;`) |
| SignIn.SignInTwice | js/signin.js:9 | after two sign-ins only the second record is stored, and its token is the one read back |

## Left out

- `signOut` (js/signin.js:44-47) only calls into Google's `gapi.auth2` library and has no logic of its own.
- `google_user.getAuthResponse()` is a foreign SDK object. Its result is the `AuthResponse` value passed in.
- `new Date()`, `setTime` and `toUTCString` are the host clock and HTTP-date formatting. They are the parameters `now` and `toUtcString`. The formatted text is not interpreted.
- SignIn.OnSignIn: `expires_in*1000` and the time addition are exact integer arithmetic. JavaScript's floating point, and the "Invalid Date" produced outside the `Date` range, are not modelled; the latter is only text passed to `toUtcString`.
- SignIn.OnSignIn: `id_token` is always a string. JavaScript would also concatenate `undefined` or a number into the record.
- `console.log(document.cookies)` is output only.
- Browser cookie semantics (per-name merging, expiry enforcement, path scoping) do not apply. The code writes the plain property `document.cookies`, so the store is one overwritable string.
- SignIn.GetIdToken: the test `document.cookies == undefined` is also true for `null`. `None` stands for both. A non-string value in the property is not modelled.
- The interactive re-sign-in retry (js/signin.js:34-39) is commented out. `firstRun` is accepted and ignored, as in the code.
- Strings are Dafny character sequences, not UTF-16 code units. The parser only compares `;`, the space and the ASCII characters of `id_token=`, so lengths and indices differ from JavaScript's only in what a character is.

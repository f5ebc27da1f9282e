# Task store of the QA demo server, in Dafny

This project models the in-memory task store of the demo server in
`server/server.js`. The store keeps an ordered list of task records
`{id, text, completed}` and an id counter, seeded with three records and the
counter at 4. It serves four requests:

- GET lists the records.
- POST creates one. Text that is missing or blank is rejected; otherwise the text is trimmed and the record gets the next id.
- PUT merges a partial update into the record that has the path's id.
- DELETE removes that record.

A separate stateless login check accepts exactly one user name and password.

Modules:

- `Wrappers` (`wrappers.dfy`): `Option`. It stands for a request field that may be absent.
- `JsBuiltins` (`js_builtins.dfy`): the two ECMAScript built-ins the handlers rely on.
  - `String.prototype.trim`: the TrimString operation of ECMA-262, with the WhiteSpace and LineTerminator sets written out.
  - `parseInt` with no radix: section 19.2.5 of ECMA-262. This covers leading white space, an optional sign, the `0x` prefix that switches to radix 16, the longest digit prefix, and NaN when there are no digits. NaN is `None` and is equal to nothing.
- `Auth` (`auth.dfy`): the login handler as a function from the two optional fields to the reply's status and JSON body.
- `Todos` (`todos.dfy`): the store's rules on values.
  - A `Snapshot` holds the record list and the counter.
  - `Find` models `findIndex` and `Merge` models the update merge.
  - Each handler is a function from a snapshot to the next snapshot and a reply: `Create`, `Update`, `Delete`.
  - `Run` applies a sequence of requests.
  - The lemmas state what the handlers promise.
- `Store` (`store.dfy`): class `TodoStore`, the store as the server keeps it. It has a `seq` field `todos`, changed in place, and an `int` field `nextId`. `FindIndex` is the linear scan as a loop. `Create`, `Update` and `Delete` are each proved to make the transition that `Todos` defines for them, and to keep `Valid()`. `Valid()` means ids are positive, pairwise distinct and below the counter.

Create guarantees non-blank, trimmed text (`server/server.js:62`, `71`):
see `Todos.CreateAppends`. Update writes any supplied text unchecked
(`server/server.js:95`). So `Valid()` says nothing about text, and
`Todos.UpdateCanStoreBlankText` shows a blank text being stored.

Every failure reply has the same shape: a status and the JSON body
`{success: false, message}` (`Auth.Rejection`, `Todos.TextRequired`,
`Todos.NotFound`).

Some functions carry no contract of their own. Lemmas state what they promise:

- `JsBuiltins.IsWhiteSpace`: `JsBuiltins.WhiteSpaceChars`, and the trim contracts.
- `JsBuiltins.DigitsValue`: `JsBuiltins.DigitsValueOfDecimal` and `JsBuiltins.ParseIntHexPrefix`.
- `Todos.Matches` and `Todos.NoMatch`: the contracts of `Todos.Find` and `Store.TodoStore.FindIndex`.
- `Todos.Create`: `Todos.CreateRejectsIff`, `Todos.CreateAppends`, `Todos.CreateKeepsWellFormed` and `Todos.CreateTwiceDistinct`.
- `Todos.Update`: `Todos.NotFoundIffNoMatch`, `Todos.UpdateMergesInPlace`, `Todos.UpdateKeepsWellFormed` and `Todos.UpdateCanStoreBlankText`.
- `Todos.Delete`: `Todos.NotFoundIffNoMatch`, `Todos.DeleteRemovesMatch`, `Todos.DeleteKeepsWellFormed` and `Todos.DeleteTwiceNotFound`.
- `Todos.Apply`, `Todos.Run` and `Todos.Issued`: `Todos.ApplyCounter`, `Todos.RunKeepsWellFormed` and `Todos.IssuedIdsIncrease`.

## Model

| member | source | states |
|---|---|---|
| `JsBuiltins.TrimStart` | server/server.js:62 | Leading white space is removed. The result is a suffix of the input, everything cut off is white space, and the result does not start with white space. |
| `JsBuiltins.TrimEnd` | server/server.js:62 | Trailing white space is removed. The result is a prefix of the input, everything cut off is white space, and the result does not end with white space. |
| `JsBuiltins.Trim` | server/server.js:62 | `text.trim()` is the slice of the text left after the leading and the trailing white space are cut off. Everything cut off is white space. The result is empty exactly when the text is all white space; otherwise it starts and ends with a non-white character. |
| `JsBuiltins.TrimEndOfSuffix` | server/server.js:62 | Cutting trailing white space off what is left after the leading white space leaves a slice of the original text, with only white space after it, and non-white at both ends. |
| `JsBuiltins.WhiteSpaceChars` | server/server.js:62 | Space, tab, line feed and carriage return are white space for trim and `parseInt`. No digit, sign or Latin letter is. |
| `JsBuiltins.TrimOfTrimmed` | server/server.js:71 | A string with no white space at either end is its own trim. |
| `JsBuiltins.TrimIdempotent` | server/server.js:71 | Trimming twice is the same as trimming once. So the text stored by create is already trimmed. |
| `JsBuiltins.ParseInt` | server/server.js:84 | `parseInt(id)` is NaN for an id that is empty or all white space. Only an id whose first non-white character is `-` parses to a negative number. |
| `JsBuiltins.ParseSigned` | server/server.js:84 | After the white space, the text is NaN when empty, and the result is negative only after a leading `-`. |
| `JsBuiltins.ParseUnsigned` | server/server.js:84 | Without a sign, the number read is never negative, and an empty text is NaN. |
| `JsBuiltins.ParseDigits` | server/server.js:84 | The digits are NaN exactly when the text does not start with a digit of the radix. Otherwise the value is a non-negative number. |
| `JsBuiltins.DigitPrefix` | server/server.js:84 | `parseInt` reads the longest prefix made only of digits, stopping at the first non-digit. |
| `JsBuiltins.DecimalString` | server/api-tests.js:263 | The decimal form of a number, as a test writes it into the path, is non-empty and all digits. It has no leading zero unless the number is 0. |
| `JsBuiltins.DigitsValueOfDecimal` | server/server.js:84 | The digit value `parseInt` computes from a number's decimal form is that number. |
| `JsBuiltins.DigitPrefixStops` | server/server.js:84 | The digit prefix of a run of digits followed by a non-digit is exactly that run. |
| `JsBuiltins.ParseIntOfDecimal` | server/server.js:84 | `parseInt` reads a non-negative integer back from its decimal form. This holds with any non-digit suffix, except that `0` followed by `x` is a hex prefix. |
| `JsBuiltins.UnsignedOfDecimal` | server/server.js:84 | Without a sign, the decimal form of a number followed by a non-digit reads back as that number. |
| `JsBuiltins.ParseIntSigned` | server/server.js:84 | `parseInt("-" + n + rest)` is `-n` and `parseInt("+" + n + rest)` is `n`. |
| `JsBuiltins.SignedStart` | server/server.js:84 | A leading `-` negates the unsigned number after it and a leading `+` keeps it. |
| `JsBuiltins.ParseIntHexPrefix` | server/server.js:84 | After `0x`, `parseInt` reads the digits in radix 16, up to the first non-hex-digit. |
| `JsBuiltins.UnsignedHex` | server/server.js:84 | The unsigned reader takes the digits after `0x` in radix 16. |
| `JsBuiltins.TrimStartSkips` | server/server.js:84 | Cutting leading white space after more white space gives the same result. |
| `JsBuiltins.ParseIntSkipsWhiteSpace` | server/server.js:84 | Leading white space does not change what `parseInt` reads. |
| `JsBuiltins.UnsignedStart` | server/server.js:84 | When there is no leading white space and no sign, `parseInt` reads an unsigned number from the first character. |
| `JsBuiltins.ParseIntNoDigits` | server/server.js:84 | A path id that starts with a character that is not white space, a sign or a digit (for example `invalid-id`) parses to NaN. |
| `Auth.Login` | server/server.js:35-51 | Login succeeds if and only if the user name is `testuser` and the password is `testpass`. Success is status 200 with "Login successful" and user `{testuser, 1}`. Every other input, including missing or empty fields, gets the same 401 "Invalid credentials" reply. |
| `Todos.SeedWellFormed` | server/server.js:12-18 | The initial state has three records with ids 1, 2 and 3, all not completed, and the counter at 4. Its ids are well formed. |
| `Todos.TextMissing` | server/server.js:62 | Create treats the text as missing exactly when it is absent or made only of white space (the empty text included). |
| `Todos.Find` | server/server.js:84 | `findIndex` returns -1 exactly when no record matches the parsed id. Otherwise it returns the position of the first match. |
| `Todos.FindUnique` | server/server.js:84 | When ids are distinct, the position found is the one record that carries the id. |
| `Todos.Merge` | server/server.js:93-97 | Each supplied field replaces the stored value and each absent field keeps it. The id is kept. |
| `Todos.MergeIdempotent` | server/server.js:93-97 | Applying the same update twice equals applying it once. An update with no fields changes nothing. |
| `Todos.CreateRejectsIff` | server/server.js:62-67 | Create fails if and only if the text is missing or all white space. The failure is 400 "Todo text is required", and the list and counter are unchanged. |
| `Todos.CreateAppends` | server/server.js:69-76 | Create on present text returns `{old counter, trimmed text, false}` and appends it as the last record. Earlier records are unchanged and the counter grows by one. The stored text is non-blank and trimmed. Its id exceeds every stored id. |
| `Todos.AppendKeepsWellFormed` | server/server.js:70-75 | Appending a record whose id is the counter, and then bumping the counter, keeps ids positive, distinct and below the counter. |
| `Todos.CreateKeepsWellFormed` | server/server.js:69-75 | Create keeps ids positive, distinct and below the counter, and never lowers the counter. |
| `Todos.CreateTwiceDistinct` | server/server.js:70 | Two creates with the same text both succeed. They give two different records with strictly increasing ids, and the list grows by two. |
| `Todos.NotFoundIffNoMatch` | server/server.js:84-114 | Update and delete fail if and only if no record has the parsed id. The failure is 404 "Todo not found", and the list and counter are unchanged. |
| `Todos.UnknownNumberNotFound` | server/api-tests.js:323-336 | Update or delete with a numeric id that no record carries (for example 99999) is not found and changes nothing. |
| `Todos.ParseIntOfNumber` | server/api-tests.js:263 | A path id written as `${n}` parses back to `n`. |
| `Todos.NonNumericIdNotFound` | server/api-tests.js:338-351 | Update or delete with a non-numeric id (for example `invalid-id`) is not found and changes nothing. |
| `Todos.UpdateMergesInPlace` | server/server.js:93-100 | Update of a stored id returns the merged record. The record is stored at the same position with the same id. The length, the counter and all other records are unchanged. |
| `Todos.UpdateKeepsWellFormed` | server/server.js:93-99 | Update keeps ids well formed and leaves the counter unchanged. |
| `Todos.RemoveAtShifts` | server/server.js:116 | `splice(i, 1)` keeps the records before `i` and shifts every later record down by one. |
| `Todos.RemoveAtKeepsWellFormed` | server/server.js:116 | Removing one record keeps the remaining ids positive, distinct and below the counter. |
| `Todos.DeleteRemovesMatch` | server/server.js:107-121 | Delete of a stored id returns exactly that record. It removes only that record, keeps the order of the rest and leaves the counter unchanged. No remaining record has that id. |
| `Todos.DeleteKeepsWellFormed` | server/server.js:116 | Delete keeps ids well formed and leaves the counter unchanged. |
| `Todos.DeleteTwiceNotFound` | server/server.js:104-114 | A second delete of the same id is not found and changes nothing. |
| `Todos.UpdateCanStoreBlankText` | server/server.js:95 | Update stores a blank text as given, because it does not validate text the way create does. |
| `Todos.ApplyCounter` | server/server.js:70 | Only a successful create moves the counter, and only by one. The created record takes the counter's old value. |
| `Todos.RunKeepsWellFormed` | server/server.js:54-122 | Any sequence of requests keeps ids positive, distinct and below the counter. |
| `Todos.IncreasingAfter` | server/server.js:70 | Putting the counter's value in front of increasing ids above it keeps them increasing. |
| `Todos.IssuedIdsIncrease` | server/server.js:70 | Ids are never reused, even after deletes. Across any sequence of requests, the ids issued by creates strictly increase. They are at least the starting counter and below the final counter, and the counter never decreases. |
| `Todos.CreateOnSeed` | server/server.js:69-76 | On the seed, create with already-trimmed text appends `{4, text, false}` and sets the counter to 5. |
| `Todos.ParseIntOfFour` | server/server.js:84 | The path id `"4"` parses to 4. |
| `Todos.CompleteFourth` | server/server.js:93-100 | Updating id `"4"` with only `completed: true` marks that record completed and keeps its text. |
| `Todos.DeleteFourth` | server/server.js:107-121 | Deleting id `"4"` from the seed plus a fourth record returns that record and leaves exactly the seed records. |
| `Todos.EndToEnd` | server/server.js:59-122 | Starting from the seed, with any already-trimmed text such as "buy milk": create gives id 4. Marking it completed keeps its text. Deleting id 4 returns it and leaves the three seed records, with the counter at 5. |
| `Store.TodoStore.constructor` | server/server.js:12-18 | The new store holds the seed records and the counter 4, and is valid. |
| `Store.TodoStore.List` | server/server.js:54-56 | List returns the stored records in insertion order. |
| `Store.TodoStore.FindIndex` | server/server.js:84 | The scan returns the first position whose id equals the key, or -1 when there is none. This agrees with `Todos.Find`. |
| `Store.TodoStore.Create` | server/server.js:59-77 | The in-place create makes the transition `Todos.Create` defines and keeps the store valid. |
| `Store.TodoStore.Update` | server/server.js:80-101 | The in-place update makes the transition `Todos.Update` defines and keeps the store valid. |
| `Store.TodoStore.Delete` | server/server.js:104-122 | The in-place delete (splice) makes the transition `Todos.Delete` defines and keeps the store valid. |

## Left out

- Express and CORS wiring, JSON body parsing, the server start and the port taken from the environment (`server/server.js:1-9`, `124-135`). This is framework and network plumbing.
- The `/` and `/api/test` endpoints. They return constants, and `/api/test` adds a wall-clock timestamp.
- Responses that Express produces by itself: 400 for malformed JSON, and 404 for unknown routes or methods.
- HTTP envelopes of successful replies. The model does not include the 201 status of create or the `{success, message: "Todo deleted successfully", deletedTodo}` wrapper of delete. The model returns the created, updated or deleted record. Failures do carry their status and their `{success: false, message}` body.
- JavaScript values outside the intended types:
  - A request field is a string or a boolean, or absent.
  - A non-string truthy `text` on create would throw in `.trim()`.
  - `text: null` on update would be stored as `null`.
  - A non-boolean `completed` would be stored as it is.
  - A login field that is not a string fails the `===` test, just like a missing one, so it is modelled as `None`.
- JsBuiltins.ParseInt: returns the exact integer. JavaScript rounds digit strings above 2^53 to a double.
- JsBuiltins.ParseInt: `-0` is modelled as 0. `-0 === 0` holds in JavaScript, so lookups are unaffected.
- Strings are sequences of Unicode scalar values, not UTF-16 code units. Every character that trim and `parseInt` treat specially is in the Basic Multilingual Plane.
- Store.TodoStore.Create: `nextId` is an unbounded integer. The JavaScript counter is a double and would lose precision past 2^53.
- The client (`client/src/App.js`) and the Cypress and Jest suites. They are a view over the same four requests and test harnesses. The suites serve only as evidence for the properties above.

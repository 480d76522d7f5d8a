# BookTrack "Add Book" form, modelled in Dafny

This project models the client side of BookTrack's add-book feature, the
browser script `public/js/Add-Book.js`. When the form is submitted, the script:

1. reads six inputs (title, author, ISBN, genre, available copies, image file),
   trimming the first three;
2. refuses the submission with "All fields are required. Please fill in the
   required fields." if any of them is empty or no file is chosen;
3. refuses it with "ISBN must be a 13-digit number." unless the trimmed ISBN
   matches `/^\d{13}$/`;
4. sends a multipart `FormData` with the fields `title`, `author`, `isbn`,
   `genre`, `availableCopies` and `image` to `POST /addBook`;
5. turns the answer into one alert: success for a 2xx status (after which the
   form is reset and closed), a message chosen by the `error` code of a
   failed response (`title_exists`, `isbn_exists`, `isbn_invalid`, anything
   else), or a network-error message when no usable response arrives.

`openForm` and `closeForm` show or hide the form container and the overlay
behind it.

Modules:

- `JsText` (`js_text.dfy`): the whitespace set of `String.prototype.trim` and
  `Trim` itself, with its characterisation (the unique whitespace-free core),
  idempotence and emptiness; the pattern `/^\d{13}$/` and its equivalence with
  "exactly thirteen ASCII digits".
- `AddBook` (`add_book.dfy`): the inputs (`Fields`), the validation chain
  (`Validate`), the payload (`BuildPayload`, `Get` as `FormData.get`), the
  response (`Response`, `Body`), the messages (`Message`, `Text`) and the
  mapping from a response to a message, with lemmas for each property of the
  chain.
- `AddBookForm` (`add_book_form.dfy`): class `FormState`, the page state the
  script changes in place (the inputs and the display of container and
  overlay), with `Open`, `Close`, `Reset` and `Submit`. `Submit` follows the
  listener step by step, and its contract ties it to `AddBook.SubmitMessage`
  and `AddBook.SentPayload`.

Browser I/O is replaced by values. The DOM inputs are the `fields` of
`FormState`. The answer of `fetch` is a `Response` parameter of `Submit`,
consulted only when the request is sent. The alert is the returned `Message`,
and the request body is the returned `Payload`.

Where the code and the repository's end-to-end tests
(`cypress/e2e/add_book.cy.js`) disagree, the model follows the code:

- The script has no title-length limit (100), no author-length limit (150)
  and no 16 MB image check. The tests expect all three.
- On a local ISBN failure, and on the server's `isbn_invalid` code, the script
  shows "ISBN must be a 13-digit number.". The tests expect "Please enter a
  valid ISBN number.".
- The tests expect a `confirm` dialog whose cancellation clears and closes
  the form, and a click on the overlay that closes the form so that it
  reopens empty. `Add-Book.js` calls no `confirm` and installs no overlay
  listener. Those paths live outside this file and are not part of this
  model. Within it, `closeForm` only hides the container and overlay and does
  not clear the inputs (`FormState.Close` leaves `fields` unchanged). Only a
  successful submission resets them (`bookForm.reset()`) before closing.

## Model

| member | source | states |
|---|---|---|
| JsText.TrimStartSpec | public/js/Add-Book.js:6-8 | the leading part `trim` removes is all whitespace, the rest is a suffix of the input, and that suffix does not start with whitespace |
| JsText.TrimEndSpec | public/js/Add-Book.js:6-8 | the trailing part `trim` removes is all whitespace, the rest is a prefix of the input, and that prefix does not end with whitespace |
| JsText.TrimCharacterised | public/js/Add-Book.js:6-8 | whenever the input is whitespace + a core that neither starts nor ends with whitespace + whitespace, `trim` returns exactly that core |
| JsText.TrimIdempotent | public/js/Add-Book.js:6-8 | trimming an already trimmed value changes nothing |
| JsText.TrimEmptyIff | public/js/Add-Book.js:6-8 | a trimmed value is empty iff the raw value is entirely whitespace (or empty) |
| JsText.DigitsOnlyIff | public/js/Add-Book.js:20 | the recursive `\d` matcher accepts exactly the strings whose every character is an ASCII digit |
| JsText.IsbnPatternIff | public/js/Add-Book.js:20 | `/^\d{13}$/` accepts a string iff it has length 13 and every character is an ASCII digit |
| JsText.IsJsWhitespace | public/js/Add-Book.js:6-8 | the characters `trim` removes: TAB, LF, VT, FF, CR, space, and the non-ASCII WhiteSpace and LineTerminator characters of ECMAScript; its use is pinned by the Trim lemmas above |
| JsText.TrimStart | public/js/Add-Book.js:6-8 | the leading-whitespace half of `trim`; characterised by `TrimStartSpec` |
| JsText.TrimEnd | public/js/Add-Book.js:6-8 | the trailing-whitespace half of `trim`; characterised by `TrimEndSpec` |
| JsText.Trim | public/js/Add-Book.js:6-8 | `String.prototype.trim` as applied to title, author and ISBN; characterised by `TrimCharacterised`, `TrimIdempotent` and `TrimEmptyIff` |
| JsText.IsbnPattern | public/js/Add-Book.js:20 | the test `/^\d{13}$/.test(isbn)`; characterised by `IsbnPatternIff` |
| AddBook.AllPresent | public/js/Add-Book.js:14 | the negation of the `!title \|\| … \|\| !image` guard on the read values; characterised by `RequiredMissingIff` |
| AddBook.Validate | public/js/Add-Book.js:6-23 | the validation chain in the script's order: required fields, then ISBN pattern, then the payload; pinned by `RequiredFieldsFirst`, `RequiredMissingIff`, `IsbnCheckIff` and `PayloadFields` |
| AddBook.BuildPayload | public/js/Add-Book.js:27-33 | the six `form.append` calls in order; pinned by `BuildPayloadLookup` |
| AddBook.Get | public/js/Add-Book.js:27-33 | how the receiver of the `FormData` reads a field: the first entry appended under that name; pinned by `GetFirst` |
| AddBook.GetFirst | public/js/Add-Book.js:27-33 | `Get` returns the value of the first entry carrying the name, whatever follows it |
| AddBook.WireName | public/js/Add-Book.js:28-33 | the six literal `form.append` keys `title`, `author`, `isbn`, `genre`, `availableCopies`, `image`; pinned by `PayloadNamesDistinct` |
| AddBook.IsOk | public/js/Add-Book.js:41 | `response.ok`, a status from 200 to 299; pinned by `SuccessIff` and `SubmitSuccessIff` |
| AddBook.Text | public/js/Add-Book.js:15-60 | the exact `alert` strings of lines 15, 21, 42, 49, 51, 53, 55 and 60; pinned by `ErrorCodeMapping`, `TransportFailureMessage` and `TextsDistinct` |
| AddBook.TextsDistinct | public/js/Add-Book.js:15-60 | two messages show the same text iff they are the same message, so only the two sources of the ISBN message look alike |
| AddBook.ErrorCodeMessage | public/js/Add-Book.js:48-56 | the `===` comparisons of `errorData.error` with the three known codes and the fallback; pinned by `ErrorCodeMapping` |
| AddBook.ResponseMessage | public/js/Add-Book.js:35-61 | the `try`/`catch` around `fetch`: 2xx success, coded failure, or the catch's message; pinned by `SuccessIff`, `ErrorCodeMapping` and `TransportFailureMessage` |
| AddBook.SubmitMessage | public/js/Add-Book.js:14-61 | the one message of a submission attempt; pinned by `RequiredFieldsFirst`, `IsbnCheckIff`, `IsbnMessageSources`, `UnsentIgnoresResponse` and `SubmitSuccessIff` |
| AddBook.SentPayload | public/js/Add-Book.js:14-33 | a request body exists exactly when validation passes (both directions) |
| AddBook.RequiredFieldsFirst | public/js/Add-Book.js:6-17 | a blank title, author or ISBN, an empty genre or copies, or no image gives the required-fields message and sends nothing, whatever the ISBN and the server's answer |
| AddBook.RequiredMissingIff | public/js/Add-Book.js:6-17 | the required-field guard fires exactly when one of those six conditions holds (both directions) |
| AddBook.UntrimmedFieldsAcceptWhitespace | public/js/Add-Book.js:9-14 | genre and copies are not trimmed, so a single space there still passes, while a single-space title is rejected as missing |
| AddBook.IsbnCheckIff | public/js/Add-Book.js:19-23 | with all fields present, the submission goes through iff the trimmed ISBN is 13 ASCII digits; otherwise the ISBN message is shown and nothing is sent |
| AddBook.IsbnSurroundingWhitespaceIgnored | public/js/Add-Book.js:8-30 | an ISBN of 13 digits with any whitespace (of any kind and length, on either or both sides) around it is accepted, and only the bare digits are sent |
| AddBook.BuildPayloadLookup | public/js/Add-Book.js:27-33 | each of the six field names looks up the value appended under it |
| AddBook.PayloadFields | public/js/Add-Book.js:27-33 | a sent payload has exactly six entries in the order title, author, isbn, genre, availableCopies, image; title, author and ISBN are trimmed, genre and copies are as read, and the file is the one selected |
| AddBook.SentValuesNormalised | public/js/Add-Book.js:6-33 | the ISBN sent is always 13 ASCII digits, and the title and author sent are non-empty and already trimmed |
| AddBook.PayloadNamesDistinct | public/js/Add-Book.js:27-33 | the six field names of a sent payload are pairwise distinct on the wire |
| AddBook.SuccessIff | public/js/Add-Book.js:41-44 | the success message is shown exactly for a received response with status 200-299, whatever its body |
| AddBook.ErrorCodeMapping | public/js/Add-Book.js:45-56 | a failed response shows the title-exists, ISBN-exists or ISBN-format text for `title_exists`, `isbn_exists` or `isbn_invalid`, and "Failed to add book." for every other code or none |
| AddBook.TransportFailureMessage | public/js/Add-Book.js:35-61 | no response, or a failed response whose body is not JSON or is JSON `null`, shows "An error occurred while adding the book." |
| AddBook.IsbnMessageSources | public/js/Add-Book.js:20-53 | the ISBN-format message appears iff the local ISBN check failed or the server answered `isbn_invalid` to a sent request |
| AddBook.UnsentIgnoresResponse | public/js/Add-Book.js:14-23 | an attempt refused locally shows one of the two local messages, the same one whatever the server would have answered |
| AddBook.SubmitSuccessIff | public/js/Add-Book.js:14-44 | an attempt shows the success message iff a request was sent and answered with a 2xx status |
| AddBookForm.FormState.Submit | public/js/Add-Book.js:2-62 | the listener shows exactly the message `SubmitMessage` gives for the inputs and the response, and sends exactly `SentPayload`; only success resets the inputs and hides container and overlay, every other outcome leaves both unchanged |
| AddBookForm.FormState.Open | public/js/Add-Book.js:66-69 | container and overlay are both shown; the inputs are untouched |
| AddBookForm.FormState.Close | public/js/Add-Book.js:72-75 | container and overlay are both hidden; the inputs are not cleared |
| AddBookForm.FormState.Reset | public/js/Add-Book.js:43 | every input returns to its default value |

## Left out

- DOM access, `alert`, `fetch`, `FormData` and `console.error` are browser I/O. Inputs, response, message and payload are values instead.
- The `await` between sending and the answer is not modelled. `Submit` treats the round trip as one step, so edits the user makes while the request is pending are not modelled.
- The server endpoint (`index.js`, `models/book.js`) is not part of this model. Uniqueness of title and ISBN, the 201/400/500 statuses it sends and persistence are therefore not modelled. `Response` admits any status and body.
- Title and author length limits, the 16 MB image limit and the "No Image Selected" preview are not in `Add-Book.js`. They appear only in the end-to-end tests, so they are not modelled.
- The form's HTML is not part of this model. `FormState` takes the default values `reset()` restores as a constructor argument (the file input always resets to no file). It assumes both container and overlay start hidden.
- The image is identified by name and size only. Its content and MIME type play no part in the script's decisions.
- The response body is reduced to what the script can observe. `JsonValue(None)` covers every parsed value without a string `error` property: a missing property, a non-string one, or a value that is not an object. Each of these falls back to "Failed to add book.".
- The whitespace set of `trim` is the one ECMAScript defines for current Unicode (its WhiteSpace and LineTerminator productions). Later Unicode additions to the space separators are not tracked.
- `Get` models `FormData.get` for a key that was appended; `getAll` and repeated keys are not used by the script.
- The test harness (`cypress.config.js`, `test/add-bookUtil.js`) starts and stops processes and talks HTTP, so it is not modelled.

/** The decision procedure of the add-book form's submit handler: read the six
    inputs, check that all are present, check the ISBN format, build the
    multipart payload, and turn the server's answer into the one message the
    user is shown. Browser I/O (the DOM, `alert`, `fetch`) is replaced by
    values: the field values come in, the response comes in, and a message
    and an optional payload come out. */
module AddBook {
  import opened JsText

  datatype Option<T> = None | Some(value: T)

  /** A file chosen in the image input; only its identity matters here. */
  datatype ImageFile = ImageFile(name: string, size: nat)

  /** The form's inputs as the DOM holds them, before trimming. `image` is
      `files[0]`, absent when no file is selected. */
  datatype Fields = Fields(
    title: string,
    author: string,
    isbn: string,
    genre: string,
    copies: string,
    image: Option<ImageFile>)

  /** One value of a multipart `FormData`: a text field or a file. */
  datatype Part = TextPart(text: string) | FilePart(file: ImageFile)

  /** The names under which the handler appends its six values. */
  datatype FieldName = Title | Author | Isbn | Genre | AvailableCopies | Image

  /** The name as it appears in the multipart request. */
  function WireName(n: FieldName): string {
    match n
    case Title => "title"
    case Author => "author"
    case Isbn => "isbn"
    case Genre => "genre"
    case AvailableCopies => "availableCopies"
    case Image => "image"
  }

  /** The entries of a `FormData`, in the order they were appended. */
  type Payload = seq<(FieldName, Part)>

  /** The order of the handler's `form.append` calls. */
  const AppendOrder: seq<FieldName> := [Title, Author, Isbn, Genre, AvailableCopies, Image]

  /** What `FormData.get(name)` returns: the first entry with that name. */
  function Get(p: Payload, key: FieldName): Option<Part> {
    if p == [] then None
    else if p[0].0 == key then Some(p[0].1)
    else Get(p[1..], key)
  }

  /** The outcome of the checks the handler runs before sending anything. */
  datatype Validation = RequiredMissing | BadIsbn | Valid(payload: Payload)

  /** The required-field guard: trimmed title, author and ISBN, and the
      untrimmed genre and copies, are non-empty strings, and a file is
      selected. */
  predicate AllPresent(f: Fields) {
    && Trim(f.title) != []
    && Trim(f.author) != []
    && Trim(f.isbn) != []
    && f.genre != []
    && f.copies != []
    && f.image.Some?
  }

  /** The six `form.append` calls, in the handler's order. */
  function BuildPayload(title: string, author: string, isbn: string, genre: string,
                        copies: string, image: ImageFile): Payload
  {
    [(Title, TextPart(title)), (Author, TextPart(author)), (Isbn, TextPart(isbn)),
     (Genre, TextPart(genre)), (AvailableCopies, TextPart(copies)),
     (Image, FilePart(image))]
  }

  /** The validation chain: the required-field guard first, then the ISBN
      pattern on the trimmed ISBN; only then is a payload built. */
  function Validate(f: Fields): Validation {
    if !AllPresent(f) then RequiredMissing
    else if !IsbnPattern(Trim(f.isbn)) then BadIsbn
    else Valid(BuildPayload(Trim(f.title), Trim(f.author), Trim(f.isbn),
                            f.genre, f.copies, f.image.value))
  }

  /** The body of a non-ok response, as `response.json()` sees it. `JsonValue`
      is any parsed value that is not `null`; `error` is its `error` property
      when that is a string, and `None` otherwise (absent, not a string, or
      the value is not an object). */
  datatype Body = JsonValue(error: Option<string>) | JsonNull | NotJson

  /** What `fetch` yields: a response with a status and a body, or a rejected
      promise (no response at all). */
  datatype Response = Received(status: int, body: Body) | NoResponse

  /** `Response.ok`. */
  predicate IsOk(status: int) {
    200 <= status <= 299
  }

  /** The messages the handler can show; `IsbnFormat` serves both the local
      ISBN check and the server's `isbn_invalid` code. */
  datatype Message =
    | AllFieldsRequired
    | IsbnFormat
    | BookAdded
    | TitleExists
    | IsbnExists
    | AddFailed
    | NetworkError

  /** The exact text passed to `alert`. */
  function Text(m: Message): string {
    match m
    case AllFieldsRequired => "All fields are required. Please fill in the required fields."
    case IsbnFormat => "ISBN must be a 13-digit number."
    case BookAdded => "Book added successfully!"
    case TitleExists => "The title already exists. Please use a unique title."
    case IsbnExists => "The ISBN already exists. Please use a unique ISBN."
    case AddFailed => "Failed to add book."
    case NetworkError => "An error occurred while adding the book."
  }

  /** The `error` code of a non-ok response, compared with `===` against the
      three codes the client knows; anything else falls back. */
  function ErrorCodeMessage(code: Option<string>): Message {
    if code == Some("title_exists") then TitleExists
    else if code == Some("isbn_exists") then IsbnExists
    else if code == Some("isbn_invalid") then IsbnFormat
    else AddFailed
  }

  /** The message for the answer to a request that was sent. A body that is
      not JSON makes `response.json()` reject, and a JSON `null` makes
      `errorData.error` throw; both land in the `catch` like a failed fetch. */
  function ResponseMessage(r: Response): Message {
    match r
    case NoResponse => NetworkError
    case Received(status, body) =>
      if IsOk(status) then BookAdded
      else match body
        case JsonValue(code) => ErrorCodeMessage(code)
        case JsonNull => NetworkError
        case NotJson => NetworkError
  }

  /** The message a submission attempt shows; `r` is only consulted when the
      request is actually sent. */
  function SubmitMessage(f: Fields, r: Response): Message {
    match Validate(f)
    case RequiredMissing => AllFieldsRequired
    case BadIsbn => IsbnFormat
    case Valid(_) => ResponseMessage(r)
  }

  /** The payload a submission attempt sends, if any. */
  function SentPayload(f: Fields): (p: Option<Payload>)
    ensures p.Some? <==> Validate(f).Valid?
  {
    if Validate(f).Valid? then Some(Validate(f).payload) else None
  }

  /** The value the request carries under `key`, if a request is sent: a
      lookup in `SentPayload`, the payload `FormState.Submit` returns. */
  function Sent(f: Fields, key: FieldName): Option<Part> {
    match SentPayload(f)
    case Some(p) => Get(p, key)
    case None => None
  }

  /** The text the request carries under `key`; empty when there is none. */
  function SentText(f: Fields, key: FieldName): string {
    match Sent(f, key)
    case Some(TextPart(t)) => t
    case _ => ""
  }

  // ---------------------------------------------------------------------
  // The validation chain

  /** A field that is empty, or (for title, author and ISBN) made only of
      whitespace, or a missing image, yields the required-fields message and
      sends nothing, whatever the ISBN looks like and whatever the server
      would have answered. */
  lemma RequiredFieldsFirst(f: Fields, r: Response)
    requires || AllWhitespace(f.title) || AllWhitespace(f.author) || AllWhitespace(f.isbn)
             || f.genre == [] || f.copies == [] || f.image.None?
    ensures Validate(f) == RequiredMissing
    ensures SubmitMessage(f, r) == AllFieldsRequired
    ensures SentPayload(f) == None
  {
    TrimEmptyIff(f.title);
    TrimEmptyIff(f.author);
    TrimEmptyIff(f.isbn);
  }

  /** The required-field guard rejects exactly the inputs with a blank title,
      author or ISBN, an empty genre or copies, or no image. */
  lemma RequiredMissingIff(f: Fields)
    ensures Validate(f) == RequiredMissing <==>
            || AllWhitespace(f.title) || AllWhitespace(f.author) || AllWhitespace(f.isbn)
            || f.genre == [] || f.copies == [] || f.image.None?
  {
    TrimEmptyIff(f.title);
    TrimEmptyIff(f.author);
    TrimEmptyIff(f.isbn);
  }

  /** Genre and copies are not trimmed: replacing either of them in an
      accepted submission by a single space is still accepted, while the same
      value for the title is rejected as missing. */
  lemma UntrimmedFieldsAcceptWhitespace(f: Fields)
    requires Validate(f).Valid?
    ensures Validate(f.(genre := " ")).Valid?
    ensures Validate(f.(copies := " ")).Valid?
    ensures Validate(f.(title := " ")) == RequiredMissing
  {
    TrimEmptyIff(" ");
  }

  /** Once every field is present, the ISBN check passes iff the trimmed ISBN
      is exactly thirteen ASCII digits; otherwise the ISBN message is shown
      and nothing is sent. */
  lemma IsbnCheckIff(f: Fields, r: Response)
    requires AllPresent(f)
    ensures Validate(f).Valid? <==>
            |Trim(f.isbn)| == 13 && forall k :: 0 <= k < 13 ==> IsAsciiDigit(Trim(f.isbn)[k])
    ensures !Validate(f).Valid? ==>
            Validate(f) == BadIsbn && SubmitMessage(f, r) == IsbnFormat && SentPayload(f) == None
  {
    IsbnPatternIff(Trim(f.isbn));
  }

  /** Whitespace around a valid ISBN is forgiven, whatever whitespace it
      is and on whichever side: it is trimmed before the check and the bare
      digits are what is sent. */
  lemma IsbnSurroundingWhitespaceIgnored(f: Fields, pre: string, digits: string, post: string)
    requires AllPresent(f)
    requires AllWhitespace(pre) && AllWhitespace(post)
    requires |digits| == 13 && forall k :: 0 <= k < 13 ==> IsAsciiDigit(digits[k])
    requires f.isbn == pre + digits + post
    ensures Validate(f).Valid? && Sent(f, Isbn) == Some(TextPart(digits))
  {
    var s := f.isbn;
    var n := |pre|;
    assert s[n..n + 13] == digits;
    assert forall k :: 0 <= k < n ==> s[k] == pre[k];
    assert forall k :: n + 13 <= k < |s| ==> s[k] == post[k - n - 13];
    TrimCharacterised(s, n, n + 13);
    IsbnPatternIff(digits);
    PayloadFields(f);
  }

  // ---------------------------------------------------------------------
  // The payload

  /** `Get` finds the first entry with the key. */
  lemma {:induction false} GetFirst(p: Payload, key: FieldName, k: nat)
    requires k < |p| && p[k].0 == key
    requires forall j :: 0 <= j < k ==> p[j].0 != key
    ensures Get(p, key) == Some(p[k].1)
  {
    if k > 0 {
      GetFirst(p[1..], key, k - 1);
    }
  }

  /** Each of the six names looks up the value appended under it. */
  lemma BuildPayloadLookup(title: string, author: string, isbn: string, genre: string,
                           copies: string, image: ImageFile)
    ensures var p := BuildPayload(title, author, isbn, genre, copies, image);
      && Get(p, Title) == Some(TextPart(title))
      && Get(p, Author) == Some(TextPart(author))
      && Get(p, Isbn) == Some(TextPart(isbn))
      && Get(p, Genre) == Some(TextPart(genre))
      && Get(p, AvailableCopies) == Some(TextPart(copies))
      && Get(p, Image) == Some(FilePart(image))
  {
    var p := BuildPayload(title, author, isbn, genre, copies, image);
    GetFirst(p, Title, 0);
    GetFirst(p, Author, 1);
    GetFirst(p, Isbn, 2);
    GetFirst(p, Genre, 3);
    GetFirst(p, AvailableCopies, 4);
    GetFirst(p, Image, 5);
  }

  /** A payload that passes validation has exactly the six fields the server
      expects, in the handler's order, and under each the value read from the
      form: title, author and ISBN trimmed, genre and copies as read, and the
      selected file. */
  lemma PayloadFields(f: Fields)
    requires Validate(f).Valid?
    ensures |Validate(f).payload| == 6
    ensures forall k :: 0 <= k < 6 ==> Validate(f).payload[k].0 == AppendOrder[k]
    ensures Sent(f, Title) == Some(TextPart(Trim(f.title)))
    ensures Sent(f, Author) == Some(TextPart(Trim(f.author)))
    ensures Sent(f, Isbn) == Some(TextPart(Trim(f.isbn)))
    ensures Sent(f, Genre) == Some(TextPart(f.genre))
    ensures Sent(f, AvailableCopies) == Some(TextPart(f.copies))
    ensures Sent(f, Image) == Some(FilePart(f.image.value))
  {
    BuildPayloadLookup(Trim(f.title), Trim(f.author), Trim(f.isbn), f.genre, f.copies,
                       f.image.value);
  }

  /** What is sent is normalised: the ISBN is exactly thirteen ASCII digits
      (so it satisfies the same pattern the server re-checks), and title and
      author are non-empty and already trimmed. */
  lemma SentValuesNormalised(f: Fields)
    requires Validate(f).Valid?
    ensures |SentText(f, Isbn)| == 13
    ensures forall k :: 0 <= k < 13 ==> IsAsciiDigit(SentText(f, Isbn)[k])
    ensures SentText(f, Title) != [] && Trim(SentText(f, Title)) == SentText(f, Title)
    ensures SentText(f, Author) != [] && Trim(SentText(f, Author)) == SentText(f, Author)
  {
    PayloadFields(f);
    IsbnPatternIff(Trim(f.isbn));
    TrimIdempotent(f.title);
    TrimIdempotent(f.author);
  }

  /** The six names are distinct on the wire, so the server reads each field
      from exactly one entry of a sent payload. */
  lemma PayloadNamesDistinct(f: Fields)
    requires Validate(f).Valid?
    ensures var p := Validate(f).payload;
      forall a, b :: 0 <= a < b < |p| ==> WireName(p[a].0) != WireName(p[b].0)
  {
  }

  // ---------------------------------------------------------------------
  // Mapping the server's answer to a message

  /** Each message has its own text, so the user can tell every outcome
      apart except the two sources of `IsbnFormat`. */
  lemma TextsDistinct(m1: Message, m2: Message)
    ensures Text(m1) == Text(m2) <==> m1 == m2
  {
    // The seven texts already differ in length.
    if Text(m1) == Text(m2) {
      assert |Text(m1)| == |Text(m2)|;
    }
  }

  /** The success message is shown exactly for a 2xx response, whatever its
      body. */
  lemma SuccessIff(r: Response)
    ensures ResponseMessage(r) == BookAdded <==> r.Received? && IsOk(r.status)
  {
  }

  /** A non-ok response with a JSON error code shows the message for that
      code: the three known codes map to their own messages and every other
      code, or none at all, to "Failed to add book.". */
  lemma ErrorCodeMapping(status: int, code: Option<string>)
    requires !IsOk(status)
    ensures var m := ResponseMessage(Received(status, JsonValue(code)));
      && (code == Some("title_exists") ==> Text(m) == "The title already exists. Please use a unique title.")
      && (code == Some("isbn_exists") ==> Text(m) == "The ISBN already exists. Please use a unique ISBN.")
      && (code == Some("isbn_invalid") ==> Text(m) == "ISBN must be a 13-digit number.")
      && (code !in {Some("title_exists"), Some("isbn_exists"), Some("isbn_invalid")} ==>
            Text(m) == "Failed to add book.")
  {
  }

  /** When no response arrives, or the body of a failed response cannot be
      read as a JSON value, the handler's catch shows the network message. */
  lemma TransportFailureMessage(r: Response)
    requires r.NoResponse? || (!IsOk(r.status) && !r.body.JsonValue?)
    ensures Text(ResponseMessage(r)) == "An error occurred while adding the book."
  {
  }

  /** The server's `isbn_invalid` code and the local ISBN check show the same
      text, so the user cannot tell which side rejected the ISBN; and that
      message arises only from those two places. */
  lemma IsbnMessageSources(f: Fields, r: Response)
    ensures SubmitMessage(f, r) == IsbnFormat <==>
            || Validate(f) == BadIsbn
            || (Validate(f).Valid? && r.Received? && !IsOk(r.status)
                && r.body == JsonValue(Some("isbn_invalid")))
  {
    var v := Validate(f);
    if v.Valid? {
      assert SubmitMessage(f, r) == ResponseMessage(r);
    }
  }

  /** A submission that is not sent shows the same message whatever the
      server would have answered. */
  lemma UnsentIgnoresResponse(f: Fields, r1: Response, r2: Response)
    requires !Validate(f).Valid?
    ensures SubmitMessage(f, r1) == SubmitMessage(f, r2)
    ensures SubmitMessage(f, r1) in {AllFieldsRequired, IsbnFormat}
  {
  }

  /** The success message is shown exactly when the request was sent and
      answered with a 2xx status. */
  lemma SubmitSuccessIff(f: Fields, r: Response)
    ensures SubmitMessage(f, r) == BookAdded <==>
            SentPayload(f).Some? && r.Received? && IsOk(r.status)
  {
  }
}

/** The add-book form as the page holds it: the six inputs, and the display
    state of the form container and of the overlay behind it. The submit
    handler, `openForm` and `closeForm` change this state in place. */
module AddBookForm {
  import opened JsText
  import opened AddBook

  class FormState {
    /** The values `bookForm.reset()` restores; a file input always resets
        to no file. */
    const defaults: Fields
    /** What the inputs currently hold; the user edits it between calls. */
    var fields: Fields
    /** `formContainer.style.display == 'block'`. */
    var containerShown: bool
    /** `overlay.style.display == 'block'`. */
    var overlayShown: bool

    /** The container and the overlay are shown or hidden together. */
    ghost predicate Valid()
      reads this
    {
      containerShown == overlayShown && defaults.image.None?
    }

    /** The page as loaded: inputs at their defaults, form hidden. */
    constructor (initial: Fields)
      ensures defaults == initial.(image := None) && fields == defaults
      ensures !containerShown && !overlayShown
      ensures Valid()
    {
      defaults := initial.(image := None);
      fields := initial.(image := None);
      containerShown, overlayShown := false, false;
    }

    /** `openForm`: show the container and the overlay; the inputs keep
        whatever they held. */
    method Open()
      requires Valid()
      modifies this`containerShown, this`overlayShown
      ensures Valid()
      ensures containerShown && overlayShown
    {
      containerShown := true;
      overlayShown := true;
    }

    /** `closeForm`: hide the container and the overlay; the inputs are not
        cleared. */
    method Close()
      requires Valid()
      modifies this`containerShown, this`overlayShown
      ensures Valid()
      ensures !containerShown && !overlayShown
    {
      containerShown := false;
      overlayShown := false;
    }

    /** `bookForm.reset()`: every input back to its default. */
    method Reset()
      requires Valid()
      modifies this`fields
      ensures Valid()
      ensures fields == defaults
    {
      fields := defaults;
    }

    /** The submit listener, with the answer of `fetch` given as `response`
        (consulted only if the request is sent). Exactly one message is
        shown; the request carries `sent`; only a 2xx answer resets the
        inputs and closes the form, and every other outcome leaves inputs
        and visibility as they were. */
    method Submit(response: Response) returns (message: Message, sent: Option<Payload>)
      requires Valid()
      modifies this
      ensures Valid()
      ensures message == SubmitMessage(old(fields), response)
      ensures sent == SentPayload(old(fields))
      ensures message == BookAdded ==>
                fields == defaults && fields.image.None? && !containerShown && !overlayShown
      ensures message != BookAdded ==>
                && fields == old(fields)
                && containerShown == old(containerShown)
                && overlayShown == old(overlayShown)
    {
      var title := Trim(fields.title);
      var author := Trim(fields.author);
      var isbn := Trim(fields.isbn);
      var genre := fields.genre;
      var copies := fields.copies;
      var image := fields.image;

      if title == [] || author == [] || isbn == [] || genre == [] || copies == [] || image.None? {
        return AllFieldsRequired, None;
      }
      if !IsbnPattern(isbn) {
        return IsbnFormat, None;
      }

      sent := Some(BuildPayload(title, author, isbn, genre, copies, image.value));
      match response {
        case NoResponse =>
          message := NetworkError;
        case Received(status, body) =>
          if IsOk(status) {
            message := BookAdded;
            Reset();
            Close();
          } else {
            match body {
              case JsonValue(code) => message := ErrorCodeMessage(code);
              case JsonNull => message := NetworkError;
              case NotJson => message := NetworkError;
            }
          }
      }
    }
  }
}

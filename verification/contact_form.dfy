/**
 * The contact form of `ContactSection`: a record of five strings edited one
 * field at a time, posted on submit, cleared when the post succeeds and kept
 * when it fails.
 */
module ContactForm {
  import opened Wrappers
  import opened ContactRoute

  /** The form's record (`ContactFormData`). */
  datatype FormData = FormData(
    firstName: string,
    lastName: string,
    email: string,
    subject: string,
    message: string)

  /** The form before anything is typed, and after a successful submission. */
  const EmptyForm := FormData("", "", "", "", "")

  /** The value of one field. */
  function Get(d: FormData, f: Key): string {
    match f
    case FirstName => d.firstName
    case LastName => d.lastName
    case Email => d.email
    case Subject => d.subject
    case Message => d.message
  }

  /** `{ ...prev, [field]: value }`: field `f` becomes `v`, the other four keep their values. */
  function Set(d: FormData, f: Key, v: string): (r: FormData)
    ensures Get(r, f) == v
    ensures forall g :: g != f ==> Get(r, g) == Get(d, g)
  {
    match f
    case FirstName => d.(firstName := v)
    case LastName => d.(lastName := v)
    case Email => d.(email := v)
    case Subject => d.(subject := v)
    case Message => d.(message := v)
  }

  /** Two records that agree on every field are the same record. */
  lemma FieldsDetermineForm(d: FormData, e: FormData)
    requires forall f :: Get(d, f) == Get(e, f)
    ensures d == e
  {
    assert Get(d, FirstName) == Get(e, FirstName) && Get(d, LastName) == Get(e, LastName);
    assert Get(d, Email) == Get(e, Email) && Get(d, Subject) == Get(e, Subject);
    assert Get(d, Message) == Get(e, Message);
  }

  /** The state after a series of keystrokes, each `(field, new value)`. */
  function ApplyEdits(d: FormData, edits: seq<(Key, string)>): FormData
    decreases |edits|
  {
    if edits == [] then d else ApplyEdits(Set(d, edits[0].0, edits[0].1), edits[1..])
  }

  /** The last value typed into `f`, or `current` when `f` was never edited. */
  function LastTyped(edits: seq<(Key, string)>, f: Key, current: string): string
    decreases |edits|
  {
    if edits == [] then current
    else LastTyped(edits[1..], f, if edits[0].0 == f then edits[0].1 else current)
  }

  /** After any series of keystrokes, each field holds the last value typed into it. */
  lemma {:induction false} EditsLastWins(d: FormData, edits: seq<(Key, string)>, f: Key)
    ensures Get(ApplyEdits(d, edits), f) == LastTyped(edits, f, Get(d, f))
    decreases |edits|
  {
    if edits != [] {
      EditsLastWins(Set(d, edits[0].0, edits[0].1), edits[1..], f);
    }
  }

  /** After any series of keystrokes the record is exactly the last value typed into each field. */
  lemma EditsReplay(d: FormData, edits: seq<(Key, string)>)
    ensures ApplyEdits(d, edits) == FormData(
      LastTyped(edits, FirstName, d.firstName), LastTyped(edits, LastName, d.lastName),
      LastTyped(edits, Email, d.email), LastTyped(edits, Subject, d.subject),
      LastTyped(edits, Message, d.message))
  {
    var e := FormData(
      LastTyped(edits, FirstName, d.firstName), LastTyped(edits, LastName, d.lastName),
      LastTyped(edits, Email, d.email), LastTyped(edits, Subject, d.subject),
      LastTyped(edits, Message, d.message));
    forall f ensures Get(ApplyEdits(d, edits), f) == Get(e, f) {
      EditsLastWins(d, edits, f);
    }
    FieldsDetermineForm(ApplyEdits(d, edits), e);
  }

  /** A toast notification. */
  datatype Toast = Toast(title: string, description: string, destructive: bool)

  const SuccessToast := Toast("Success!", "Your message has been sent successfully.", false)
  const ErrorToast := Toast("Error!", "Failed to send message. Please try again.", true)

  /** The form component: its one piece of state is the `formData` record. */
  class ContactSection {
    var formData: FormData

    constructor ()
      ensures formData == EmptyForm
    {
      formData := EmptyForm;
    }

    /** `handleInputChange`. */
    method HandleInputChange(field: Key, value: string)
      modifies this
      ensures formData == Set(old(formData), field, value)
    {
      formData := Set(formData, field, value);
    }

    /** `handleSubmit`: the record posted is the current one, unmodified; the form is not touched. */
    method HandleSubmit() returns (payload: FormData)
      ensures payload == formData
    {
      payload := formData;
    }

    /** `onSuccess`: a success toast, and every field is cleared. */
    method OnSuccess() returns (toast: Toast)
      modifies this
      ensures formData == EmptyForm
      ensures toast == SuccessToast
    {
      toast := SuccessToast;
      formData := EmptyForm;
    }

    /** `onError`: an error toast, and the form keeps what was typed. */
    method OnError() returns (toast: Toast)
      ensures toast == ErrorToast
      ensures unchanged(this)
    {
      toast := ErrorToast;
    }
  }

  /** The JSON body `apiRequest` posts for a record: the five fields as strings. */
  function ToBody(d: FormData): (b: Body)
    ensures forall f :: StringField(b, f) == Some(Get(d, f))
  {
    Object(map[FirstName := JString(d.firstName), LastName := JString(d.lastName),
               Email := JString(d.email), Subject := JString(d.subject),
               Message := JString(d.message)])
  }

  /**
   * The server accepts a submitted form exactly when the first name, last
   * name and subject are non-empty, the e-mail passes the e-mail rule and the
   * message has at least ten characters; the payload it parses is the form
   * as typed.
   */
  lemma SubmittedFormParsed(d: FormData, isEmail: string -> bool)
    ensures Parse(ToBody(d), isEmail).Ok? <==>
      |d.firstName| >= 1 && |d.lastName| >= 1 && isEmail(d.email) && |d.subject| >= 1 && |d.message| >= 10
    ensures Parse(ToBody(d), isEmail).Ok? ==>
      Parse(ToBody(d), isEmail).value == ContactData(d.firstName, d.lastName, d.email, d.subject, d.message)
  {
    var b := ToBody(d);
    ParseAcceptsExactly(b, isEmail);
    assert StringField(b, FirstName) == Some(d.firstName) && StringField(b, LastName) == Some(d.lastName);
    assert StringField(b, Email) == Some(d.email) && StringField(b, Subject) == Some(d.subject);
    assert StringField(b, Message) == Some(d.message);
  }

  /**
   * The empty record, posted straight to the endpoint, is rejected for the
   * names, the subject and the message. (In the page itself the browser's
   * checks on the required inputs keep the untouched form from being posted.)
   */
  lemma EmptyFormRejected(isEmail: string -> bool)
    ensures Parse(ToBody(EmptyForm), isEmail).Err?
    ensures forall k :: k in {0, 1, 3, 4} ==>
      FieldIssues(ToBody(EmptyForm).fields, ContactSchema[k], isEmail)[0] in Parse(ToBody(EmptyForm), isEmail).error
  {
    var b := ToBody(EmptyForm);
    assert StringField(b, FirstName) == Some("");
    forall k | k in {0, 1, 3, 4}
      ensures FieldIssues(b.fields, ContactSchema[k], isEmail)[0] in Parse(b, isEmail).error
    {
      assert b.fields[ContactSchema[k].key] == JString("");
      FailingFieldReported(b, isEmail, k);
    }
  }
}

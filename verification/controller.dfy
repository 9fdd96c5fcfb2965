/** The request handlers of the submission controller as pure functions
    from the stored sequence and the request to a response and the new
    stored sequence. Loading the store is reading `store`; saving it is
    returning the new one. */
module Controller {
  import opened Options
  import opened Validators
  import opened Submissions

  /** The four checks of a submit or edit request, one per error. */
  datatype ValidationError = MissingField | BadEmail | BadPhone | BadGithubLink

  /** The position of a check in the order the handlers apply them. */
  function Rank(e: ValidationError): nat {
    match e
    case MissingField => 0
    case BadEmail => 1
    case BadPhone => 2
    case BadGithubLink => 3
  }

  /** The error text the handlers send for each failed check. */
  function Message(e: ValidationError): string {
    match e
    case MissingField => "All fields are required"
    case BadEmail => "Invalid email format"
    case BadPhone => "Phone number must be 10 digits long"
    case BadGithubLink => "Invalid GitHub link"
  }

  /** Each failed check has its own error text, so the text tells the
      client which check failed. */
  lemma MessagesDistinct(e: ValidationError, e': ValidationError)
    ensures Message(e) == Message(e') ==> e == e'
  {
    assert Message(MissingField)[0] == 'A' && Message(BadEmail)[0] == 'I';
    assert Message(BadPhone)[0] == 'P' && Message(BadGithubLink)[8] == 'G';
    assert Message(BadEmail)[8] == 'e';
  }

  /** What a handler answers. */
  datatype Response =
    | Pong
    | Submitted(submission: Submission)
    | Found(submission: Submission)
    | Deleted(submission: Submission)
    | Updated(submission: Submission)
    | Matches(submissions: seq<Submission>, count: nat)
    | Invalid(error: ValidationError)
    | NotFound

  /** The HTTP status the handlers pair with each response. */
  function Status(r: Response): (code: nat)
    ensures code == 400 <==> r.Invalid?
    ensures code == 404 <==> r.NotFound?
    ensures code in {200, 400, 404}
  {
    match r
    case Invalid(_) => 400
    case NotFound => 404
    case _ => 200
  }

  /** A response together with the store as it stands afterwards. */
  datatype Step = Step(response: Response, store: seq<Submission>)

  /** Every field is present and non-empty (JavaScript truthiness of a
      string). */
  predicate AllPresent(f: Fields) {
    |f.name| > 0 && |f.email| > 0 && |f.phone| > 0 && |f.githubLink| > 0 && |f.stopwatchTime| > 0
  }

  /** Whether `f` passes the check that reports `e`. */
  predicate Passes(f: Fields, e: ValidationError) {
    match e
    case MissingField => AllPresent(f)
    case BadEmail => IsValidEmail(f.email)
    case BadPhone => IsValidPhoneNumber(f.phone)
    case BadGithubLink => IsValidGithubLink(f.githubLink)
  }

  /** The fields a stored record must carry: all four checks pass. */
  predicate ValidFields(f: Fields) {
    forall e :: Passes(f, e)
  }

  /** The validation shared by submit and edit. The reported error is the
      first failing check in the order required, email, phone, GitHub
      link; no error means every check passes. */
  function Validate(f: Fields): (r: Option<ValidationError>)
    ensures r.None? <==> ValidFields(f)
    ensures r.Some? ==> !Passes(f, r.value)
    ensures r.Some? ==> forall e :: Rank(e) < Rank(r.value) ==> Passes(f, e)
  {
    if !AllPresent(f) then
      assert !Passes(f, MissingField);
      Some(MissingField)
    else if !IsValidEmail(f.email) then
      assert !Passes(f, BadEmail);
      Some(BadEmail)
    else if !IsValidPhoneNumber(f.phone) then
      assert !Passes(f, BadPhone);
      Some(BadPhone)
    else if !IsValidGithubLink(f.githubLink) then
      assert !Passes(f, BadGithubLink);
      Some(BadGithubLink)
    else
      assert Passes(f, MissingField) && Passes(f, BadEmail) && Passes(f, BadPhone) && Passes(f, BadGithubLink);
      None
  }

  /** A parsed index names a position of a store of length `n`. `None` is
      `NaN`, for which both comparisons of the source are false. */
  predicate InRange(index: Option<int>, n: nat) {
    index.Some? && 0 <= index.value < n
  }

  /** `ping`: a constant answer; the store is not touched. */
  function Ping(store: seq<Submission>): (r: Step)
    ensures r.store == store && Status(r.response) == 200
  {
    Step(Pong, store)
  }

  /** `submit`: validate, then append a record holding the fields verbatim
      with the caller's fresh id and timestamps. */
  function Submit(store: seq<Submission>, f: Fields, id: string, createdAt: Time, updatedAt: Time): (r: Step)
    ensures Validate(f).Some? ==> r == Step(Invalid(Validate(f).value), store)
    ensures Validate(f).None? ==>
      && r.response.Submitted?
      && |r.store| == |store| + 1
      && r.store[..|store|] == store
      && r.store[|store|] == r.response.submission
      && FieldsOf(r.response.submission) == f
      && r.response.submission.id == id
      && r.response.submission.createdAt == createdAt
      && r.response.submission.updatedAt == updatedAt
  {
    match Validate(f)
    case Some(e) => Step(Invalid(e), store)
    case None =>
      var x := NewRecord(f, id, createdAt, updatedAt);
      Step(Submitted(x), store + [x])
  }

  /** `read`: the record at a position, or not-found. */
  function Read(store: seq<Submission>, index: Option<int>): (r: Step)
    ensures r.store == store
    ensures r.response.Found? <==> InRange(index, |store|)
    ensures r.response.Found? ==> r.response.submission == store[index.value]
    ensures !r.response.Found? ==> r.response == NotFound
  {
    if InRange(index, |store|) then Step(Found(store[index.value]), store)
    else Step(NotFound, store)
  }

  /** `deleteSubmission`: cut the record at a position out of the store;
      every later record moves down one position. */
  function Delete(store: seq<Submission>, index: Option<int>): (r: Step)
    ensures !InRange(index, |store|) ==> r == Step(NotFound, store)
    ensures InRange(index, |store|) ==>
      var i := index.value;
      && r.response == Deleted(store[i])
      && |r.store| == |store| - 1
      && (forall j :: 0 <= j < i ==> r.store[j] == store[j])
      && (forall j :: i <= j < |r.store| ==> r.store[j] == store[j + 1])
  {
    if InRange(index, |store|) then
      var i := index.value;
      Step(Deleted(store[i]), store[..i] + store[i + 1..])
    else
      Step(NotFound, store)
  }

  /** `editSubmission`: validate, then overwrite the five client fields of
      the record at a position and stamp it with `now`; its id and
      creation time stay. */
  function Edit(store: seq<Submission>, index: Option<int>, f: Fields, now: Time): (r: Step)
    ensures Validate(f).Some? ==> r == Step(Invalid(Validate(f).value), store)
    ensures Validate(f).None? && !InRange(index, |store|) ==> r == Step(NotFound, store)
    ensures Validate(f).None? && InRange(index, |store|) ==>
      var i := index.value;
      && r.response.Updated?
      && |r.store| == |store|
      && r.store[i] == r.response.submission
      && (forall j :: 0 <= j < |store| && j != i ==> r.store[j] == store[j])
      && FieldsOf(r.response.submission) == f
      && r.response.submission.id == store[i].id
      && r.response.submission.createdAt == store[i].createdAt
      && r.response.submission.updatedAt == now
  {
    match Validate(f)
    case Some(e) => Step(Invalid(e), store)
    case None =>
      if InRange(index, |store|) then
        var i := index.value;
        var x := store[i].(name := f.name, email := f.email, phone := f.phone,
                           githubLink := f.githubLink, stopwatchTime := f.stopwatchTime,
                           updatedAt := now);
        Step(Updated(x), store[i := x])
      else
        Step(NotFound, store)
  }

  /** The records whose email is exactly `q`, in store order. */
  function Filter(store: seq<Submission>, q: string): (res: seq<Submission>)
    ensures |res| <= |store|
    ensures forall k :: 0 <= k < |res| ==> res[k].email == q && res[k] in store
  {
    if |store| == 0 then []
    else (if store[0].email == q then [store[0]] else []) + Filter(store[1..], q)
  }

  /** `searchByEmail`: the matching records and their number. A missing
      query (or any non-string one) equals no stored email. */
  function Search(store: seq<Submission>, query: Option<string>): (r: Step)
    ensures r.store == store
    ensures r.response.Matches?
    ensures r.response.count == |r.response.submissions|
    ensures forall k :: 0 <= k < |r.response.submissions| ==>
              r.response.submissions[k] in store
              && query == Some(r.response.submissions[k].email)
  {
    var res := match query
      case Some(q) => Filter(store, q)
      case None => [];
    Step(Matches(res, |res|), store)
  }
}

/**
 * The add-record form: its initial contents, the status choices, the
 * one-field update behind every input, and the submit handler, modelled
 * both as the ordered list of state changes and requests it makes and as a
 * method over the page's state.
 */
module AddUniversity {
  import opened Records

  // ---------------------------------------------------------------------
  // Form contents

  /** The form state: every field as the text its input holds. */
  datatype FormData = FormData(
    name: string,
    country: string,
    deadline: string,
    scholarshipPercentage: string,
    applicationFees: string,
    notes: string,
    status: string)

  /** The keys `handleChange` is called with. */
  datatype Field = Name | Country | Deadline | ScholarshipPercentage | ApplicationFees | Notes | StatusField

  /** The value of one field. */
  function Get(form: FormData, field: Field): string
  {
    match field
    case Name => form.name
    case Country => form.country
    case Deadline => form.deadline
    case ScholarshipPercentage => form.scholarshipPercentage
    case ApplicationFees => form.applicationFees
    case Notes => form.notes
    case StatusField => form.status
  }

  /** The state the form starts in: every text field empty, status `Applying`. */
  function InitialForm(): (form: FormData)
    ensures forall field :: field != StatusField ==> Get(form, field) == ""
    ensures Get(form, StatusField) == StatusName(Applying)
  {
    FormData("", "", "", "", "", "", "Applying")
  }

  /** `{ ...prev, [field]: value }`: `field` takes `value`, every other field keeps its value. */
  function WithField(form: FormData, field: Field, value: string): (r: FormData)
    ensures Get(r, field) == value
    ensures forall other :: other != field ==> Get(r, other) == Get(form, other)
  {
    match field
    case Name => form.(name := value)
    case Country => form.(country := value)
    case Deadline => form.(deadline := value)
    case ScholarshipPercentage => form.(scholarshipPercentage := value)
    case ApplicationFees => form.(applicationFees := value)
    case Notes => form.(notes := value)
    case StatusField => form.(status := value)
  }

  /** Two forms that agree on every field are the same form. */
  lemma FormsAgreeOnFields(a: FormData, b: FormData)
    requires forall field :: Get(a, field) == Get(b, field)
    ensures a == b
  {
    assert Get(a, Name) == Get(b, Name);
    assert Get(a, Country) == Get(b, Country);
    assert Get(a, Deadline) == Get(b, Deadline);
    assert Get(a, ScholarshipPercentage) == Get(b, ScholarshipPercentage);
    assert Get(a, ApplicationFees) == Get(b, ApplicationFees);
    assert Get(a, Notes) == Get(b, Notes);
    assert Get(a, StatusField) == Get(b, StatusField);
  }

  /**
   * Writing a field's own value changes nothing, and a second write to the
   * same field replaces the first.
   */
  lemma WithFieldLaws(form: FormData, field: Field, a: string, b: string)
    ensures WithField(form, field, Get(form, field)) == form
    ensures WithField(WithField(form, field, a), field, b) == WithField(form, field, b)
  {
    FormsAgreeOnFields(WithField(form, field, Get(form, field)), form);
    FormsAgreeOnFields(WithField(WithField(form, field, a), field, b), WithField(form, field, b));
  }

  /** Updates to two different fields can be made in either order. */
  lemma WithFieldCommutes(form: FormData, f: Field, g: Field, a: string, b: string)
    requires f != g
    ensures WithField(WithField(form, f, a), g, b) == WithField(WithField(form, g, b), f, a)
  {
    FormsAgreeOnFields(WithField(WithField(form, f, a), g, b), WithField(WithField(form, g, b), f, a));
  }

  // ---------------------------------------------------------------------
  // Status choices

  datatype SelectOption = SelectOption(value: string, text: string)

  /** `statusOptions`: one option per status, labelled with its own value. */
  function StatusOptions(): (options: seq<SelectOption>)
    ensures |options| == 5
    ensures forall i :: 0 <= i < |options| ==> options[i].text == options[i].value
    ensures forall st: Status :: SelectOption(StatusName(st), StatusName(st)) in options
  {
    var options := [
      SelectOption("Applying", "Applying"),
      SelectOption("Waiting", "Waiting"),
      SelectOption("Accepted", "Accepted"),
      SelectOption("Waitlisted", "Waitlisted"),
      SelectOption("Rejected", "Rejected")];
    assert forall st: Status :: options[StatusOrdinal(st)] == SelectOption(StatusName(st), StatusName(st));
    options
  }

  /** Position of a status in the record type's declaration. */
  function StatusOrdinal(st: Status): nat
  {
    match st
    case Applying => 0
    case Waiting => 1
    case Accepted => 2
    case Waitlisted => 3
    case Rejected => 4
  }

  /** The option list holds no other value and no value twice, so it is exactly the five statuses. */
  lemma StatusOptionsAreExactlyTheStatuses()
    ensures forall i :: 0 <= i < |StatusOptions()| ==> exists st: Status :: StatusOptions()[i].value == StatusName(st)
    ensures forall i, j :: 0 <= i < j < |StatusOptions()| ==> StatusOptions()[i].value != StatusOptions()[j].value
  {
    var options := StatusOptions();
    assert options[0].value == StatusName(Applying);
    assert options[1].value == StatusName(Waiting);
    assert options[2].value == StatusName(Accepted);
    assert options[3].value == StatusName(Waitlisted);
    assert options[4].value == StatusName(Rejected);
  }

  // ---------------------------------------------------------------------
  // The insert request

  /** The row sent to the backend: the form, its two numbers parsed, and the owner. */
  datatype InsertRow = InsertRow(
    name: string,
    country: string,
    deadline: string,
    scholarshipPercentage: real,
    applicationFees: real,
    notes: string,
    status: string,
    userId: string)

  /** The fields the request carries as text, unchanged from the form. */
  predicate IsTextField(field: Field)
  {
    field != ScholarshipPercentage && field != ApplicationFees
  }

  function RowText(row: InsertRow, field: Field): string
    requires IsTextField(field)
  {
    match field
    case Name => row.name
    case Country => row.country
    case Deadline => row.deadline
    case Notes => row.notes
    case StatusField => row.status
  }

  /**
   * `{ ...formData, user_id, scholarship_percentage: parseFloat(..), application_fees: parseFloat(..) }`;
   * `parseFloat` is a parameter because the model does not parse numbers.
   */
  function InsertPayload(form: FormData, userId: string, parseFloat: string -> real): (row: InsertRow)
    ensures row.userId == userId
    ensures row.scholarshipPercentage == parseFloat(Get(form, ScholarshipPercentage))
    ensures row.applicationFees == parseFloat(Get(form, ApplicationFees))
    ensures forall field :: IsTextField(field) ==> RowText(row, field) == Get(form, field)
  {
    InsertRow(
      form.name,
      form.country,
      form.deadline,
      parseFloat(form.scholarshipPercentage),
      parseFloat(form.applicationFees),
      form.notes,
      form.status,
      userId)
  }

  // ---------------------------------------------------------------------
  // handleSubmit as a sequence of effects

  /** What `getUser` yields. */
  datatype AuthOutcome = SignedIn(userId: string) | SignedOut | AuthThrew

  /** What the insert yields, once issued. */
  datatype InsertOutcome = Inserted | InsertFailed(message: string) | InsertThrew

  /** One observable step of the handler: a state update, a request or a navigation. */
  datatype Effect =
    | SetError(message: string)
    | SetLoading(on: bool)
    | SendInsert(row: InsertRow)
    | Navigate(route: string)

  const LoginRequiredMessage: string := "You must be logged in to add a university"
  const UnexpectedErrorMessage: string := "An unexpected error occurred"
  const DashboardRoute: string := "/dashboard"

  /** The body of the `try` block, ending where it returns, navigates or is caught. */
  function TryEffects(form: FormData, auth: AuthOutcome, insert: InsertOutcome, parseFloat: string -> real): seq<Effect>
  {
    match auth
    case AuthThrew => [SetError(UnexpectedErrorMessage)]
    case SignedOut => [SetError(LoginRequiredMessage)]
    case SignedIn(uid) =>
      [SendInsert(InsertPayload(form, uid, parseFloat))] +
      match insert
      case Inserted => [Navigate(DashboardRoute)]
      case InsertFailed(message) => [SetError(message)]
      case InsertThrew => [SetError(UnexpectedErrorMessage)]
  }

  /** `handleSubmit`: clear the error, raise `loading`, run the `try` block, then (`finally`) lower `loading`. */
  function SubmitEffects(form: FormData, auth: AuthOutcome, insert: InsertOutcome, parseFloat: string -> real): (effects: seq<Effect>)
    ensures |effects| >= 3
    ensures effects[0] == SetError("") && effects[1] == SetLoading(true)
    ensures effects[|effects| - 1] == SetLoading(false)
  {
    [SetError(""), SetLoading(true)] + TryEffects(form, auth, insert, parseFloat) + [SetLoading(false)]
  }

  /** An insert is requested exactly when a user is signed in, and then exactly once, carrying that user's id. */
  lemma SubmitInsertsOnlyWhenSignedIn(form: FormData, auth: AuthOutcome, insert: InsertOutcome, parseFloat: string -> real)
    ensures var effects := SubmitEffects(form, auth, insert, parseFloat);
            (exists i :: 0 <= i < |effects| && effects[i].SendInsert?) <==> auth.SignedIn?
    ensures var effects := SubmitEffects(form, auth, insert, parseFloat);
            forall i :: 0 <= i < |effects| && effects[i].SendInsert? ==>
              i == 2 && auth.SignedIn? && effects[i].row == InsertPayload(form, auth.userId, parseFloat)
  {
    var effects := SubmitEffects(form, auth, insert, parseFloat);
    if auth.SignedIn? {
      assert effects[2].SendInsert?;
    }
  }

  /** There is a navigation, to the dashboard, exactly when a signed-in user's insert succeeded. */
  lemma SubmitNavigatesOnlyOnSuccess(form: FormData, auth: AuthOutcome, insert: InsertOutcome, parseFloat: string -> real)
    ensures var effects := SubmitEffects(form, auth, insert, parseFloat);
            (exists i :: 0 <= i < |effects| && effects[i].Navigate?) <==> auth.SignedIn? && insert == Inserted
    ensures var effects := SubmitEffects(form, auth, insert, parseFloat);
            forall i :: 0 <= i < |effects| && effects[i].Navigate? ==> effects[i].route == DashboardRoute
  {
    var effects := SubmitEffects(form, auth, insert, parseFloat);
    if auth.SignedIn? && insert == Inserted {
      assert effects[3].Navigate?;
    }
  }

  // ---------------------------------------------------------------------
  // Applying the effects to the page's state

  /** The part of the page's state that the handler changes, with the requests it has sent. */
  datatype SubmitState = SubmitState(loading: bool, error: string, navigatedTo: Option<string>, sent: seq<InsertRow>)

  function Step(st: SubmitState, e: Effect): SubmitState
  {
    match e
    case SetError(message) => st.(error := message)
    case SetLoading(on) => st.(loading := on)
    case SendInsert(row) => st.(sent := st.sent + [row])
    case Navigate(route) => st.(navigatedTo := Some(route))
  }

  /** The state after the effects, applied in order. */
  function Run(st: SubmitState, effects: seq<Effect>): SubmitState
    decreases |effects|
  {
    if effects == [] then st else Run(Step(st, effects[0]), effects[1..])
  }

  lemma {:induction false} RunAppend(st: SubmitState, a: seq<Effect>, b: seq<Effect>)
    ensures Run(st, a + b) == Run(Run(st, a), b)
    decreases |a|
  {
    if a != [] {
      assert (a + b)[1..] == a[1..] + b;
      RunAppend(Step(st, a[0]), a[1..], b);
    } else {
      assert a + b == b;
    }
  }

  /** The message shown after a submit. */
  function SubmitError(auth: AuthOutcome, insert: InsertOutcome): string
  {
    match auth
    case AuthThrew => UnexpectedErrorMessage
    case SignedOut => LoginRequiredMessage
    case SignedIn(_) =>
      match insert
      case Inserted => ""
      case InsertFailed(message) => message
      case InsertThrew => UnexpectedErrorMessage
  }

  /**
   * The outcome of a submit: `loading` is false on every path; the error is
   * the fixed login message, the backend's message, the generic message, or
   * (after success) the cleared one; the dashboard is navigated to only on
   * success; one row is sent exactly when a user is signed in.
   */
  lemma {:induction false} SubmitOutcome(st: SubmitState, form: FormData, auth: AuthOutcome, insert: InsertOutcome, parseFloat: string -> real)
    ensures var after := Run(st, SubmitEffects(form, auth, insert, parseFloat));
            && !after.loading
            && after.error == SubmitError(auth, insert)
            && after.navigatedTo == (if auth.SignedIn? && insert == Inserted then Some(DashboardRoute) else st.navigatedTo)
            && after.sent == st.sent + (if auth.SignedIn? then [InsertPayload(form, auth.userId, parseFloat)] else [])
  {
    var head := [SetError(""), SetLoading(true)];
    var body := TryEffects(form, auth, insert, parseFloat);
    var tail := [SetLoading(false)];
    RunAppend(st, head + body, tail);
    RunAppend(st, head, body);
    RunAppend(st, [SetError("")], [SetLoading(true)]);
    assert head == [SetError("")] + [SetLoading(true)];
    RunOne(st, SetError(""));
    var cleared := st.(error := "");
    RunOne(cleared, SetLoading(true));
    var started := cleared.(loading := true);
    assert Run(st, head) == started;
    var ran := Run(started, body);
    RunOne(ran, SetLoading(false));
    match auth {
      case AuthThrew =>
        RunOne(started, SetError(UnexpectedErrorMessage));
      case SignedOut =>
        RunOne(started, SetError(LoginRequiredMessage));
      case SignedIn(uid) =>
        var row := InsertPayload(form, uid, parseFloat);
        var sentRow := started.(sent := started.sent + [row]);
        var last := body[1];
        assert body == [SendInsert(row)] + [last];
        RunAppend(started, [SendInsert(row)], [last]);
        RunOne(started, SendInsert(row));
        RunOne(sentRow, last);
    }
  }

  /** Running a single effect is one step. */
  lemma RunOne(st: SubmitState, e: Effect)
    ensures Run(st, [e]) == Step(st, e)
  {
    assert [e][1..] == [];
  }

  // ---------------------------------------------------------------------
  // The page

  class AddUniversityPage {
    var form: FormData
    var loading: bool
    var error: string
    /** The route the page navigated to, if any. */
    var navigatedTo: Option<string>
    /** Rows sent to the backend's insert, oldest first. */
    var sent: seq<InsertRow>

    constructor ()
      ensures form == InitialForm() && !loading && error == "" && navigatedTo == None && sent == []
    {
      form := InitialForm();
      loading := false;
      error := "";
      navigatedTo := None;
      sent := [];
    }

    function View(): SubmitState
      reads this
    {
      SubmitState(loading, error, navigatedTo, sent)
    }

    /** `handleChange`: only the named field of the form changes. */
    method HandleChange(field: Field, value: string)
      modifies this
      ensures form == WithField(old(form), field, value)
      ensures View() == old(View())
    {
      form := WithField(form, field, value);
    }

    /** `handleSubmit`, with the backend's answers given as inputs. */
    method HandleSubmit(auth: AuthOutcome, insert: InsertOutcome, parseFloat: string -> real)
      modifies this
      ensures form == old(form)
      ensures View() == Run(old(View()), SubmitEffects(old(form), auth, insert, parseFloat))
    {
      ghost var before := View();
      error := "";
      loading := true;
      match auth {
        case AuthThrew =>
          error := UnexpectedErrorMessage;
        case SignedOut =>
          error := LoginRequiredMessage;
        case SignedIn(uid) =>
          sent := sent + [InsertPayload(form, uid, parseFloat)];
          match insert {
            case Inserted =>
              navigatedTo := Some(DashboardRoute);
            case InsertFailed(message) =>
              error := message;
            case InsertThrew =>
              error := UnexpectedErrorMessage;
          }
      }
      loading := false;
      SubmitOutcome(before, form, auth, insert, parseFloat);
    }
  }
}

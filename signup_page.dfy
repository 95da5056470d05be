/**
 * The signup page (api/public/signup.js): the length check of the two fields,
 * the message box, the button that only the terms box disables, the live
 * re-check that starts after the first attempt, and the attempt itself. The
 * outcome of the request is a parameter.
 */
module SignupPage {
  import opened Wrappers
  import opened Text
  import opened Accounts

  const UserMin := 2
  const UserMax := 20
  const PassMin := 3
  const PassMax := 28

  const UserTooLong := "Username length must be under 20"
  const UserTooShort := "Username length must be over 2"
  const PassTooLong := "Password length must be under 28"
  const PassTooShort := "Password length must be over 3"

  predicate IsUserMessage(s: string) { s == UserTooLong || s == UserTooShort }
  predicate IsPassMessage(s: string) { s == PassTooLong || s == PassTooShort }

  /**
   * `collectLengthErrors(u, p)`: one message per field out of its bounds, the
   * username's first. The list is empty exactly when both lengths are in range.
   */
  function CollectLengthErrors(u: string, p: string): (lines: seq<string>)
    ensures |lines| <= 2
    ensures UserTooLong in lines <==> |u| > UserMax
    ensures UserTooShort in lines <==> |u| < UserMin
    ensures PassTooLong in lines <==> |p| > PassMax
    ensures PassTooShort in lines <==> |p| < PassMin
    ensures forall i :: 0 <= i < |lines| ==> IsUserMessage(lines[i]) || IsPassMessage(lines[i])
    ensures |lines| == 2 ==> IsUserMessage(lines[0]) && IsPassMessage(lines[1])
    ensures lines == [] <==> UserMin <= |u| <= UserMax && PassMin <= |p| <= PassMax
  {
    var user := if |u| > UserMax then [UserTooLong] else if |u| < UserMin then [UserTooShort] else [];
    var pass := if |p| > PassMax then [PassTooLong] else if |p| < PassMin then [PassTooShort] else [];
    user + pass
  }

  /**
   * The page checks the lengths the server's schemas ask for: a list with no
   * message is a password the server takes and a username of an allowed length,
   * and every username the server takes passes the page unchanged by the trim.
   */
  lemma ClientMatchesServer(u: string, p: string)
    ensures CollectLengthErrors(u, p) == [] <==> UserMin <= |u| <= UserMax && ValidPassword(p)
    ensures ValidUsername(u) && ValidPassword(p) ==> Trim(u) == u && CollectLengthErrors(Trim(u), p) == []
  {
    if ValidUsername(u) {
      TrimNoSpace(u);
    }
  }

  // ----- the message box -----

  datatype MsgType = ErrorMsg | SuccessMsg | NoMsg

  /** `#errorMsg`: whether it shows, its text and its colour. */
  datatype MsgBox = MsgBox(shown: bool, text: string, color: string)

  const Red := "#ef4444"
  const Green := "#16a34a"
  const SuccessText := "You have successfully created an account!\nGo to the login page to enter"

  /** `setMsg(text, type)` */
  function SetMsg(m: MsgBox, text: string, t: MsgType): MsgBox {
    if t == NoMsg || text == "" then MsgBox(false, "", m.color)
    else MsgBox(true, text, if t == ErrorMsg then Red else Green)
  }

  /**
   * The box shows exactly when there is a text to show and a type other than
   * "none"; it then holds that text in red for an error and green for a
   * success, and a hidden box holds no text.
   */
  lemma SetMsgLaw(m: MsgBox, text: string, t: MsgType)
    ensures SetMsg(m, text, t).shown <==> t != NoMsg && text != ""
    ensures SetMsg(m, text, t).shown ==> SetMsg(m, text, t).text == text
    ensures SetMsg(m, text, t).shown ==> (SetMsg(m, text, t).color == Red <==> t == ErrorMsg)
    ensures !SetMsg(m, text, t).shown ==> SetMsg(m, text, t).text == "" && SetMsg(m, text, t).color == m.color
  {
  }

  /** The red block of the length errors, or no block when there are none. */
  function ShowErrors(m: MsgBox, errs: seq<string>): MsgBox {
    if errs == [] then SetMsg(m, "", NoMsg) else SetMsg(m, Join(errs, "\n"), ErrorMsg)
  }

  /** Two messages read one per line. */
  lemma ShowErrorsLines(m: MsgBox, u: string, p: string)
    ensures var errs := CollectLengthErrors(u, p);
            && (ShowErrors(m, errs).shown <==> errs != [])
            && (|errs| == 1 ==> ShowErrors(m, errs).text == errs[0])
            && (|errs| == 2 ==> ShowErrors(m, errs).text == errs[0] + "\n" + errs[1])
            && (errs != [] ==> ShowErrors(m, errs).color == Red)
  {
    var errs := CollectLengthErrors(u, p);
    if |errs| == 2 {
      assert errs == [errs[0], errs[1]];
      JoinTwo(errs[0], errs[1], "\n");
    }
  }

  // ----- the form -----

  /** `data` of the reply: its `ok` and its `message` ("" when it has none). */
  datatype SignupData = SignupData(ok: bool, message: string)

  /**
   * The outcome of `fetch("/api/signup")`: the request fails, or a reply comes
   * with its `res.ok` and its body (`None` when it is not JSON).
   */
  datatype SignupResponse = NetworkError | Answered(ok: bool, data: Option<SignupData>)

  /**
   * The state the script reads and writes: the two inputs, the terms box, the
   * button's `disabled`, `submittedOnce`, the message box and the bodies of the
   * requests sent (`{ username, password }`).
   */
  datatype Form = Form(
    username: string,
    password: string,
    terms: bool,
    disabled: bool,
    submittedOnce: bool,
    msg: MsgBox,
    sent: seq<(string, string)>)

  /** `updateButtonDisabled()` */
  function UpdateButton(f: Form): Form {
    f.(disabled := !f.terms)
  }

  /** The button is disabled exactly when the terms are not accepted. */
  predicate Settled(f: Form) {
    f.disabled <==> !f.terms
  }

  /** The errors of what the fields hold: the username trimmed, the password as typed. */
  function ErrorsOf(f: Form): seq<string> {
    CollectLengthErrors(Trim(f.username), f.password)
  }

  /** `maybeUpdateErrorsLive()` */
  function LiveSpec(f: Form): Form {
    if !f.submittedOnce then f else f.(msg := ShowErrors(f.msg, ErrorsOf(f)))
  }

  /** An `input` event after the fields came to hold `u` and `p`. */
  function InputSpec(f: Form, u: string, p: string): Form {
    LiveSpec(f.(username := u, password := p))
  }

  /** The `change` event of the terms box. */
  function TermsSpec(f: Form, checked: bool): Form {
    UpdateButton(f.(terms := checked))
  }

  /** The message the reply leads to. */
  function Outcome(m: MsgBox, r: SignupResponse): MsgBox {
    match r
    case NetworkError => SetMsg(m, "Network error. Please try again.", ErrorMsg)
    case Answered(ok, data) =>
      if !ok || data.None? || !data.value.ok then
        SetMsg(m, if data.Some? && data.value.message != "" then data.value.message else "Unable to sign up.", ErrorMsg)
      else SetMsg(m, SuccessText, SuccessMsg)
  }

  /**
   * `doSignup()` run to its end: the attempt is recorded, length errors stop it
   * in red, and otherwise the block hides, the request goes out and the reply's
   * message shows, after which only the terms decide the button.
   */
  function DoSignupSpec(f: Form, r: SignupResponse): Form {
    var errs := ErrorsOf(f);
    if errs != [] then f.(submittedOnce := true, msg := SetMsg(f.msg, Join(errs, "\n"), ErrorMsg))
    else
      UpdateButton(f.(submittedOnce := true,
                      msg := Outcome(SetMsg(f.msg, "", NoMsg), r),
                      sent := f.sent + [(Trim(f.username), f.password)]))
  }

  /** The click listener of the button. */
  function ClickSpec(f: Form, r: SignupResponse): Form {
    if f.disabled then f else DoSignupSpec(f, r)
  }

  /** The `keydown` listener of either input. */
  function KeyDownSpec(f: Form, key: string, r: SignupResponse): Form {
    if key == "Enter" && !f.disabled then DoSignupSpec(f, r) else f
  }

  /** Before the first attempt, typing changes nothing but the fields. */
  lemma LiveWaitsForSubmit(f: Form, u: string, p: string)
    requires !f.submittedOnce
    ensures InputSpec(f, u, p) == f.(username := u, password := p)
  {
  }

  /** After it, each input shows the errors of what the fields now hold, or hides the block. */
  lemma LiveAfterSubmit(f: Form, u: string, p: string)
    requires f.submittedOnce
    ensures InputSpec(f, u, p).msg.shown <==> CollectLengthErrors(Trim(u), p) != []
    ensures InputSpec(f, u, p).sent == f.sent && InputSpec(f, u, p).disabled == f.disabled
  {
    ShowErrorsLines(f.msg, Trim(u), p);
  }

  /**
   * An attempt sends a request exactly when the trimmed username and the
   * untrimmed password have no length error, and the request carries those two;
   * an attempt that sends nothing shows the errors in red. Either way the attempt
   * is recorded.
   */
  lemma DoSignupSends(f: Form, r: SignupResponse)
    ensures var g := DoSignupSpec(f, r);
            && g.submittedOnce
            && (ErrorsOf(f) == [] <==> |g.sent| == |f.sent| + 1)
            && (ErrorsOf(f) == [] ==> g.sent == f.sent + [(Trim(f.username), f.password)])
            && (ErrorsOf(f) != [] ==>
                  g.sent == f.sent && g.msg.shown && g.msg.color == Red && g.msg.text == Join(ErrorsOf(f), "\n"))
  {
    SetMsgLaw(f.msg, Join(ErrorsOf(f), "\n"), ErrorMsg);
    if ErrorsOf(f) != [] {
      assert ErrorsOf(f)[0] in ErrorsOf(f);
      assert Join(ErrorsOf(f), "\n") != "" by {
        var errs := ErrorsOf(f);
        if |errs| == 2 {
          assert errs == [errs[0], errs[1]];
          JoinTwo(errs[0], errs[1], "\n");
        }
      }
    }
  }

  /**
   * What goes out has a username already trimmed and of an allowed length and
   * a password the server's schema takes.
   */
  lemma SentPassesLengths(f: Form, r: SignupResponse)
    requires ErrorsOf(f) == []
    ensures var (u, p) := DoSignupSpec(f, r).sent[|f.sent|];
            && UserMin <= |u| <= UserMax && ValidPassword(p)
            && Trim(u) == u && p == f.password
  {
    TrimIdempotent(f.username);
  }

  /** A finished attempt that sent its request shows an answer: green only on success. */
  lemma DoSignupAnswers(f: Form, r: SignupResponse)
    requires ErrorsOf(f) == []
    ensures DoSignupSpec(f, r).msg.shown
    ensures DoSignupSpec(f, r).msg.color == Green <==> r.Answered? && r.ok && r.data.Some? && r.data.value.ok
    ensures DoSignupSpec(f, r).msg.color == Green ==> DoSignupSpec(f, r).msg.text == SuccessText
  {
  }

  /**
   * Every handler leaves the button disabled exactly when the terms are not
   * accepted; a change of the terms box restores that from any state.
   */
  lemma HandlersKeepSettled(f: Form, u: string, p: string, checked: bool, key: string, r: SignupResponse)
    ensures Settled(TermsSpec(f, checked))
    ensures Settled(f) ==> Settled(InputSpec(f, u, p)) && Settled(DoSignupSpec(f, r))
    ensures Settled(f) ==> Settled(ClickSpec(f, r)) && Settled(KeyDownSpec(f, key, r))
  {
  }

  /** With the button settled, a click or Enter does something exactly when the terms are accepted. */
  lemma OnlyAcceptedTermsSubmit(f: Form, key: string, r: SignupResponse)
    requires Settled(f)
    ensures ClickSpec(f, r) == (if f.terms then DoSignupSpec(f, r) else f)
    ensures KeyDownSpec(f, key, r) == (if f.terms && key == "Enter" then DoSignupSpec(f, r) else f)
  {
  }

  /** The page script. */
  class Page {
    var username: string
    var password: string
    var terms: bool
    var disabled: bool
    var submittedOnce: bool
    var msg: MsgBox
    var sent: seq<(string, string)>

    function State(): Form
      reads this
    {
      Form(username, password, terms, disabled, submittedOnce, msg, sent)
    }

    /** The page as loaded, the terms box `checked` or not; the script settles the button at once. */
    constructor(checked: bool)
      ensures State() == Form("", "", checked, !checked, false, MsgBox(false, "", ""), [])
      ensures Settled(State())
    {
      username := "";
      password := "";
      terms := checked;
      submittedOnce := false;
      msg := MsgBox(false, "", "");
      sent := [];
      disabled := !checked;
    }

    method UpdateButtonDisabled()
      modifies this
      ensures State() == UpdateButton(old(State()))
    {
      disabled := !terms;
    }

    method SetMessage(text: string, t: MsgType)
      modifies this
      ensures State() == old(State()).(msg := SetMsg(old(msg), text, t))
    {
      if t == NoMsg || text == "" {
        msg := msg.(shown := false, text := "");
        return;
      }
      msg := msg.(text := text, shown := true);
      if t == ErrorMsg {
        msg := msg.(color := Red);
      } else if t == SuccessMsg {
        msg := msg.(color := Green);
      }
    }

    method MaybeUpdateErrorsLive()
      modifies this
      ensures State() == LiveSpec(old(State()))
    {
      if !submittedOnce {
        return;
      }
      var errs := CollectLengthErrors(Trim(username), password);
      if |errs| == 0 {
        SetMessage("", NoMsg);
      } else {
        SetMessage(Join(errs, "\n"), ErrorMsg);
      }
    }

    /** An `input` event on either field, which now hold `u` and `p`. */
    method OnInput(u: string, p: string)
      modifies this
      ensures State() == InputSpec(old(State()), u, p)
    {
      username, password := u, p;
      MaybeUpdateErrorsLive();
    }

    method OnTermsChange(checked: bool)
      modifies this
      ensures State() == TermsSpec(old(State()), checked)
      ensures Settled(State())
    {
      terms := checked;
      UpdateButtonDisabled();
    }

    /** The reply `r`, read in the `try` around the request. */
    method ShowOutcome(r: SignupResponse)
      modifies this
      ensures State() == old(State()).(msg := Outcome(old(msg), r))
    {
      match r
      case NetworkError =>
        SetMessage("Network error. Please try again.", ErrorMsg);
      case Answered(ok, data) =>
        if !ok || data.None? || !data.value.ok {
          var text := if data.Some? && data.value.message != "" then data.value.message else "Unable to sign up.";
          SetMessage(text, ErrorMsg);
          return;
        }
        SetMessage(SuccessText, SuccessMsg);
    }

    method DoSignup(r: SignupResponse)
      modifies this
      ensures State() == DoSignupSpec(old(State()), r)
    {
      submittedOnce := true;
      var u := Trim(username);
      var p := password;
      var errs := CollectLengthErrors(u, p);
      if |errs| > 0 {
        SetMessage(Join(errs, "\n"), ErrorMsg);
        return;
      }
      SetMessage("", NoMsg);
      disabled := true;
      sent := sent + [(u, p)];
      ShowOutcome(r);
      UpdateButtonDisabled();
    }

    method OnClick(r: SignupResponse)
      modifies this
      ensures State() == ClickSpec(old(State()), r)
    {
      if disabled {
        return;
      }
      DoSignup(r);
    }

    method OnKeyDown(key: string, r: SignupResponse)
      modifies this
      ensures State() == KeyDownSpec(old(State()), key, r)
    {
      if key == "Enter" && !disabled {
        DoSignup(r);
      }
    }
  }
}

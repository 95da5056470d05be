/**
 * The questions page (api/public/questions.js): the Enter-key latch, the
 * first session check that loads the counters and the question, and the
 * submit button, whose click listener alternates between `submitClicking`
 * and a fresh `continueClicking` closure. Each network round trip is a
 * parameter holding its outcome.
 */
module QuestionsPage {
  import opened Wrappers
  import opened JsMath
  import opened Text
  import opened Questions

  // ----- the Enter-key latch -----

  datatype KeyEvent = KeyDown(key: string) | KeyUp(key: string)

  /**
   * One key event: the new `enterPressed` and whether the submit button is clicked.
   * A press of Enter clicks only when Enter is not already held; releasing it re-arms.
   */
  function LatchStep(pressed: bool, e: KeyEvent): (bool, bool) {
    match e
    case KeyDown(k) => if k == "Enter" && !pressed then (true, true) else (pressed, false)
    case KeyUp(k) => if k == "Enter" then (false, false) else (pressed, false)
  }

  /** The clicks a run of key events makes, starting from `pressed`. */
  function Clicks(pressed: bool, events: seq<KeyEvent>): nat
    decreases |events|
  {
    if events == [] then 0
    else
      var (p, c) := LatchStep(pressed, events[0]);
      (if c then 1 else 0) + Clicks(p, events[1..])
  }

  /** How many times Enter is released in `events`. */
  function Releases(events: seq<KeyEvent>): nat {
    if events == [] then 0 else (if events[0] == KeyUp("Enter") then 1 else 0) + Releases(events[1..])
  }

  /**
   * Enter clicks at most once per release: once at the start unless it is already
   * held, and once more after each release. Holding it down, however long the
   * key repeats, clicks at most once.
   */
  lemma {:induction false} ClicksPerRelease(pressed: bool, events: seq<KeyEvent>)
    ensures Clicks(pressed, events) <= (if pressed then 0 else 1) + Releases(events)
    decreases |events|
  {
    if events != [] {
      var (p, c) := LatchStep(pressed, events[0]);
      ClicksPerRelease(p, events[1..]);
    }
  }

  /** A run with no release of Enter clicks at most once, and never while Enter is held. */
  lemma HoldingEnterClicksOnce(pressed: bool, events: seq<KeyEvent>)
    requires forall i :: 0 <= i < |events| ==> events[i] != KeyUp("Enter")
    ensures Clicks(pressed, events) <= 1
    ensures pressed ==> Clicks(pressed, events) == 0
  {
    NoReleases(events);
    ClicksPerRelease(pressed, events);
  }

  lemma {:induction false} NoReleases(events: seq<KeyEvent>)
    requires forall i :: 0 <= i < |events| ==> events[i] != KeyUp("Enter")
    ensures Releases(events) == 0
  {
    if events != [] {
      assert events[0] != KeyUp("Enter");
      NoReleases(events[1..]);
    }
  }

  // ----- texts -----

  /** `${x}` for a number. */
  function NumToString(n: Num): string {
    match n
    case Finite(v) => IntToString(v)
    case PosInfinity => "Infinity"
    case NegInfinity => "-Infinity"
    case NaN => "NaN"
  }

  /** The `.operationText` line: `${n1} ${operationType} ${n2}`. */
  function OperationText(q: Question): string {
    IntToString(q.n1) + " " + OperatorSymbol(q.kind) + " " + IntToString(q.n2)
  }

  /** The question shown names its type and both operands. */
  lemma OperationTextInjective(q: Question, q': Question)
    requires OperationText(q) == OperationText(q')
    ensures OperatorSymbol(q.kind) == OperatorSymbol(q'.kind)
    ensures q.n1 == q'.n1 && q.n2 == q'.n2
  {
    var a, a' := IntToString(q.n1), IntToString(q'.n1);
    var o, o' := OperatorSymbol(q.kind), OperatorSymbol(q'.kind);
    assert |o| == 1 && |o'| == 1;
    IntToStringNoSpace(q.n1);
    IntToStringNoSpace(q'.n1);
    IntToStringNoSpace(q.n2);
    IntToStringNoSpace(q'.n2);
    var s := OperationText(q);
    assert s == a + " " + (o + " " + IntToString(q.n2));
    assert s == a' + " " + (o' + " " + IntToString(q'.n2));
    FirstSpace(a, o + " " + IntToString(q.n2));
    FirstSpace(a', o' + " " + IntToString(q'.n2));
    assert a == a';
    var rest := s[|a| + 1..];
    assert rest == o + " " + IntToString(q.n2);
    assert rest == o' + " " + IntToString(q'.n2);
    assert o == rest[..1] == o';
    assert IntToString(q.n2) == rest[2..] == IntToString(q'.n2);
    IntToStringInjective(q.n1, q'.n1);
    IntToStringInjective(q.n2, q'.n2);
  }

  /** The characters of a decimal integer are a sign and digits. */
  lemma IntToStringNoSpace(n: int)
    ensures forall i :: 0 <= i < |IntToString(n)| ==> IntToString(n)[i] != ' '
  {
    if n >= 0 {
      DigitsOnly(n);
    } else {
      DigitsOnly(-n);
      assert IntToString(n) == "-" + NatToString(-n);
    }
  }

  lemma DigitsOnly(n: nat)
    ensures AllDigits(NatToString(n))
  {
    DecimalRoundTrip(n);
  }

  /** In `a + " " + b` with no space in `a`, the first space comes right after `a`. */
  lemma FirstSpace(a: string, b: string)
    requires forall i :: 0 <= i < |a| ==> a[i] != ' '
    ensures BeforeFirst(a + " " + b, ' ') == a
  {
    if a != [] {
      assert (a + " " + b)[1..] == a[1..] + " " + b;
      FirstSpace(a[1..], b);
    }
  }

  /** The `.answerData` lines after a correct answer that earned `added` honey. */
  function CorrectLines(added: int): seq<string> {
    if added == 0 then ["Correct!"] else ["Correct!", "+" + IntToString(added) + " Honey"]
  }

  /**
   * A correct answer always says "Correct!"; a line with the honey follows exactly
   * when some was added, and it tells the amount, so different rewards never read alike.
   */
  lemma CorrectLinesTell(a: int, b: int)
    ensures CorrectLines(a)[0] == "Correct!"
    ensures |CorrectLines(a)| == 2 <==> a != 0
    ensures |CorrectLines(a)| == 1 || |CorrectLines(a)| == 2
    ensures CorrectLines(a) == CorrectLines(b) ==> a == b
  {
    if CorrectLines(a) == CorrectLines(b) && a != 0 {
      var s, t := IntToString(a), IntToString(b);
      assert "+" + s + " Honey" == "+" + t + " Honey";
      assert s == ("+" + s + " Honey")[1..|s| + 1];
      assert |s| == |t|;
      assert t == ("+" + t + " Honey")[1..|t| + 1];
      IntToStringInjective(a, b);
    }
  }

  /** The `.answerData` lines after a wrong answer. */
  function WrongLines(answer: int, solution: Num): seq<string> {
    ["Incorrect", "Your Answer: " + IntToString(answer), "Correct Answer: " + NumToString(solution)]
  }

  // ----- the page state -----

  datatype Profile = Profile(question: Question, todayHoney: Option<int>, honey: int)

  /** `fetch("/api/me")` and its JSON: `MeFailed` when the request fails or is not ok. */
  datatype Me = MeFailed | MeReply(ok: bool, profile: Option<Profile>)

  /** A click listener of the submit button; each `continueClicking` closure is a new one. */
  datatype Listener = SubmitClicking | ContinueClicking(closure: nat)

  /** The state of the page the script reads and writes. */
  datatype View = View(
    firstTime: bool,
    enterPressed: bool,
    todayBefore: Num,
    honeyBefore: Num,
    listeners: seq<Listener>,
    nextClosure: nat,
    buttonLabel: string,
    buttonClasses: set<string>,
    answerShown: bool,
    answerValue: Option<int>,
    answerDataShown: bool,
    answerLines: seq<string>,
    operationText: string,
    redirect: Option<string>)

  /** `el.removeEventListener("click", l)` */
  function RemoveListener(ls: seq<Listener>, l: Listener): (r: seq<Listener>)
    ensures l !in r
    ensures forall x :: x in r <==> x in ls && x != l
  {
    if ls == [] then [] else (if ls[0] == l then [] else [ls[0]]) + RemoveListener(ls[1..], l)
  }

  /** `el.addEventListener("click", l)`: a listener already registered is not added twice. */
  function AddListener(ls: seq<Listener>, l: Listener): seq<Listener> {
    if l in ls then ls else ls + [l]
  }

  /** `undefined` reads as NaN in `todayBefore += todayHoney`. */
  function NumberOf(x: Option<int>): Num {
    if x.Some? then Finite(x.value) else NaN
  }

  /** `checkSession()` */
  function CheckSessionSpec(v: View, me: Me): View {
    match me
    case MeFailed => v.(redirect := Some("/login"))
    case MeReply(ok, profile) =>
      if ok && profile.Some? && v.firstTime then
        var p := profile.value;
        v.(todayBefore := Add(v.todayBefore, NumberOf(p.todayHoney)),
           honeyBefore := Add(v.honeyBefore, Finite(p.honey)),
           operationText := OperationText(p.question),
           firstTime := false)
      else if !ok || profile.None? then v.(redirect := Some("/login"))
      else v
  }

  /** The end of `submitClicking`: the next click continues. */
  function ToContinue(v: View): View {
    v.(listeners := AddListener(RemoveListener(v.listeners, SubmitClicking), ContinueClicking(v.nextClosure)),
       nextClosure := v.nextClosure + 1)
  }

  /** Both counters of the page grow by `added`. */
  function Gain(v: View, added: int): View {
    v.(todayBefore := Add(v.todayBefore, Finite(added)), honeyBefore := Add(v.honeyBefore, Finite(added)))
  }

  /** The answer is marked with `mark`, the field hides and `lines` show under a "Next" button. */
  function Reveal(v: View, mark: string, lines: seq<string>): View {
    v.(buttonClasses := v.buttonClasses + {mark},
       buttonLabel := "Next",
       answerShown := false,
       answerDataShown := true,
       answerLines := lines)
  }

  /** A correct answer that earned `added`: both counters grow by it and the honey line shows. */
  function ShowCorrect(v: View, added: int): View {
    Reveal(Gain(v, added), "continueGood", CorrectLines(added))
  }

  /** A wrong answer: the counters stay and the correct solution shows. */
  function ShowWrong(v: View, answer: int, solution: Num): View {
    Reveal(v, "continueWrong", WrongLines(answer, solution))
  }

  /**
   * `submitClicking()`, where `added` is `result.added` from `addHoney()` (`None`
   * when that call failed, so reading it throws and the page goes to the login).
   */
  function SubmitSpec(v: View, me: Me, added: Option<int>): View {
    if me.MeFailed? || !me.ok || me.profile.None? then v.(redirect := Some("/login"))
    else
      var solution := Solution(me.profile.value.question);
      var answer := AnswerValue(v.answerValue);
      if Finite(answer) == solution then
        if added.None? then v.(redirect := Some("/login"))
        else ToContinue(ShowCorrect(v, added.value))
      else ToContinue(ShowWrong(v, answer, solution))
  }

  /** The first step of `continueClicking`: the mark of the last answer goes. */
  function ClearMark(v: View): View {
    v.(buttonClasses := if "continueGood" in v.buttonClasses then v.buttonClasses - {"continueGood"}
                        else v.buttonClasses - {"continueWrong"})
  }

  /** The new question with an empty answer field. */
  function ShowQuestion(v: View, q: Question): View {
    v.(operationText := OperationText(q), answerShown := true, answerValue := None,
       answerDataShown := false, buttonLabel := "Submit")
  }

  /** The end of `continueClicking` number `closure`: the next click submits. */
  function ToSubmit(v: View, closure: nat): View {
    v.(listeners := AddListener(RemoveListener(v.listeners, ContinueClicking(closure)), SubmitClicking))
  }

  /**
   * The closure `continueClicking` number `closure`. A failed request throws out of
   * the listener before it swaps back, and the button stays in continue mode.
   */
  function ContinueSpec(v: View, closure: nat, me: Me): View {
    var v1 := ClearMark(v);
    if me.MeFailed? then v1
    else if me.ok && me.profile.Some? then ToSubmit(ShowQuestion(v1, me.profile.value.question), closure)
    else ToSubmit(v1, closure)
  }

  /** A click when the button has one listener. */
  function ClickSpec(v: View, me: Me, added: Option<int>): View
    requires |v.listeners| == 1
  {
    match v.listeners[0]
    case SubmitClicking => SubmitSpec(v, me, added)
    case ContinueClicking(c) => ContinueSpec(v, c, me)
  }

  /** The button has exactly one listener, and a continue closure is one already made. */
  predicate OneListener(v: View) {
    |v.listeners| == 1 && (v.listeners[0].ContinueClicking? ==> v.listeners[0].closure < v.nextClosure)
  }

  /** A submit that reaches the end: the profile arrives, and a correct answer's honey arrives too. */
  predicate SubmitCompletes(v: View, me: Me, added: Option<int>) {
    me.MeReply? && me.ok && me.profile.Some? &&
    (Finite(AnswerValue(v.answerValue)) == Solution(me.profile.value.question) ==> added.Some?)
  }

  /** A completed submit leaves the button wired only to a new continue closure. */
  lemma SubmitSwaps(v: View, me: Me, added: Option<int>)
    requires v.listeners == [SubmitClicking]
    requires SubmitCompletes(v, me, added)
    ensures SubmitSpec(v, me, added).listeners == [ContinueClicking(v.nextClosure)]
    ensures SubmitSpec(v, me, added).nextClosure == v.nextClosure + 1
  {
    assert RemoveListener([SubmitClicking], SubmitClicking) == [];
    var solution := Solution(me.profile.value.question);
    var answer := AnswerValue(v.answerValue);
    var w := if Finite(answer) == solution then ShowCorrect(v, added.value) else ShowWrong(v, answer, solution);
    assert w.listeners == v.listeners && w.nextClosure == v.nextClosure;
  }

  /** Any other submit sends the page to the login and leaves the listeners alone. */
  lemma SubmitStays(v: View, me: Me, added: Option<int>)
    requires !SubmitCompletes(v, me, added)
    ensures SubmitSpec(v, me, added).listeners == v.listeners
    ensures SubmitSpec(v, me, added).redirect == Some("/login")
  {
  }

  /**
   * A completed submit grows both counters by exactly the honey added when the
   * answer is right, and leaves them as they were when it is wrong; the lines shown
   * say which, and the answer field hides.
   */
  lemma SubmitCounts(v: View, me: Me, added: Option<int>)
    requires SubmitCompletes(v, me, added)
    ensures var w := SubmitSpec(v, me, added);
            var solution := Solution(me.profile.value.question);
            var answer := AnswerValue(v.answerValue);
            && !w.answerShown && w.answerDataShown && w.buttonLabel == "Next" && w.redirect == v.redirect
            && (Finite(answer) == solution ==>
                  && w.todayBefore == Add(v.todayBefore, Finite(added.value))
                  && w.honeyBefore == Add(v.honeyBefore, Finite(added.value))
                  && w.answerLines == CorrectLines(added.value)
                  && "continueGood" in w.buttonClasses)
            && (Finite(answer) != solution ==>
                  && w.todayBefore == v.todayBefore && w.honeyBefore == v.honeyBefore
                  && w.answerLines == WrongLines(answer, solution)
                  && "continueWrong" in w.buttonClasses)
  {
  }

  /** A continue whose request succeeds leaves the button wired only to submit; a failed one leaves it as it was. */
  lemma ContinueSwaps(v: View, c: nat, me: Me)
    requires v.listeners == [ContinueClicking(c)]
    ensures me.MeReply? ==> ContinueSpec(v, c, me).listeners == [SubmitClicking]
    ensures me.MeFailed? ==> ContinueSpec(v, c, me).listeners == v.listeners
    ensures ContinueSpec(v, c, me).nextClosure == v.nextClosure
  {
    assert RemoveListener([ContinueClicking(c)], ContinueClicking(c)) == [];
  }

  /**
   * The button alternates between submit and continue, and it always has a single
   * listener: a click never wires it to both.
   */
  lemma ClickAlternates(v: View, me: Me, added: Option<int>)
    requires OneListener(v)
    ensures OneListener(ClickSpec(v, me, added))
    ensures v.listeners[0] == SubmitClicking ==>
              ClickSpec(v, me, added).listeners ==
                (if SubmitCompletes(v, me, added) then [ContinueClicking(v.nextClosure)] else [SubmitClicking])
    ensures v.listeners[0].ContinueClicking? ==>
              ClickSpec(v, me, added).listeners == (if me.MeReply? then [SubmitClicking] else v.listeners)
  {
    var l := v.listeners[0];
    assert v.listeners == [l];
    match l
    case SubmitClicking =>
      if SubmitCompletes(v, me, added) { SubmitSwaps(v, me, added); } else { SubmitStays(v, me, added); }
    case ContinueClicking(c) => ContinueSwaps(v, c, me);
  }

  /** The gains a run of correct answers adds to a counter, as `+=` does. */
  function Accumulate(start: Num, gains: seq<int>): Num
    decreases |gains|
  {
    if gains == [] then start else Accumulate(Add(start, Finite(gains[0])), gains[1..])
  }

  function Total(gains: seq<int>): int {
    if gains == [] then 0 else gains[0] + Total(gains[1..])
  }

  /**
   * The "Today" counter is the server's count at load plus every reward since;
   * when the profile has no `todayHoney` (as a fresh signup's has not) it reads
   * NaN and stays NaN.
   */
  lemma {:induction false} TodayCounter(start: Num, gains: seq<int>)
    ensures start.Finite? ==> Accumulate(start, gains) == Finite(start.value + Total(gains))
    ensures start.NaN? ==> Accumulate(start, gains) == NaN
    decreases |gains|
  {
    if gains != [] {
      TodayCounter(Add(start, Finite(gains[0])), gains[1..]);
    }
  }

  /** The first check adds the profile's counts to the zero counters and shows its question. */
  lemma FirstCheckLoads(v: View, p: Profile)
    requires v.firstTime && v.todayBefore == Finite(0) && v.honeyBefore == Finite(0)
    ensures var w := CheckSessionSpec(v, MeReply(true, Some(p)));
            && w.todayBefore == NumberOf(p.todayHoney)
            && w.honeyBefore == Finite(p.honey)
            && w.operationText == OperationText(p.question)
            && !w.firstTime && w.redirect == v.redirect
    ensures CheckSessionSpec(CheckSessionSpec(v, MeReply(true, Some(p))), MeReply(true, Some(p))) ==
            CheckSessionSpec(v, MeReply(true, Some(p)))
  {
  }

  /** The page script. */
  class Page {
    var firstTime: bool
    var enterPressed: bool
    var todayBefore: Num
    var honeyBefore: Num
    var listeners: seq<Listener>
    var nextClosure: nat
    var buttonLabel: string
    var buttonClasses: set<string>
    var answerShown: bool
    var answerValue: Option<int>
    var answerDataShown: bool
    var answerLines: seq<string>
    var operationText: string
    var redirect: Option<string>

    function State(): View
      reads this
    {
      View(firstTime, enterPressed, todayBefore, honeyBefore, listeners, nextClosure, buttonLabel,
           buttonClasses, answerShown, answerValue, answerDataShown, answerLines, operationText, redirect)
    }

    /** The page as loaded; `buttonText` and `operation` are the texts of the markup. */
    constructor(buttonText: string, operation: string)
      ensures State() == View(true, false, Finite(0), Finite(0), [SubmitClicking], 0, buttonText, {},
                              true, None, false, [], operation, None)
      ensures OneListener(State())
    {
      firstTime := true;
      enterPressed := false;
      todayBefore := Finite(0);
      honeyBefore := Finite(0);
      listeners := [SubmitClicking];
      nextClosure := 0;
      buttonLabel := buttonText;
      buttonClasses := {};
      answerShown := true;
      answerValue := None;
      answerDataShown := false;
      answerLines := [];
      operationText := operation;
      redirect := None;
    }

    /** The `keydown` listener; `clicked` says whether it clicks the submit button. */
    method OnKeyDown(key: string) returns (clicked: bool)
      modifies this
      ensures (enterPressed, clicked) == LatchStep(old(enterPressed), KeyDown(key))
      ensures State() == old(State()).(enterPressed := enterPressed)
    {
      clicked := false;
      if key == "Enter" && !enterPressed {
        enterPressed := true;
        clicked := true;
      }
    }

    /** The `keyup` listener. */
    method OnKeyUp(key: string)
      modifies this
      ensures (enterPressed, false) == LatchStep(old(enterPressed), KeyUp(key))
      ensures State() == old(State()).(enterPressed := enterPressed)
    {
      if key == "Enter" {
        enterPressed := false;
      }
    }

    /** The user types an answer (`None` for an empty field). */
    method Type(answer: Option<int>)
      modifies this
      ensures State() == old(State()).(answerValue := answer)
    {
      answerValue := answer;
    }

    method CheckSession(me: Me)
      modifies this
      ensures State() == CheckSessionSpec(old(State()), me)
    {
      if me.MeFailed? {
        redirect := Some("/login");
      } else if me.ok && me.profile.Some? && firstTime {
        var p := me.profile.value;
        todayBefore := Add(todayBefore, NumberOf(p.todayHoney));
        honeyBefore := Add(honeyBefore, Finite(p.honey));
        operationText := OperationText(p.question);
        firstTime := false;
      } else if !me.ok || me.profile.None? {
        redirect := Some("/login");
      }
    }

    /** The end of `submitClicking`: the listener swap. */
    method SwapToContinue()
      modifies this
      ensures State() == ToContinue(old(State()))
    {
      listeners := AddListener(RemoveListener(listeners, SubmitClicking), ContinueClicking(nextClosure));
      nextClosure := nextClosure + 1;
    }

    method AddGain(added: int)
      modifies this
      ensures State() == Gain(old(State()), added)
    {
      todayBefore := Add(todayBefore, Finite(added));
      honeyBefore := Add(honeyBefore, Finite(added));
    }

    method ShowAnswer(mark: string, lines: seq<string>)
      modifies this
      ensures State() == Reveal(old(State()), mark, lines)
    {
      buttonClasses := buttonClasses + {mark};
      buttonLabel := "Next";
      answerShown := false;
      answerDataShown := true;
      answerLines := lines;
    }

    method Submit(me: Me, added: Option<int>)
      modifies this
      ensures State() == SubmitSpec(old(State()), me, added)
    {
      if me.MeFailed? || !me.ok || me.profile.None? {
        redirect := Some("/login");
        return;
      }
      var solution := Solution(me.profile.value.question);
      var answer := AnswerValue(answerValue);
      if Finite(answer) == solution {
        if added.None? {
          redirect := Some("/login");
          return;
        }
        AddGain(added.value);
        ShowAnswer("continueGood", CorrectLines(added.value));
      } else {
        ShowAnswer("continueWrong", WrongLines(answer, solution));
      }
      SwapToContinue();
    }

    method RemoveMark()
      modifies this
      ensures State() == ClearMark(old(State()))
    {
      if "continueGood" in buttonClasses {
        buttonClasses := buttonClasses - {"continueGood"};
      } else {
        buttonClasses := buttonClasses - {"continueWrong"};
      }
    }

    method LoadQuestion(q: Question)
      modifies this
      ensures State() == ShowQuestion(old(State()), q)
    {
      operationText := OperationText(q);
      answerShown := true;
      answerValue := None;
      answerDataShown := false;
      buttonLabel := "Submit";
    }

    method SwapToSubmit(closure: nat)
      modifies this
      ensures State() == ToSubmit(old(State()), closure)
    {
      listeners := AddListener(RemoveListener(listeners, ContinueClicking(closure)), SubmitClicking);
    }

    method Continue(closure: nat, me: Me)
      modifies this
      ensures State() == ContinueSpec(old(State()), closure, me)
    {
      RemoveMark();
      if me.MeFailed? {
        return;
      }
      if me.ok && me.profile.Some? {
        LoadQuestion(me.profile.value.question);
      }
      SwapToSubmit(closure);
    }

    /** A click on the submit button runs its one listener. */
    method Click(me: Me, added: Option<int>)
      requires OneListener(State())
      modifies this
      ensures State() == ClickSpec(old(State()), me, added)
      ensures OneListener(State())
    {
      ClickAlternates(State(), me, added);
      match listeners[0]
      case SubmitClicking => Submit(me, added);
      case ContinueClicking(c) => Continue(c, me);
    }
  }
}

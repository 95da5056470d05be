/**
 * The arithmetic questions: the two server generators (`/api/change-question`
 * and the copy inside `/api/signup`, api/server.js) and the browser's answer
 * check (api/public/questions.js). `rt`, `ra` and `rb` are the three
 * `Math.random()` draws a generator makes, in the order the code makes them.
 */
module Questions {
  import opened Wrappers
  import opened JsMath

  /** A user's `actualQuestion`: its `type` string and the two operands. */
  datatype Question = Question(kind: string, n1: int, n2: int)

  /** What either generator can produce for a type, and what the client relies on. */
  predicate WellFormed(q: Question) {
    || (q.kind == "sum" && 1 <= q.n1 <= 100 && 1 <= q.n2 <= 100)
    || (q.kind == "subtraction" && 1 <= q.n2 <= q.n1 <= 100)
    || (q.kind == "multiplication" && 1 <= q.n1 <= 11 && 1 <= q.n2 <= 11)
    || (q.kind == "division" && 1 <= q.n2 <= 11 && q.n1 % q.n2 == 0 && 1 <= q.n1 / q.n2 <= 11)
  }

  /** The generator of `/api/change-question`: subtraction operands are put in order by a swap. */
  function ChangeQuestion(rt: Unit, ra: Unit, rb: Unit): Question {
    var t := FloorTimes(rt, 4);
    if t == 0 then
      Question("sum", FloorTimes(ra, 100) + 1, FloorTimes(rb, 100) + 1)
    else if t == 1 then
      var a, b := FloorTimes(ra, 100) + 1, FloorTimes(rb, 100) + 1;
      if a < b then Question("subtraction", b, a) else Question("subtraction", a, b)
    else if t == 2 then
      Question("multiplication", FloorTimes(ra, 11) + 1, FloorTimes(rb, 11) + 1)
    else
      var n2 := FloorTimes(ra, 11) + 1;
      Question("division", (FloorTimes(rb, 11) + 1) * n2, n2)
  }

  /**
   * The generator inside `/api/signup`, as written: its subtraction "swap" copies
   * the smaller operand into `n2` and then copies `n2` back into `n1`.
   */
  function SignupQuestion(rt: Unit, ra: Unit, rb: Unit): Question {
    var t := FloorTimes(rt, 4);
    if t == 1 then
      var a, b := FloorTimes(ra, 100) + 1, FloorTimes(rb, 100) + 1;
      if a < b then Question("subtraction", a, a) else Question("subtraction", a, b)
    else
      ChangeQuestion(rt, ra, rb)
  }

  /** Every question change-question makes is well formed. */
  lemma ChangeQuestionWellFormed(rt: Unit, ra: Unit, rb: Unit)
    ensures WellFormed(ChangeQuestion(rt, ra, rb))
  {
    var q := ChangeQuestion(rt, ra, rb);
    if q.kind == "division" {
      var k := FloorTimes(rb, 11) + 1;
      DivUnique(k * q.n2, q.n2, k, 0);
    }
  }

  /** Conversely, every well-formed question is one that change-question can make. */
  lemma ChangeQuestionOnto(q: Question)
    requires WellFormed(q)
    ensures exists rt: Unit, ra: Unit, rb: Unit :: ChangeQuestion(rt, ra, rb) == q
  {
    if q.kind == "sum" {
      OntoBy(q, 0, 100, q.n1 - 1, q.n2 - 1);
    } else if q.kind == "subtraction" {
      OntoBy(q, 1, 100, q.n1 - 1, q.n2 - 1);
    } else if q.kind == "multiplication" {
      OntoBy(q, 2, 11, q.n1 - 1, q.n2 - 1);
    } else {
      DivUnique(q.n1, q.n2, q.n1 / q.n2, 0);
      OntoBy(q, 3, 11, q.n2 - 1, q.n1 / q.n2 - 1);
    }
  }

  /** Draws that floor to `t`, `x` and `y` exist; when those make `q`, change-question can make it. */
  lemma OntoBy(q: Question, t: nat, m: nat, x: int, y: int)
    requires t < 4 && 0 <= x < m && 0 <= y < m
    requires t == 0 ==> q == Question("sum", x + 1, y + 1) && m == 100
    requires t == 1 ==> q == Question("subtraction", x + 1, y + 1) && y <= x && m == 100
    requires t == 2 ==> q == Question("multiplication", x + 1, y + 1) && m == 11
    requires t == 3 ==> q == Question("division", (y + 1) * (x + 1), x + 1) && m == 11
    ensures exists rt: Unit, ra: Unit, rb: Unit :: ChangeQuestion(rt, ra, rb) == q
  {
    FloorTimesOnto(4, t);
    FloorTimesOnto(m, x);
    FloorTimesOnto(m, y);
    var rt: Unit :| FloorTimes(rt, 4) == t;
    var ra: Unit :| FloorTimes(ra, m) == x;
    var rb: Unit :| FloorTimes(rb, m) == y;
    assert ChangeQuestion(rt, ra, rb) == q;
  }

  /**
   * The signup generator agrees with change-question except on a subtraction whose
   * first draw is the smaller: there both operands become that smaller operand.
   */
  lemma SignupQuestionCollapses(rt: Unit, ra: Unit, rb: Unit)
    ensures var a, b := FloorTimes(ra, 100) + 1, FloorTimes(rb, 100) + 1;
            if FloorTimes(rt, 4) == 1 && a < b
            then SignupQuestion(rt, ra, rb) == Question("subtraction", a, a) &&
                 ChangeQuestion(rt, ra, rb) == Question("subtraction", b, a)
            else SignupQuestion(rt, ra, rb) == ChangeQuestion(rt, ra, rb)
  {
  }

  /** Draws 1/4, 0 and 1/2 give change-question `51 - 1` and the signup copy `1 - 1`. */
  lemma SignupSwapCounterexample()
    ensures SignupQuestion(0.25, 0.0, 0.5) == Question("subtraction", 1, 1)
    ensures ChangeQuestion(0.25, 0.0, 0.5) == Question("subtraction", 51, 1)
  {
    assert FloorTimes(0.25, 4) == 1;
    assert FloorTimes(0.0, 100) == 0;
    assert FloorTimes(0.5, 100) == 50;
  }

  /** The client's answer for a question (`Math.trunc(n1 / n2)` for every other type). */
  function Solution(q: Question): Num {
    if q.kind == "sum" then Finite(q.n1 + q.n2)
    else if q.kind == "subtraction" then Finite(q.n1 - q.n2)
    else if q.kind == "multiplication" then Finite(q.n1 * q.n2)
    else TruncQuotient(q.n1, q.n2)
  }

  /** The operator shown between the operands. */
  function OperatorSymbol(kind: string): string {
    if kind == "sum" then "+"
    else if kind == "subtraction" then "-"
    else if kind == "multiplication" then "x"
    else "/"
  }

  /** The shown operator names the operation the client's solution performs. */
  lemma SolutionFollowsSymbol(q: Question)
    ensures OperatorSymbol(q.kind) == "+" ==> Solution(q) == Finite(q.n1 + q.n2)
    ensures OperatorSymbol(q.kind) == "-" ==> Solution(q) == Finite(q.n1 - q.n2)
    ensures OperatorSymbol(q.kind) == "x" ==> Solution(q) == Finite(q.n1 * q.n2)
    ensures OperatorSymbol(q.kind) == "/" ==> Solution(q) == TruncQuotient(q.n1, q.n2)
  {
  }

  /**
   * Every well-formed question has a whole, non-negative solution; a division's is
   * its exact quotient, so truncating loses nothing.
   */
  lemma WellFormedSolution(q: Question)
    requires WellFormed(q)
    ensures Solution(q).Finite? && Solution(q).value >= 0
    ensures q.kind == "division" ==> Solution(q).value * q.n2 == q.n1 && Solution(q).value == q.n1 / q.n2
  {
    if q.kind == "division" {
      var k := q.n1 / q.n2;
      assert q.n1 == k * q.n2;
      TruncDivExact(k, q.n2);
    }
  }

  /** A generated division `n1 / n2` with `n1 = k * n2` has solution `k`. */
  lemma GeneratedDivisionExact(rt: Unit, ra: Unit, rb: Unit)
    requires FloorTimes(rt, 4) == 3
    ensures var k := FloorTimes(rb, 11) + 1;
            Solution(ChangeQuestion(rt, ra, rb)) == Finite(k) && 1 <= k <= 11
  {
    TruncDivExact(FloorTimes(rb, 11) + 1, FloorTimes(ra, 11) + 1);
  }

  /** `answer.value || 0`: an empty answer field counts as 0. */
  function AnswerValue(answer: Option<int>): int {
    answer.GetOr(0)
  }

  /** `answer == solution` */
  predicate IsCorrect(q: Question, answer: Option<int>) {
    Solution(q) == Finite(AnswerValue(answer))
  }

  /** An empty field is a correct answer exactly when the solution is 0, the case of every collapsed signup subtraction. */
  lemma EmptyAnswer(q: Question, rt: Unit, ra: Unit, rb: Unit)
    ensures IsCorrect(q, None) <==> Solution(q) == Finite(0)
    ensures FloorTimes(rt, 4) == 1 && FloorTimes(ra, 100) < FloorTimes(rb, 100) ==>
              IsCorrect(SignupQuestion(rt, ra, rb), None)
  {
  }
}

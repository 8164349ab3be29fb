/**
 * The quiz corner's session state: two operands, their gcd, whether the
 * question has been answered and whether the worked solution is offered.
 * The operands are the values the random draw produced; they are passed in.
 */
module Quiz {
  import opened NumberTheory
  import GcdEngine

  /** The range each quiz operand is drawn from: random.randint(10, 50). */
  const MinOperand: nat := 10
  const MaxOperand: nat := 50

  predicate InRange(n: nat) {
    MinOperand <= n <= MaxOperand
  }

  class QuizState {
    var quizNum1: nat
    var quizNum2: nat
    var quizGcd: nat
    var quizAnswered: bool
    var showQuizSolution: bool

    /** The operands come from the drawing range and the stored answer is their gcd. */
    ghost predicate Valid()
      reads this
    {
      InRange(quizNum1) && InRange(quizNum2) && IsGcd(quizGcd, quizNum1, quizNum2)
    }

    /** The state created on the first page load of a session. */
    constructor (n1: nat, n2: nat)
      requires InRange(n1) && InRange(n2)
      ensures Valid()
      ensures quizNum1 == n1 && quizNum2 == n2
      ensures !quizAnswered && !showQuizSolution
    {
      new;
      Initialize(n1, n2);
    }

    /** A fresh, unanswered question over the drawn operands. */
    method Initialize(n1: nat, n2: nat)
      requires InRange(n1) && InRange(n2)
      modifies this
      ensures Valid()
      ensures quizNum1 == n1 && quizNum2 == n2
      ensures !quizAnswered && !showQuizSolution
    {
      quizNum1 := n1;
      quizNum2 := n2;
      quizGcd := GcdEngine.Gcd(n1, n2);
      quizAnswered := false;
      showQuizSolution := false;
    }

    /**
     * The answer button, enabled only while the question is unanswered: the
     * question becomes answered, and the solution is offered exactly when
     * the answer is not the gcd of the operands.
     */
    method SubmitAnswer(answer: nat)
      requires Valid() && !quizAnswered
      modifies this
      ensures Valid() && quizAnswered
      ensures showQuizSolution == (answer != quizGcd)
      ensures showQuizSolution <==> !IsGcd(answer, quizNum1, quizNum2)
      ensures quizNum1 == old(quizNum1) && quizNum2 == old(quizNum2) && quizGcd == old(quizGcd)
    {
      quizAnswered := true;
      if answer == quizGcd {
        showQuizSolution := false;
      } else {
        showQuizSolution := true;
        if IsGcd(answer, quizNum1, quizNum2) {
          GcdUnique(answer, quizGcd, quizNum1, quizNum2);
        }
      }
    }

    /** The next-question button: the old question is discarded for a fresh one. */
    method NextQuestion(n1: nat, n2: nat)
      requires InRange(n1) && InRange(n2)
      modifies this
      ensures Valid()
      ensures quizNum1 == n1 && quizNum2 == n2
      ensures !quizAnswered && !showQuizSolution
    {
      Initialize(n1, n2);
    }
  }
}

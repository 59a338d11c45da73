/** Operator answers to yes/no prompts. The answers are given up front, in the order the
    questions are asked; once they run out, every further question takes its default. */
module Prompts {

  /** The answer to one question and the answers still unread. */
  datatype Asked = Asked(answer: bool, rest: seq<bool>)

  function Ask(answers: seq<bool>, default: bool): (a: Asked)
    ensures |a.rest| == if |answers| == 0 then 0 else |answers| - 1
    ensures a.answer == if |answers| == 0 then default else answers[0]
  {
    if |answers| == 0 then Asked(default, []) else Asked(answers[0], answers[1..])
  }
}

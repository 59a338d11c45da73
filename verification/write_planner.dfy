/** Whether a command may write a generated file (`shouldWriteFile`): a missing file is
    always written, `--force` or `--overwrite` always write, identical content is written
    without asking, and only a file whose content differs makes the operator decide. */
module WritePlanner {
  import opened Wrappers
  import opened Prompts

  /** The decision, whether the operator was asked, and the answers left. */
  datatype Decision = Decision(write: bool, prompted: bool, answers: seq<bool>)

  /** `GenerateCommand.shouldWriteFile`; `existing` is the target's current content. */
  function ShouldWriteFile(existing: Option<string>, content: string, force: bool, overwrite: bool,
                           answers: seq<bool>): (d: Decision)
    ensures d.prompted <==> existing.Some? && !force && !overwrite && existing.value != content
    ensures !d.prompted ==> d.write && d.answers == answers
    ensures d.prompted ==> d.write == (|answers| > 0 && answers[0])
    ensures d.prompted ==> |d.answers| == if |answers| == 0 then 0 else |answers| - 1
  {
    if existing.None? then Decision(true, false, answers)
    else if overwrite || force then Decision(true, false, answers)
    else if existing.value == content then Decision(true, false, answers)
    else
      var a := Ask(answers, false);
      Decision(a.answer, true, a.rest)
  }

  /** `ComposeCommand.shouldWriteFile`: the same order of checks without `--overwrite`. */
  function ComposeShouldWriteFile(existing: Option<string>, content: string, force: bool,
                                  answers: seq<bool>): (d: Decision)
    ensures d.prompted <==> existing.Some? && !force && existing.value != content
    ensures !d.prompted ==> d.write && d.answers == answers
    ensures d.prompted ==> d.write == (|answers| > 0 && answers[0])
  {
    ShouldWriteFile(existing, content, force, false, answers)
  }

  /** A file is skipped only if it exists with different content, nothing forced the write,
      and the operator said no (or gave no answer). */
  lemma SkipMeansDeclined(existing: Option<string>, content: string, force: bool, overwrite: bool,
                          answers: seq<bool>)
    ensures !ShouldWriteFile(existing, content, force, overwrite, answers).write <==>
              existing.Some? && existing.value != content && !force && !overwrite
              && (|answers| == 0 || !answers[0])
  {}

  /** Writing the same content again never asks: a second run over unchanged inputs finds
      every target identical to what it would write. */
  lemma RewriteIsSilent(content: string, force: bool, overwrite: bool, answers: seq<bool>)
    ensures ShouldWriteFile(Some(content), content, force, overwrite, answers) == Decision(true, false, answers)
  {}
}

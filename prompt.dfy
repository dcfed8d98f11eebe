/** The prompt `main` writes before reading each line: the first PROMPT_LEN
    characters of PROMPT. */
module Prompt {
  /** PROMPT. */
  const PromptText: string := "mini-bash $ "
  /** PROMPT_LEN as the program defines it. */
  const PromptLenAsWritten: int := 11
  /** PROMPT_LEN as it evidently should be: the length of PROMPT. */
  const PromptLen: int := |PromptText|

  /** The characters `write(STDOUT_FILENO, PROMPT, len)` sends for a length within PROMPT. */
  function WrittenPrompt(len: int): (w: string)
    requires 0 <= len <= |PromptText|
    ensures |w| == len && PromptText == w + PromptText[len..]
  {
    PromptText[..len]
  }

  /** With PROMPT_LEN = 11 the trailing space of the 12-character prompt is not written. */
  lemma PromptAsWrittenDropsSpace()
    ensures |PromptText| == 12
    ensures WrittenPrompt(PromptLenAsWritten) == "mini-bash $"
    ensures WrittenPrompt(PromptLenAsWritten) != PromptText
  {
  }

  /** With PROMPT_LEN the length of PROMPT the whole prompt is written. */
  lemma PromptWrittenWhole()
    ensures WrittenPrompt(PromptLen) == PromptText
  {
  }
}

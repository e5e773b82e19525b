/** The two scripts share one pipeline and differ in a few patterns and policies. This module names
    those differences; `Deepseek` and `EnGr` instantiate them as each script's text has them. */
module Scripts {
  import opened Text

  /** What may stand between `<br` and the optional `/` of a line-break boundary tag. */
  datatype BreakGap =
    | Whitespace          // `<br\s*/?>`: a run of whitespace
    | BackslashThenEsses  // `<br\\s*/?>`: one literal backslash, then a run of the letter s

  /** The character class counted as Greek by the quality gate. */
  datatype GreekClass =
    | GreekBlocks         // U+0370-U+03FF and U+1F00-U+1FFF
    | DigitsToBackslash   // U+0030-U+005C and `u`: what the doubled backslashes spell

  /** Which HTTP statuses the service client rejects. */
  datatype StatusPolicy =
    | RejectFrom400       // 429 is rate limiting; any status of 400 or more is an error
    | RejectAllBut200     // any status other than 200 is an error

  datatype Script = Script(gap: BreakGap, greek: GreekClass, status: StatusPolicy, checksEmptySlots: bool)

  /** translate_epub_gui_to_greek_fast_progress_deepseek.py */
  const Deepseek := Script(BackslashThenEsses, DigitsToBackslash, RejectFrom400, true)

  /** en-gr_epub_translator.py */
  const EnGr := Script(Whitespace, GreekBlocks, RejectAllBut200, false)

  predicate IsGapChar(sc: Script, c: char) {
    match sc.gap
    case Whitespace => IsSpace(c)
    case BackslashThenEsses => FoldEq(c, 's')
  }

  predicate IsGreek(sc: Script, c: char) {
    match sc.greek
    case GreekBlocks => ('\U{370}' <= c <= '\U{3FF}') || ('\U{1F00}' <= c <= '\U{1FFF}')
    case DigitsToBackslash => ('0' <= c <= '\\') || c == 'u'
  }

  /** The tunables both scripts read (from the environment in the Deepseek script, as constants
      in the en-gr script). */
  datatype Settings = Settings(
    maxWorkers: int,          // MAX_WORKERS
    retryCount: int,          // RETRY_COUNT
    maxTokensPerChunk: int,   // MAX_TOKENS_PER_CHUNK
    charsPerToken: int,       // CHARS_PER_TOKEN
    repairPasses: int,        // REPAIR_PASSES
    minGreekRatio: real,      // GREEK_MIN_RATIO
    maxEnglishRuns: int,      // MAX_ENGLISH_RUNS
    contextTailChars: int     // CONTEXT_TAIL_CHARS
  )

  /** The defaults, the same in both scripts. */
  const Defaults := Settings(8, 3, 500, 4, 1, 0.90, 0, 800)
}

# A verified model of the Minecraft plugin translator

`mc_plugin_translator.py` translates the text of a game plugin's YAML file. It leaves alone the
parts that must not change: placeholders like `{player}`, `%money%` or `$name`, and game terms
like `Chunk` or `PvP`. The pipeline has five stages:

1. If the YAML does not parse, it quotes the values that break it, line by line.
2. It walks the document. Every string is masked: placeholders become `__PH<n>__` tokens and game
   terms become `__MT<n>__` tokens.
3. The masked string goes to the available translation engines, with retries and fallback from
   one engine to the next. The translation is unmasked afterwards.
4. It repairs each translated string: single spacing, `''` becomes `’`, and game terms get their
   canonical casing back.
5. It audits the result for `None` values and leftover tokens.

This project models those five stages in Dafny and proves what each one promises.

The modules, each in its own file, follow the program's structure:

- `Text` (text.dfy). The Python string operations the program relies on: `str.isspace`,
  the `\w` class, `lower`, `replace`, `split`, `join` and `str(n)`.
- `Terms` (terms.dfy). `MINECRAFT_TERMS` and `LOWER_TERMS`.
- `Tokens` (tokens.dfy). The tokens `__PH<n>__` and `__MT<n>__`, and the "marker" condition that
  the round trip needs.
- `Pieces` and `Scan` (pieces.dfy, scan.dfy). The two substitution passes of `mask_text`: the
  placeholder regex, then the term regex. Each pass is a function from text to a list of
  pieces, where a piece is a kept character or a token together with the text it replaced.
- `Masking` (masking.dfy). `mask_text` and `unmask_text`. `TokenMap` is the caller's `mapping`
  dictionary, as a class the methods update. The round trip from masked text back to the
  original is proved here.
- `Gateway` (gateway.dfy). The control flow of `translate_one`: the engine list, `MAX_RETRIES`
  attempts per engine, the first success, or else the last error.
- `Orchestrator` (orchestrator.dfy). `translate_string`, with the `PROGRESS` counters as a
  `Progress` object.
- `Document` and `TranslateTree` (document.dfy, translate_tree.dfy). The YAML tree, and
  `translate_value` threading the engine clock and the counters through it.
- `PostFix` (postfix.dfy). `post_fix_translated_content`.
- `Sanity` (sanity.dfy). `final_sanity_check`, with its `problems` list as an `Audit` object.
- `YamlFix` (yaml_fix.dfy). `fix_yaml_content`, and how YAML reads the quoted values back.

Translation engines are not code the model can see. An engine is a parameter
`service: (EngineId, text, dest, clock) -> Outcome`. `clock` counts the engine calls made so
far, so repeated calls can give different answers while staying deterministic. A timeout or an
exception is a `Failure(error)`. The iteration order of the set `MINECRAFT_TERMS` is a
parameter `order`, because Python leaves it unspecified.

## Model

| member | source | states |
|---|---|---|
| Tokens.TokenShape | mc_plugin_translator.py:175 | A token is `__`, the tag `PH` or `MT`, the decimal digits of its number and `__`; every character is a word character. |
| Tokens.TokenInjective | mc_plugin_translator.py:175-187 | Two tokens are equal exactly when they have the same tag and number. |
| Terms.TermsAreLetters | mc_plugin_translator.py:47-54 | Every protected term is a non-empty run of ASCII letters. |
| Terms.LowerTermsAreLetters | mc_plugin_translator.py:55 | Every lower-case term is a non-empty run of ASCII letters. |
| Scan.PlaceholderLenSpec | mc_plugin_translator.py:57 | At a position the regex matches a placeholder of the three forms, the longest one there, or nothing. |
| Scan.PlaceholderScanFacts | mc_plugin_translator.py:171-181 | The placeholder pass keeps all of the text, numbers its tokens consecutively from the counter, and every token stands for a placeholder. |
| Scan.PlaceholderEntries | mc_plugin_translator.py:174-178 | Entry `j` of the placeholder pass is `__PH<n+j>__` and holds the placeholder it replaced. |
| Scan.PlaceholderScanComplete | mc_plugin_translator.py:57 | The placeholder pass misses none: no placeholder starts at the place of any character it keeps. |
| Scan.PlaceholderScanLit | mc_plugin_translator.py:57 | A kept character of the placeholder pass is the text's character at its place, and no placeholder starts there. |
| Scan.TermScanFacts | mc_plugin_translator.py:58-61 | The term pass keeps all of the text, numbers its tokens consecutively, and every token stands for a word whose lower case is a term. |
| Scan.TermScanTokens | mc_plugin_translator.py:58-61 | Every token of the term pass stands, at its place in the text, for a whole word: a run of word characters with no word character just before or after it. |
| Scan.TermScanTokWord | mc_plugin_translator.py:58-61 | Token `j` of the term pass is a whole word of the text at its offset. |
| Scan.TermScanTok | mc_plugin_translator.py:58-61 | The text at the place of a token of the term pass is a run of word characters bounded by non-word characters or the ends of the text. |
| Scan.TermScanTokText | mc_plugin_translator.py:58-61 | The text at a token's offset is the original word the token replaced. |
| Scan.TermScanComplete | mc_plugin_translator.py:58-61 | The term pass misses no term: every whole word of the text whose lower case is a term is a token, at its place and with its original spelling. |
| Scan.TermScanFinds | mc_plugin_translator.py:58-61 | One whole word whose lower case is a term is a token of the term pass at its offset. |
| Scan.TermEntries | mc_plugin_translator.py:183-191 | Entry `j` of the term pass is `__MT<n+j>__` and holds the word in its original casing. |
| Masking.MaskEntries | mc_plugin_translator.py:171-193 | The recorded entries are the placeholder tokens numbered from `len(mapping)`, then the term tokens numbered on from there. |
| Masking.MaskKeysDistinct | mc_plugin_translator.py:171-193 | No token is recorded twice. |
| Masking.PutSpec | mc_plugin_translator.py:177 | Storing under a new key appends the entry; storing under an existing key replaces that entry's value in place. |
| Masking.PutAllFresh | mc_plugin_translator.py:171-193 | Storing entries whose keys are all new appends them in order, so existing entries are kept. |
| Masking.MaskFresh | mc_plugin_translator.py:171-193 | Masking into an empty mapping leaves exactly the recorded entries in it. |
| Masking.TokenMap.constructor | mc_plugin_translator.py:267 | A fresh mapping is empty. |
| Masking.MaskKeepsEntries | mc_plugin_translator.py:171-193 | When the mapping's keys are distinct and none is a token numbered from the mapping's size on, storing the recorded entries appends them and leaves every earlier entry in place. |
| Masking.MaskText | mc_plugin_translator.py:171-193 | The masked text, with both passes run and the counter starting at the mapping's size; every recorded entry is stored into the mapping. If no earlier key is a token numbered from that size on, the earlier entries stay, unchanged, as a prefix. |
| Masking.MaskTextWith | mc_plugin_translator.py:171-193 | `MaskText` with the term test taken from a given vocabulary. |
| Masking.UnmaskText | mc_plugin_translator.py:196-199 | Each token is replaced everywhere by its original, in the mapping's order. |
| Masking.RoundTrip | mc_plugin_translator.py:171-199 | Unmasking the masked text with the mapping it recorded gives the original text back, when the text has no `PH` or `MT` followed by a digit. |
| Masking.RoundTripWith | mc_plugin_translator.py:171-199 | The same round trip for any vocabulary of letter words. |
| Masking.TokensRenderTokensOnly | mc_plugin_translator.py:271 | A masked text made only of tokens passes the all-tokens test. |
| Gateway.Engines | mc_plugin_translator.py:229-233 | An engine is listed exactly when its library is available, and googletrans comes before deep-translator. |
| Gateway.ScheduleSpec | mc_plugin_translator.py:238-241 | Each engine gets `MAX_RETRIES` attempts, in list order. |
| Gateway.RunSucceeds | mc_plugin_translator.py:238-247 | A success is the answer of the first attempt that did not fail; every earlier attempt failed. |
| Gateway.RunFails | mc_plugin_translator.py:248-254 | A failure means every attempt failed, and the error raised is that of the last attempt. |
| Gateway.TranslateOneFallback | mc_plugin_translator.py:224-254 | No engine gives the no-engine error with no call made. Otherwise the result is the first successful attempt, or the last attempt's error after all `MAX_RETRIES` × engines attempts failed. |
| Gateway.TranslateOne | mc_plugin_translator.py:224-254 | The nested engine and attempt loops compute exactly that outcome and call count. |
| Orchestrator.RetrySpec | mc_plugin_translator.py:275-288 | The retry loop makes at most `max_retries` calls, the `i`-th at the clock the earlier calls leave. The string is translated exactly when some call within the `max_retries` succeeds: the text is then the unmask of the first success, after `i + 1` calls. It is skipped exactly when every call fails: the text is then the unmask of the masked text, after `max_retries` calls. |
| Orchestrator.CallClockNext | mc_plugin_translator.py:275-278 | Call `i + 1` of the loop starts at the clock call `i` leaves. |
| Orchestrator.TranslateStringOutcomes | mc_plugin_translator.py:262-288 | Blank input: returned unchanged, no call. Tokens only: the unmasked text, no call. Otherwise translated exactly when one of the first `max_retries` calls succeeds, with the unmask of the first success. Skipped exactly when they all fail, with the unmask of the masked text after `max_retries` calls. |
| Orchestrator.AllFailingEngines | mc_plugin_translator.py:224-254 | When every engine call fails, `translate_one` fails. |
| Orchestrator.FailuresGiveOriginal | mc_plugin_translator.py:262-288 | When every engine call fails, a text with no `PH` or `MT` followed by a digit is returned exactly as it was given, counted as skipped. |
| Orchestrator.SkippedIsOriginal | mc_plugin_translator.py:262-288 | A skipped string comes back exactly as it was given, for text with no `PH` or `MT` followed by a digit. |
| Orchestrator.MaskFreshMask | mc_plugin_translator.py:267-268 | The fresh mapping holds the recorded entries after masking. |
| Orchestrator.Progress.constructor | mc_plugin_translator.py:259 | Both counters start at zero. |
| Orchestrator.TranslateString | mc_plugin_translator.py:262-288 | Returns the string and clock given by `TranslateStringOutcomes`, and adds one to exactly the matching counter. |
| Orchestrator.TranslateMasked | mc_plugin_translator.py:270-288 | The tokens-only test and the retry loop with `last_result`, adding one to exactly one counter. |
| TranslateTree.TranslateValueShape | mc_plugin_translator.py:291-298 | Translation keeps the document's shape: keys and their order, list lengths, and non-string values. It counts one string per string leaf and never turns the clock back. |
| TranslateTree.TranslateFieldsShape | mc_plugin_translator.py:295-296 | A dictionary keeps its keys in order; each value keeps its shape. |
| TranslateTree.TranslateItemsShape | mc_plugin_translator.py:297-298 | A list keeps its length; each item keeps its shape. |
| Text.SplitGivesWords | mc_plugin_translator.py:307 | Splitting on whitespace gives non-empty words with no whitespace in them. |
| Text.JoinSingleSpaced | mc_plugin_translator.py:315 | Words joined by one space have no leading, trailing or repeated whitespace. |
| PostFix.FirstWithLowerSpec | mc_plugin_translator.py:310-313 | The term chosen is the first one, in iteration order, with the word's lower case. |
| PostFix.TermLookupFound | mc_plugin_translator.py:309-311 | A word whose lower case is a term always finds a term to restore. |
| PostFix.FixAffixedTerm | mc_plugin_translator.py:308-313 | A run of word characters whose lower case is a term, with only non-word characters before and after it (`"chunk."`), becomes the chosen term. The characters around it are kept. |
| PostFix.FixTermWord | mc_plugin_translator.py:308-313 | A word made only of word characters whose lower case is a term becomes exactly the chosen term. This is the case of FixAffixedTerm with nothing around the run. |
| PostFix.SubWordLower | mc_plugin_translator.py:312 | Replacing whole-word occurrences of the word by a term with the same lower case changes only letter case. |
| PostFix.FixWordLower | mc_plugin_translator.py:308-313 | Term repair keeps every word's lower case. |
| PostFix.NoDoubledContains | mc_plugin_translator.py:306 | "No `''` anywhere" and the substring test agree. |
| PostFix.ReplaceAllNoDoubled | mc_plugin_translator.py:306 | After `''` is replaced by `’`, no `''` is left. |
| PostFix.ReplaceDoubledCount | mc_plugin_translator.py:306-307 | The apostrophe replacement does not change the number of words. |
| PostFix.PostFixStringSpec | mc_plugin_translator.py:304-315 | A repaired string is single-spaced and has no `''`. It has as many words as the input. Each word keeps its lower case. |
| PostFix.PostFixText | mc_plugin_translator.py:304-315 | Overwriting `words[i]` in an array, term by term in iteration order, computes the repaired string. |
| PostFix.PostFixShape | mc_plugin_translator.py:303-320 | Post-fixing keeps the document's shape, and a string leaf becomes its repaired string. |
| Sanity.ProblemsClean | mc_plugin_translator.py:325-351 | No problem is recorded exactly when no value is `None` and no string contains `__PH` or `__MT`. |
| Sanity.ProblemPath | mc_plugin_translator.py:328-342 | Every problem is `P is None` or `P contiene token non sostituiti`, where `P` is the path followed by `.key` and `[i]` steps that lead to a `None` leaf or to a string leaf with a leftover token. |
| Sanity.ProblemLeaves | mc_plugin_translator.py:328-342 | Conversely, every such leaf, reached by such steps, is reported with that message. |
| Sanity.Audit.constructor | mc_plugin_translator.py:326 | The problem list starts empty. |
| Sanity.Audit.Walk | mc_plugin_translator.py:328-342 | The walk appends the problems under a node in traversal order, and changes nothing else. |
| Sanity.FinalSanityCheck | mc_plugin_translator.py:325-351 | The check returns true exactly when the walk from `root` found nothing, that is, when the document is clean. |
| YamlFix.LineParts | mc_plugin_translator.py:125-131 | A `key: value` line is its leading whitespace followed by the stripped line. The key has no `:` and is already right-stripped. |
| YamlFix.QuoteRoundTrip | mc_plugin_translator.py:140-143 | Reading the quoted value back as a YAML single- or double-quoted scalar gives the value. |
| YamlFix.FixLineRereads | mc_plugin_translator.py:137-144 | A rewritten line keeps its indentation and key, and its value is now the quoted value. |
| YamlFix.FixLineUnquotes | mc_plugin_translator.py:137-144 | The value of a rewritten line unquotes to the value the line had. |
| YamlFix.FixLineChanges | mc_plugin_translator.py:125-147 | A line changes exactly when it needs quoting. Comments, lines without `:`, and empty, quoted, block or harmless values are copied unchanged. |
| YamlFix.FixLineIdempotent | mc_plugin_translator.py:122-148 | Fixing a fixed line changes nothing more. |
| YamlFix.FixLineShape | mc_plugin_translator.py:125-147 | A fixed line contains no line break, and is empty only when the input line was. |
| YamlFix.SplitLinesJoin | mc_plugin_translator.py:124-148 | Joining lines with `\n` and splitting again gives the same lines, unless the last one is empty. |
| YamlFix.FixYamlLines | mc_plugin_translator.py:122-148 | The output has one line per input line, each fixed on its own. |
| YamlFix.FixYamlContent | mc_plugin_translator.py:122-148 | The loop appending to `fixed_lines` computes `FixYaml`. |

## Left out

- File and YAML I/O are not modelled: `find_file`, `backup_file`, `load_yaml_with_fix` and the `yaml.dump` output. The model starts from the parsed document and from the raw text.
- `translate_via_googletrans` and `translate_via_deep_translator` call foreign libraries. They are the `service` parameter.
- The thread pool and the per-call timeout of `translate_one` are not modelled. A timeout is one more `Failure`.
- `time.sleep`, the backoff factor and all logging are left out; they have no effect on results.
- `progress_bar_phase`, `compatibility_check`, `print_compatibility` and `main` are left out. They are display and environment code.
- Gateway.RunFails: when `raise last_exc` runs with no earlier attempt, the error is the empty string. That case cannot arise, since an empty engine list fails first.
- Text: `\w`, `\d` and `lower()` are modelled on ASCII only. Non-ASCII letters and digits count as non-word characters, `\d` matches only `0`-`9`, and letters keep their case.
- YamlFix.SplitLines: only `\n` breaks lines. The other separators of `str.splitlines` (`\r`, `\x0b`, `\x0c`, `\x1c`-`\x1e`, `\x85`, ` `, ` `) stay inside a line.
- YamlFix.FixYamlLines: requires that the input not end in an empty line, because `"\n".join` drops a final empty line. The statement is weaker only for such inputs.
- YamlFix.Unquote: reads back only the escapes `\\` and `\"`, the two that the quoting writes. YAML's other escapes are a decoder's concern.
- Document: dictionary keys are strings; numbers and booleans are one opaque `Other(int)` value.
- Orchestrator.TranslateStringOutcomes: the non-string branch of `translate_string` is not modelled, because `translate_value` only passes it strings.
- Masking.RoundTrip: holds only for text with no `PH` or `MT` followed by a digit. An input like `{a}{b}PH0__` lets unmasking match a token assembled from the underscores of a neighbouring token, and the text does not come back.
- Orchestrator.SkippedIsOriginal: carries the same no-marker requirement as `Masking.RoundTrip`.
- PostFix.PostFixStringSpec: states lower-case preservation against the words after `''` is replaced by `’`. That replacement changes the characters of a word.
- PostFix.PostFixString: the set `MINECRAFT_TERMS` is iterated in a given order `order`. Any order that lists every term meets the condition of `TermLookupFound`.
- Masking.MaskTextWith: the mapping is updated once per pass rather than once per match. The resulting dictionary is the same.

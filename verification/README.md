# Wapiti feature encoding and template compilation, in Dafny

This project models the pure core of `webstruct/wapiti.py` and proves
properties about it. That core prepares data and templates for the Wapiti
CRF tagger:

- **Feature vocabulary.** `WapitiFeatureEncoder.partial_fit` / `fit` /
  `reset` learn the ordered feature names (`feature_names_`) and their
  column indices (`vocabulary_`). The `move_to_front` names are pinned
  first.
- **Data rows.** `transform_single` / `transform` write one space-separated
  Wapiti data row per token feature dict, with one column per feature name.
- **Templates.** `prepare_wapiti_template` rewrites each
  `%x[offset, name]` macro of the regular expression `WAPITI_MACRO_PATTERN`
  into `%x[offset,index]`. It leaves comment lines
  (`_wapiti_line_is_comment`) alone. `prepare_template` compiles against
  the encoder's vocabulary. `unigram_features_template` writes one unigram
  feature line per feature name.
- **Labels and training rows.** `WapitiChunker._get_labels` reads the
  labels back from the tagger's output. `WapitiCRF._to_train_sequence`
  writes the training rows. The start of `WapitiCRF.fit` checks the
  development-data arguments, then resets and refits the encoder.

Modules, one per file:

- `Results` (`results.dfy`): `Option`, `Result`, the error conditions and a
  failing list comprehension.
- `Text` (`text.dfy`): the Python string operations the code relies on:
  `split`, `join`, `splitlines`, `strip`, `rsplit()`, `str(int)`.
- `Template` (`template.dfy`): the macro pattern, the scanner that plays the
  role of `re.sub`, and the template compiler.
- `FeatureEncoder` (`encoder.dfy`): `WapitiFeatureEncoder`, as an immutable
  record that every state-changing method returns updated.
- `Chunker` (`chunker.dfy`): label extraction, and the pairing of tokens
  with labels.
- `Crf` (`crf.dfy`): training rows, the development-argument check and the
  refit at the start of `fit`.
- `Doctests` (`doctests.dfy`): the module's docstring examples, proved as
  lemmas.

The macro pattern is modelled twice:

- `Template.IsMacroMatch` reads the regular expression literally, position
  by position.
- `Template.MatchAt` is a deterministic scanner. Every quantified part of
  the pattern is a maximal run followed by a character that cannot extend
  it, so no backtracking is needed.

Two lemmas prove the scanner exact, one for each direction. `re.sub` is
then a left-to-right scan into copied characters and matches. Each match
is rendered through `repl`; the first unknown feature name aborts.

The iteration order of a Python `set` (`tuple(keys)` in `partial_fit`) is
left open. It is a function parameter `order`, required to list every set
it is given exactly once (`FeatureEncoder.IsSetOrder`).

Other abstractions:

- `tostr` from `webstruct/utils.py` is a function parameter.
- `get_combined_keys` is taken to be the union of the dicts' keys.
- The tagger's `label_sequence` is a function parameter of
  `Chunker.GetLabels`.

## Model

| member | source | states |
|---|---|---|
| Results.MapResultSpec | webstruct/wapiti.py:325-328 | A comprehension whose element may raise succeeds exactly when every element does. It keeps length and order, and otherwise raises the first element's error. |
| Text.JoinSplitLines | webstruct/wapiti.py:327-330 | `"\n".join(s.splitlines())` gives back `s`, less one trailing newline. |
| Text.SplitLinesJoin | webstruct/wapiti.py:327-330 | `splitlines` of newline-free lines joined by `\n` gives back those lines, unless the last line is empty. |
| Text.Fields | webstruct/wapiti.py:68 | `rsplit()` yields non-empty, whitespace-free fields, and none exactly when the line is all whitespace. Which fields they are is stated by `Text.FieldsOfJoin` and `Text.LastFieldPosition`. |
| Text.FieldsOfJoin | webstruct/wapiti.py:68 | `rsplit()` of words joined by single spaces gives back those words, when the words are non-empty and whitespace-free. |
| Text.LastFieldPosition | webstruct/wapiti.py:68 | The last field of a non-blank line occurs in the line at a position that starts the line or follows whitespace, and only whitespace comes after it. |
| Text.StripEmptyIff | webstruct/wapiti.py:68 | `line.strip()` is empty, so the line is skipped, exactly when the line is all whitespace. |
| Text.ParseNatToString | webstruct/wapiti.py:322-323 | The column index written into a macro reads back as that index. |
| Text.CanonicalNumeralUnique | webstruct/wapiti.py:322-323 | A numeral with no leading zero, unless it is `0`, is `str` of its own value. So the value and this form together fix the digits that the format at line 323 writes. |
| Template.MatchAtComplete | webstruct/wapiti.py:289-297 | Wherever the pattern matches at an index, the scanner reports that match with the same `macro`, `offset`, `column` and `rest` groups. So a match at a given start is unique. |
| Template.MatchAtSound | webstruct/wapiti.py:289-297 | Every match the scanner reports is a match of the pattern, with the groups the pattern assigns. |
| Template.MatchAt | webstruct/wapiti.py:289-297 | A match found at an index starts there, ends within the line and has its groups in order. `Template.MatchAtSound` and `Template.MatchAtComplete` tie it to the regular expression. |
| Template.Resolve | webstruct/wapiti.py:319-323 | A column resolves exactly when it is all digits or a vocabulary name. Digits are kept as written. A name becomes a numeral in `str` form, with no leading zero unless it is `0`, that reads back as the name's index. By `Text.CanonicalNumeralUnique` that numeral is `str` of the index. Any other column raises `KeyError` with that column. |
| Template.MacroTextNoSpace | webstruct/wapiti.py:323 | The rewritten macro `%S[off,col'D` holds no whitespace: all whitespace inside a match is dropped. |
| Template.ScanCoversLine | webstruct/wapiti.py:326 | The scan (`Template.Scan`, the left-to-right pass of `re.sub`) puts its pieces together into the line itself, so text outside matches is copied as it stands. |
| Template.ScanMacrosAreMatches | webstruct/wapiti.py:289-297 | Every rewritten piece is a match of the pattern at some index of the line. |
| Template.RenderFailsOnFirstUnknown | webstruct/wapiti.py:319-326 | Substitution (`Template.Render`, which calls `repl` on each match in scan order) fails exactly when some match has an unresolvable column. The error names the first such column; earlier matches all resolve. |
| Template.RenderNormalForm | webstruct/wapiti.py:319-326 | Copied characters, and macros already written as `%S[off,col'D` with a numeric column, are reproduced unchanged. |
| Template.CompileLine | webstruct/wapiti.py:319-326 | `re.sub` on one line: a line on which the pattern matches nowhere is output unchanged. A newline-free line compiles to a newline-free line. Failure is only `KeyError`, on the column of some match that is neither all digits nor in the vocabulary. |
| Template.IsComment | webstruct/wapiti.py:333-334 | A line is a comment exactly when its first non-whitespace character is `#`. |
| Template.CompileLinesSpec | webstruct/wapiti.py:325-328 | The comprehension over the lines succeeds exactly when every non-comment line compiles. Otherwise it stops at the first non-comment line that fails, with that line's error. |
| Template.CompileTemplate | webstruct/wapiti.py:299-330 | Compilation succeeds exactly when every non-comment line compiles. On failure the error is that of the first non-comment line that fails, as the list comprehension raises. Every earlier non-comment line compiles, and a comment line is never looked up in the vocabulary. |
| Template.CompileLineOneMacro | webstruct/wapiti.py:319-326 | When the pattern matches at index k, at no index before k and at no index from the end of that match on, the line becomes its prefix, the rewritten match and its suffix. The text after the delimiter, such as a pattern argument, is copied. |
| Template.TemplateLineStructure | webstruct/wapiti.py:325-330 | A compiled template has exactly the input's lines, one for one. Each output line is its input line compiled on its own, and comment lines are verbatim. |
| Template.CompileTemplateOfLines | webstruct/wapiti.py:325-330 | A template written as newline-free lines compiles to the lines' own compilations, joined by `\n`. |
| Template.TemplateWithoutMacros | webstruct/wapiti.py:325-330 | A template whose non-comment lines hold no match compiles to itself less a trailing newline, under every vocabulary. |
| Template.TrailingNewlineDropped | webstruct/wapiti.py:327-330 | One trailing newline changes nothing in the output: `splitlines` drops it and `join` does not restore it. |
| FeatureEncoder.CombinedKeys | webstruct/wapiti.py:90 | A name is among a sequence's combined keys exactly when some dict of the sequence has it. |
| FeatureEncoder.AccumulateKeys | webstruct/wapiti.py:86-91 | The loop leaves the key set unchanged when `X` is empty. Otherwise the result is the old keys plus every observed key, minus the front names. |
| FeatureEncoder.IndexMap | webstruct/wapiti.py:93 | `vocabulary_` has exactly the names as keys. Each name maps to a position holding that name, and a repeated name keeps its last position. |
| FeatureEncoder.PartialFit | webstruct/wapiti.py:85-94 | `feature_names_` starts with `move_to_front` in the caller's order. `vocabulary_` maps every name to a position holding it. `move_to_front` itself is unchanged. |
| FeatureEncoder.Fit | webstruct/wapiti.py:78-94 | `fit` keeps `move_to_front`, starts `feature_names_` with it, and lists exactly the front names, the names fitted before and the observed keys. `vocabulary_` has exactly those keys; it inverts the names when the front names are distinct and either `X` is non-empty or the old names avoid the front. |
| FeatureEncoder.Reset | webstruct/wapiti.py:159-160 | `reset` forgets the names, so a later fit starts from nothing, and keeps `vocabulary_` and `move_to_front` as they were. |
| FeatureEncoder.VocabularyContents | webstruct/wapiti.py:86-92 | After `partial_fit` the names are exactly the front names, the names fitted before and every key observed now. No name is ever lost. |
| FeatureEncoder.NamesDistinct | webstruct/wapiti.py:86-92 | The names are duplicate-free when the front names are, and `X` is non-empty or the previous names avoid the front. |
| FeatureEncoder.IndexMapInverts | webstruct/wapiti.py:93 | Over duplicate-free names, `vocabulary_[feature_names_[i]] == i`. |
| FeatureEncoder.FrontPinned | webstruct/wapiti.py:92-93 | `vocabulary_[move_to_front[i]] == i` for every front position (`move_to_front` as stored at line 74), under the conditions of `NamesDistinct`. |
| FeatureEncoder.EmptyRefitRepeatsFront | webstruct/wapiti.py:86-92 | A `partial_fit([])` after any fit lists the first front name twice, first and again after the front: the subtraction at line 90 never runs. So the names are no longer duplicate-free. |
| FeatureEncoder.FitAfterReset | webstruct/wapiti.py:159-160 | `reset` then `fit` (which is `partial_fit`, line 83) equals fitting a fresh encoder. The names are the front names plus the observed keys, and they are duplicate-free when the front names are. |
| FeatureEncoder.Columns | webstruct/wapiti.py:103 | One column per feature name, in `feature_names_` order; column k is `tostr(dct.get(name_k))`. |
| FeatureEncoder.EncodeRows | webstruct/wapiti.py:101-105 | One row per dict, in order. |
| FeatureEncoder.TransformSingle | webstruct/wapiti.py:96-105 | It succeeds exactly when there are no dicts or names are fitted; otherwise it fails with `TypeError`. On success, row k encodes dict k over `feature_names_`, one row per dict. |
| FeatureEncoder.Transform | webstruct/wapiti.py:107-108 | `transform` keeps the outer length and order, and each sequence's length and order. Row j of sequence k encodes dict j. It fails, with `TypeError`, exactly when no names are fitted and some sequence is non-empty. |
| FeatureEncoder.RowColumns | webstruct/wapiti.py:103 | A row splits at single spaces back into exactly its columns, when no value prints a space. There is no trailing separator. |
| FeatureEncoder.VocabularyIndexSelectsColumn | webstruct/wapiti.py:93-103 | The column a feature's vocabulary index names holds that feature's value. |
| FeatureEncoder.PrepareTemplate | webstruct/wapiti.py:110-129 | With `vocabulary_` set, the result is the template compiled against that vocabulary, and a failure is a `KeyError` on a name missing from it. With `vocabulary_` unset, it fails, with `TypeError`, exactly when the template names a column. Otherwise it returns the template compiled against no names. |
| FeatureEncoder.ResetKeepsStaleVocabulary | webstruct/wapiti.py:159-160 | After `reset`, `prepare_template` (line 129) still compiles against the old vocabulary, while `transform_single` (line 103) can no longer write rows. |
| FeatureEncoder.UnigramLines | webstruct/wapiti.py:154-156 | One line `{scope}feat:{name}=%x[0,{col}]` per feature name, numbered in order. |
| FeatureEncoder.UnigramFeaturesTemplate | webstruct/wapiti.py:131-157 | It succeeds exactly when names are fitted, else fails with `TypeError`. The block ends in a newline; its lines are an empty line, the header, then one unigram line per feature name in order. |
| FeatureEncoder.UnigramColumnsFollowVocabulary | webstruct/wapiti.py:154-155 | Each unigram line refers to its feature by the feature's vocabulary index (line 93), the column `transform` writes it to. |
| Chunker.LastField | webstruct/wapiti.py:68 | `line.rsplit()[-1]` of a non-blank line is non-empty and whitespace-free. It occurs in the line at a position that starts the line or follows whitespace, with only whitespace after it. |
| Chunker.LabelOfLine | webstruct/wapiti.py:68 | One output line contributes at most one label, which is non-empty and whitespace-free. |
| Chunker.LabelsOfOneLine | webstruct/wapiti.py:68 | A blank line contributes nothing; any other line contributes exactly its last field. |
| Chunker.NonBlank | webstruct/wapiti.py:68 | The `if line.strip()` filter keeps only non-blank lines of the input, and keeps every line when none is blank. A single line is kept exactly when it is non-blank. With `Chunker.NonBlankAppend`, every non-blank line is kept, in order. |
| Chunker.NonBlankAppend | webstruct/wapiti.py:68 | The filter works line by line: filtering joined lists gives the filtered lists joined. |
| Chunker.LastFields | webstruct/wapiti.py:68 | One label per kept line, in order: label k is the last field of line k. |
| Chunker.LabelsOfLines | webstruct/wapiti.py:68 | The comprehension yields the last field of each non-blank line, in order. |
| Chunker.GetLabels | webstruct/wapiti.py:65-68 | `_get_labels` returns one label per non-blank line of the tagger's output for the joined data rows: that line's last field, non-empty and whitespace-free. |
| Chunker.LabelsOfLinesAppend | webstruct/wapiti.py:68 | Labels are read line by line: the labels of concatenated outputs are concatenated. |
| Chunker.BlankLineIgnored | webstruct/wapiti.py:68 | Removing a blank line anywhere in the output leaves the labels unchanged. |
| Chunker.TokensFrom | webstruct/wapiti.py:51 | The token list succeeds exactly when every dict has `token`. It then holds those values in order; otherwise it raises `KeyError` at the first dict without one. |
| Chunker.PairTokens | webstruct/wapiti.py:51-52 | Tokens and labels pair up in order exactly when every dict has a token and the counts agree. A count mismatch fails the `assert` with both counts. |
| Crf.TagRows | webstruct/wapiti.py:285 | One row per zipped pair, as many as the shorter input. Row k is line k, a space and tag k. |
| Crf.ToTrainSequence | webstruct/wapiti.py:284-285 | Nothing to zip gives the empty text. Otherwise, for newline-free lines and tags, the text splits at `\n` back into exactly the tagged rows. |
| Crf.LastFieldOfTaggedRow | webstruct/wapiti.py:285 | The last field (`rsplit()[-1]`, line 68) of a tagged row is its tag. |
| Crf.LabelsOfTaggedRows | webstruct/wapiti.py:285 | Reading labels as `_get_labels` does (line 68) from tagged rows gives the tags, one per row. |
| Crf.TrainingLabelsRoundTrip | webstruct/wapiti.py:284-285 | Label extraction (`_get_labels`, lines 65-68) inverts `_to_train_sequence`: the labels read from a training sequence are its tags. |
| Crf.GetLabelsOfEchoingTagger | webstruct/wapiti.py:65-68 | A tagger answering each data row with the row and its label makes `_get_labels` return exactly those labels. |
| Crf.CheckDevArgumentsAsWritten | webstruct/wapiti.py:215-217 | The check raises `ValueError` exactly when some argument is truthy and `X_dev` or `y_dev` is `None`. |
| Crf.EmptyDevDataWithoutLabelsAccepted | webstruct/wapiti.py:215-229 | `X_dev=[]` without `y_dev` passes the check as written, although `fit` then takes the development branch. |
| Crf.CheckDevArguments | webstruct/wapiti.py:215-217 | The corrected check can only fail with the development-data `ValueError`. |
| Crf.DevArgumentsAccepted | webstruct/wapiti.py:215-217 | The corrected check accepts exactly the calls passing both `X_dev` and `y_dev` or neither, with `out_dev` only alongside them. So the development branch always has labels. |
| Crf.DevChecksAgreeOnNonEmpty | webstruct/wapiti.py:215-217 | The two checks agree whenever every argument given is non-empty. |
| Crf.Refit | webstruct/wapiti.py:219-220 | After `reset` and `fit`, the names start with the front names and are exactly the front names plus the training keys; the vocabulary covers them. With distinct front names, `vocabulary_` inverts the names. |
| Crf.FitEncoder | webstruct/wapiti.py:215-220 | The start of `fit` succeeds exactly when `X_dev` and `y_dev` are both given or both left out, with `out_dev` only alongside them, and otherwise fails with the development-data `ValueError`. The refitted names are the front names plus the training keys, nothing older. With distinct front names, front name i gets column i and no name is listed twice. |
| Crf.RefitPinsFront | webstruct/wapiti.py:219-220 | After the refit, front name i is column i, when the front names are distinct. |
| Crf.CrfFitPinsToken | webstruct/wapiti.py:192-220 | With the CRF's own encoder (`Crf.CrfEncoder`: `FeatureEncoder.NewEncoder`, the constructor at lines 73-76, with the default `move_to_front == ('token',)`), every accepted `fit` puts `token` at column 0 and lists no name twice. |
| Doctests.DocEncoderFit | webstruct/wapiti.py:116-119 | Fitting `WapitiFeatureEncoder(['token', 'tag'])` on the docstring's two tokens gives the names `('token', 'tag')` and the vocabulary `{'token': 0, 'tag': 1}`, whatever the set order. |
| Doctests.PositionLineCompiles | webstruct/wapiti.py:304-306 | `*:Pos-1 L=%x[-1, tag]` compiles to `*:Pos-1 L=%x[-1,1]`. |
| Doctests.SuffixLineCompiles | webstruct/wapiti.py:304-306 | `*:Suf-2 X=%m[ 0,token,".?.?$"]` compiles to `*:Suf-2 X=%m[0,0,".?.?$"]`. |
| Doctests.CommentedSuffixLineCopied | webstruct/wapiti.py:310-311 | The commented suffix line is copied as it stands. |
| Doctests.TemplateExample | webstruct/wapiti.py:304-306 | The two-line docstring template (also the `prepare_template` example at lines 120-121) compiles to `*:Pos-1 L=%x[-1,1]\n*:Suf-2 X=%m[0,0,".?.?$"]`. |
| Doctests.CommentExample | webstruct/wapiti.py:310-311 | The template with the commented second line compiles with that line untouched. |
| Doctests.UnigramExamples | webstruct/wapiti.py:136-151 | For the docstring encoder, `unigram_features_template()` with the default scope `*` and with scope `u` return the blocks the docstring prints. |

## Left out

- Temporary files, the `wapiti` subprocess and unlinking are I/O and an external process. This covers `fit` past line 220, `run_wapiti`, `_create_wapiti_data_file` and `_create_wapiti_feature_template_file` (lines 222-282).
- `WapitiChunker.transform` and `_prepare_features` (lines 45-63) call the feature extractor and `label_encoder.group`, which are not part of this model. Only the token list and the length `assert` (lines 51-52) are modelled.
- `self.model.label_sequence` (line 67) is foreign code. It is a parameter of `Chunker.GetLabels`.
- `utils.get_combined_keys`, `utils.tostr` and `run_command` are not part of this model. `get_combined_keys` is assumed to be the union of the dicts' keys (`FeatureEncoder.CombinedKeys`). `tostr` is a parameter.
- `shlex.split` of `wapiti_args` (line 185) and the scikit-learn `BaseEstimator` / `TransformerMixin` machinery are library plumbing.
- Whitespace and digits are ASCII only: `str.isspace` characters below 128 and `0`-`9`. Unicode whitespace and digits matched by `\s`, `\d` and `str.isdigit` are not modelled.
- `splitlines` is modelled with `\n` as the only line terminator. The other terminators (`\r`, `\r\n`, `\v`, `\f`, `\x1c`-`\x1e`, `\x85`, `\u2028`, `\u2029`) are not.
- The iteration order of Python sets is left open (the `order` parameter). So no property depends on which non-front name comes first.
- FeatureEncoder.IsSetOrder: makes the order a function of the set's contents alone, so equal sets list alike. CPython's order also depends on insertion history and string hashing, so two equal sets may list differently there. The one property comparing two fits, `FeatureEncoder.FitAfterReset`, compares sets built by the same steps, which CPython also lists alike.
- `feature_names_` set to something other than a tuple or `None`, and `vocabulary_` values that are not non-negative integers, are not modelled. `partial_fit` only ever builds these.
- Chunker.PairTokens: the `assert` of line 52 is modelled as always checked; running Python with `-O` would remove it.
- Template.TemplateLineStructure: stated for templates with at least one line. The empty template compiles to the empty text, which `Template.TemplateWithoutMacros` covers.
- FeatureEncoder.RowColumns: stated for values whose `tostr` holds no space. Otherwise a row has more space-separated fields than columns.
- FeatureEncoder.UnigramFeaturesTemplate: the line structure is stated for a scope and names without newlines, which would otherwise split lines.
- Crf.TrainingLabelsRoundTrip: stated for tags that are non-empty and whitespace-free, and lines without newlines. Other tags are not read back as written.
- Crf.FitEncoder: uses the corrected development-argument check (see Findings). The check as written is `Crf.CheckDevArgumentsAsWritten`.

## Findings

| source | as written | input that shows it | evidently intended | confidence | as-written member | corrected member |
|---|---|---|---|---|---|---|
| webstruct/wapiti.py:215-217 | `any([X_dev, y_dev, out_dev])` tests truthiness, so empty arguments skip the check | `X_dev=[]`, `y_dev=None`, `out_dev=None`: the check passes. Line 228 (`X_dev is not None`) then writes development data from `zip([], None)`, which raises `TypeError` after the training file was written. | Raise the `ValueError` whenever `X_dev`, `y_dev` or `out_dev` is given (`is not None`) without both `X_dev` and `y_dev` | medium; not executed | Crf.CheckDevArgumentsAsWritten, Crf.EmptyDevDataWithoutLabelsAccepted | Crf.CheckDevArguments, Crf.DevArgumentsAccepted |

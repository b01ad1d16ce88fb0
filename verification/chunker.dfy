/** The string logic of `WapitiChunker` in webstruct/wapiti.py: reading
    the labels back from the tagger's output and pairing them with the
    tokens. The tagger itself is a parameter. */
module Chunker {
  import opened Results
  import opened Text

  /** `line.rsplit()[-1]` of a line that is not blank: the last maximal
      run of non-whitespace, which starts the line or follows whitespace
      and is followed by whitespace only. */
  function LastField(line: string): (field: string)
    requires !AllSpace(line)
    ensures |field| > 0 && NoSpace(field)
    ensures exists i :: FieldEndsAt(line, field, i)
  {
    var fs := Fields(line);
    var last := fs[|fs| - 1];
    assert exists i :: FieldEndsAt(line, last, i) by {
      var i := LastFieldPosition(line);
    }
    last
  }

  /** What one output line contributes: nothing when it is blank after
      stripping, otherwise its last field. */
  function LabelOfLine(line: string): (labels: seq<string>)
    ensures |labels| <= 1
    ensures forall k :: 0 <= k < |labels| ==> |labels[k]| > 0 && NoSpace(labels[k])
  {
    if |Strip(line)| == 0 then []
    else
      StripEmptyIff(line);
      [LastField(line)]
  }

  /** Each element's contributions, concatenated in order. */
  function FlatMap<A, B>(xs: seq<A>, f: A -> seq<B>): seq<B>
    decreases |xs|
  {
    if |xs| == 0 then [] else f(xs[0]) + FlatMap(xs[1..], f)
  }

  lemma {:induction false} FlatMapAppend<A, B>(a: seq<A>, b: seq<A>, f: A -> seq<B>)
    ensures FlatMap(a + b, f) == FlatMap(a, f) + FlatMap(b, f)
    decreases |a|
  {
    if |a| == 0 {
      assert a + b == b;
    } else {
      assert (a + b)[0] == a[0];
      assert (a + b)[1..] == a[1..] + b;
      FlatMapAppend(a[1..], b, f);
    }
  }

  lemma FlatMapSkip<A, B>(a: seq<A>, x: A, b: seq<A>, f: A -> seq<B>)
    requires f(x) == []
    ensures FlatMap(a + [x] + b, f) == FlatMap(a + b, f)
  {
    FlatMapAppend(a + [x], b, f);
    FlatMapAppend(a, [x], f);
    FlatMapAppend(a, b, f);
    assert FlatMap([x], f) == f(x) + FlatMap([], f);
  }

  /** When every element contributes exactly one value, those values in order. */
  lemma {:induction false} FlatMapSingletons<A, B>(xs: seq<A>, ys: seq<B>, f: A -> seq<B>)
    requires |xs| == |ys|
    requires forall k :: 0 <= k < |xs| ==> f(xs[k]) == [ys[k]]
    ensures FlatMap(xs, f) == ys
    decreases |xs|
  {
    if |xs| > 0 {
      assert forall k :: 0 <= k < |xs[1..]| ==> xs[1..][k] == xs[k + 1] && ys[1..][k] == ys[k + 1];
      FlatMapSingletons(xs[1..], ys[1..], f);
      assert ys == [ys[0]] + ys[1..];
    }
  }

  /** The `if line.strip()` filter of `_get_labels`, one line at a time;
      `NonBlank` states what it keeps. */
  function DropBlank(lines: seq<string>): seq<string>
    decreases |lines|
  {
    if |lines| == 0 then [] else (if AllSpace(lines[0]) then [] else [lines[0]]) + DropBlank(lines[1..])
  }

  lemma {:induction false} DropBlankKeeps(lines: seq<string>)
    ensures |DropBlank(lines)| <= |lines|
    ensures forall k :: 0 <= k < |DropBlank(lines)| ==> !AllSpace(DropBlank(lines)[k]) && DropBlank(lines)[k] in lines
    ensures (forall k :: 0 <= k < |lines| ==> !AllSpace(lines[k])) ==> DropBlank(lines) == lines
    decreases |lines|
  {
    if |lines| > 0 {
      DropBlankKeeps(lines[1..]);
      var rest := DropBlank(lines[1..]);
      forall k | 0 <= k < |rest| ensures rest[k] in lines {
        assert rest[k] in lines[1..];
      }
      assert lines == [lines[0]] + lines[1..];
    }
  }

  /** The lines that are not blank, in order. */
  function NonBlank(lines: seq<string>): (kept: seq<string>)
    ensures |kept| <= |lines|
    ensures forall k :: 0 <= k < |kept| ==> !AllSpace(kept[k]) && kept[k] in lines
    ensures (forall k :: 0 <= k < |lines| ==> !AllSpace(lines[k])) ==> kept == lines
    ensures |lines| == 1 ==> kept == (if AllSpace(lines[0]) then [] else lines)
  {
    DropBlankKeeps(lines);
    assert |lines| == 1 ==> lines[1..] == [];
    DropBlank(lines)
  }

  /** The filter works line by line: filtering joined lists joins the
      filtered lists, so every non-blank line is kept, in order. */
  lemma {:induction false} NonBlankAppend(a: seq<string>, b: seq<string>)
    ensures NonBlank(a + b) == NonBlank(a) + NonBlank(b)
    decreases |a|
  {
    if |a| == 0 {
      assert a + b == b;
    } else {
      assert (a + b)[0] == a[0] && (a + b)[1..] == a[1..] + b;
      NonBlankAppend(a[1..], b);
    }
  }

  /** The last field of each line of `kept`, in order. */
  function LastFields(kept: seq<string>): (labels: seq<string>)
    requires forall k :: 0 <= k < |kept| ==> !AllSpace(kept[k])
    ensures |labels| == |kept|
    ensures forall k :: 0 <= k < |kept| ==> labels[k] == LastField(kept[k])
    decreases |kept|
  {
    if |kept| == 0 then [] else [LastField(kept[0])] + LastFields(kept[1..])
  }

  lemma NonBlankCons(lines: seq<string>)
    requires |lines| > 0
    ensures NonBlank(lines) == (if AllSpace(lines[0]) then [] else [lines[0]]) + NonBlank(lines[1..])
  {
  }

  /** What the first line contributes: nothing when blank, else its last field. */
  lemma LabelsCons(lines: seq<string>)
    requires |lines| > 0
    ensures FlatMap(lines, LabelOfLine) ==
      (if AllSpace(lines[0]) then [] else [LastField(lines[0])]) + FlatMap(lines[1..], LabelOfLine)
  {
    StripEmptyIff(lines[0]);
  }

  lemma LastFieldsCons(line: string, kept: seq<string>)
    requires !AllSpace(line)
    requires forall k :: 0 <= k < |kept| ==> !AllSpace(kept[k])
    ensures LastFields([line] + kept) == [LastField(line)] + LastFields(kept)
  {
    assert ([line] + kept)[1..] == kept;
  }

  /** Each line's contribution, flattened, is the last field of each
      non-blank line, in order. */
  lemma {:induction false} LastFieldsOfNonBlank(lines: seq<string>)
    ensures FlatMap(lines, LabelOfLine) == LastFields(NonBlank(lines))
    decreases |lines|
  {
    if |lines| > 0 {
      LastFieldsOfNonBlank(lines[1..]);
      NonBlankCons(lines);
      LabelsCons(lines);
      if AllSpace(lines[0]) {
        assert NonBlank(lines) == NonBlank(lines[1..]);
      } else {
        LastFieldsCons(lines[0], NonBlank(lines[1..]));
      }
    }
  }

  /** The comprehension of `_get_labels` over the output lines: the last
      field of every non-blank line, in order. */
  function LabelsOfLines(lines: seq<string>): (labels: seq<string>)
    ensures labels == LastFields(NonBlank(lines))
  {
    LastFieldsOfNonBlank(lines);
    FlatMap(lines, LabelOfLine)
  }

  /** Label extraction works line by line: the labels of a concatenation
      are the labels of each part, in order. */
  lemma LabelsOfLinesAppend(a: seq<string>, b: seq<string>)
    ensures LabelsOfLines(a + b) == LabelsOfLines(a) + LabelsOfLines(b)
  {
    FlatMapAppend(a, b, LabelOfLine);
  }

  /** The labels in the tagger's output text, split at `\n`. */
  function ExtractLabels(output: string): seq<string> {
    LabelsOfLines(Split(output, '\n'))
  }

  /** `_get_labels(feature_lines)`: join the rows, tag them with
      `labelSequence` (the loaded model's `label_sequence`), and read the
      last field of every non-blank output line, in order. */
  function GetLabels(featureLines: seq<string>, labelSequence: string -> string): (labels: seq<string>)
    ensures var kept := NonBlank(Split(labelSequence(Join(featureLines, '\n')), '\n'));
      && |labels| == |kept|
      && forall k :: 0 <= k < |labels| ==> labels[k] == LastField(kept[k]) && |labels[k]| > 0 && NoSpace(labels[k])
  {
    ExtractLabels(labelSequence(Join(featureLines, '\n')))
  }

  /** A blank output line contributes nothing; any other line exactly its
      last field. */
  lemma LabelsOfOneLine(line: string)
    ensures AllSpace(line) ==> LabelsOfLines([line]) == []
    ensures !AllSpace(line) ==> LabelsOfLines([line]) == [LastField(line)]
  {
    StripEmptyIff(line);
    assert [line][1..] == [];
    assert FlatMap([line], LabelOfLine) == LabelOfLine(line) + FlatMap([], LabelOfLine);
  }

  /** Blank lines anywhere in the output can be dropped without changing
      the labels. */
  lemma BlankLineIgnored(a: seq<string>, line: string, b: seq<string>)
    requires AllSpace(line)
    ensures LabelsOfLines(a + [line] + b) == LabelsOfLines(a + b)
  {
    StripEmptyIff(line);
    assert LabelOfLine(line) == [];
    FlatMapSkip(a, line, b, LabelOfLine);
  }

  /** `[f['token'] for f in feature_dicts]`, numbering from `from`: the
      first dict without a token raises with its position. */
  function TokensFrom<V>(dicts: seq<map<string, V>>, from: nat): (r: Result<seq<V>>)
    ensures r.Success? <==> forall k :: 0 <= k < |dicts| ==> "token" in dicts[k]
    ensures r.Success? ==>
      |r.value| == |dicts| && forall k :: 0 <= k < |dicts| ==> r.value[k] == dicts[k]["token"]
    ensures r.Failure? ==>
      exists k :: 0 <= k < |dicts| && r.error == MissingToken(from + k) && "token" !in dicts[k]
        && forall j :: 0 <= j < k ==> "token" in dicts[j]
    decreases |dicts|
  {
    if |dicts| == 0 then Success([])
    else if "token" !in dicts[0] then Failure(MissingToken(from))
    else
      var rest := TokensFrom(dicts[1..], from + 1);
      assert forall k :: 1 <= k < |dicts| ==> dicts[k] == dicts[1..][k - 1];
      if rest.Failure? then
        var k :| 0 <= k < |dicts[1..]| && rest.error == MissingToken(from + 1 + k)
          && "token" !in dicts[1..][k] && forall j :: 0 <= j < k ==> "token" in dicts[1..][j];
        assert rest.error == MissingToken(from + (k + 1)) && "token" !in dicts[k + 1];
        Failure(rest.error)
      else
        Success([dicts[0]["token"]] + rest.value)
  }

  /** The tokens of one document and the labels read for it, paired in
      order; a count mismatch fails the `assert` of `transform`. */
  function PairTokens<V>(dicts: seq<map<string, V>>, labels: seq<string>): (r: Result<seq<(V, string)>>)
    ensures r.Success? <==>
      (forall k :: 0 <= k < |dicts| ==> "token" in dicts[k]) && |dicts| == |labels|
    ensures r.Success? ==>
      |r.value| == |labels| &&
      forall k :: 0 <= k < |labels| ==> r.value[k] == (dicts[k]["token"], labels[k])
    ensures (forall k :: 0 <= k < |dicts| ==> "token" in dicts[k]) && |dicts| != |labels| ==>
      r == Failure(Misaligned(|dicts|, |labels|))
  {
    var tokens :- TokensFrom(dicts, 0);
    if |tokens| != |labels| then Failure(Misaligned(|tokens|, |labels|))
    else Success(seq(|tokens|, k requires 0 <= k < |tokens| => (tokens[k], labels[k])))
  }
}

/** The pure parts of `WapitiCRF` in webstruct/wapiti.py: the training
    rows written for Wapiti, the check of the development-data arguments
    and the encoder refit at the start of `fit`. */
module Crf {
  import opened Results
  import opened Text
  import opened FeatureEncoder
  import Chunker

  /** `["%s %s" % (line, tag) for line, tag in zip(lines, tags)]`. */
  function TagRows(lines: seq<string>, tags: seq<string>): (rows: seq<string>)
    ensures |rows| == if |lines| <= |tags| then |lines| else |tags|
    ensures forall k :: 0 <= k < |rows| ==> rows[k] == lines[k] + " " + tags[k]
    decreases |lines|
  {
    if |lines| == 0 || |tags| == 0 then []
    else [lines[0] + " " + tags[0]] + TagRows(lines[1..], tags[1..])
  }

  /** `_to_train_sequence(lines, tags)`: the tagged rows, one per line.
      For newline-free lines and tags the text splits at `\n` back into
      exactly those rows; with nothing to zip it is empty. */
  function ToTrainSequence(lines: seq<string>, tags: seq<string>): (text: string)
    ensures |lines| == 0 || |tags| == 0 ==> text == ""
    ensures (&& |lines| > 0 && |tags| > 0
             && (forall k :: 0 <= k < |lines| ==> '\n' !in lines[k])
             && (forall k :: 0 <= k < |tags| ==> '\n' !in tags[k])) ==>
      Split(text, '\n') == TagRows(lines, tags)
  {
    var rows := TagRows(lines, tags);
    assert (&& |lines| > 0 && |tags| > 0
            && (forall k :: 0 <= k < |lines| ==> '\n' !in lines[k])
            && (forall k :: 0 <= k < |tags| ==> '\n' !in tags[k])) ==>
      Split(Join(rows, '\n'), '\n') == rows by {
      if |lines| > 0 && |tags| > 0
        && (forall k :: 0 <= k < |lines| ==> '\n' !in lines[k])
        && (forall k :: 0 <= k < |tags| ==> '\n' !in tags[k]) {
        forall k | 0 <= k < |rows| ensures '\n' !in rows[k] {
          assert rows[k] == lines[k] + " " + tags[k];
        }
        SplitJoin(rows, '\n');
      }
    }
    Join(rows, '\n')
  }

  /** The last field of a tagged row is its tag. */
  lemma LastFieldOfTaggedRow(line: string, tag: string)
    requires |tag| > 0 && NoSpace(tag)
    ensures !AllSpace(line + " " + tag)
    ensures Chunker.LastField(line + " " + tag) == tag
  {
    FieldsConcat(line, " " + tag);
    assert (" " + tag)[1..] == tag;
    FieldsOfWord(tag);
    assert Fields(" " + tag) == [tag];
    assert line + " " + tag == line + (" " + tag);
  }

  lemma LabelsOfTaggedRows(lines: seq<string>, tags: seq<string>)
    requires |lines| == |tags|
    requires forall k :: 0 <= k < |tags| ==> |tags[k]| > 0 && NoSpace(tags[k])
    ensures Chunker.LabelsOfLines(TagRows(lines, tags)) == tags
  {
    var rows := TagRows(lines, tags);
    forall k | 0 <= k < |rows| ensures Chunker.LabelOfLine(rows[k]) == [tags[k]] {
      LastFieldOfTaggedRow(lines[k], tags[k]);
      StripEmptyIff(rows[k]);
    }
    Chunker.FlatMapSingletons(rows, tags, Chunker.LabelOfLine);
  }

  /** Training rows and label extraction are inverse: reading the labels
      of a training sequence gives its tags back, one per row. */
  lemma TrainingLabelsRoundTrip(lines: seq<string>, tags: seq<string>)
    requires |lines| == |tags|
    requires forall k :: 0 <= k < |lines| ==> '\n' !in lines[k]
    requires forall k :: 0 <= k < |tags| ==> |tags[k]| > 0 && NoSpace(tags[k])
    ensures Chunker.ExtractLabels(ToTrainSequence(lines, tags)) == tags
  {
    if |lines| == 0 {
      assert Chunker.LabelsOfLines([""]) == [] by {
        Chunker.LabelsOfOneLine("");
      }
    } else {
      forall k | 0 <= k < |tags| ensures '\n' !in tags[k] {
        assert NoSpace(tags[k]);
      }
      LabelsOfTaggedRows(lines, tags);
    }
  }

  /** A tagger that answers with each data row followed by its label, as
      Wapiti's labelling output does, yields exactly those labels. */
  lemma GetLabelsOfEchoingTagger(featureLines: seq<string>, labels: seq<string>, labelSequence: string -> string)
    requires |featureLines| == |labels|
    requires forall k :: 0 <= k < |featureLines| ==> '\n' !in featureLines[k]
    requires forall k :: 0 <= k < |labels| ==> |labels[k]| > 0 && NoSpace(labels[k])
    requires labelSequence(Join(featureLines, '\n')) == ToTrainSequence(featureLines, labels)
    ensures Chunker.GetLabels(featureLines, labelSequence) == labels
  {
    TrainingLabelsRoundTrip(featureLines, labels);
  }

  // ---------------------------------------------------------------------
  // development data arguments

  /** Python truthiness of an optional sequence: present and non-empty. */
  predicate Truthy<T>(x: Option<seq<T>>) {
    x.Some? && |x.value| > 0
  }

  /** Lines 215-217 as written: `any([X_dev, y_dev, out_dev])` tests
      truthiness, so empty arguments do not trigger the check. */
  function CheckDevArgumentsAsWritten<A, B>(xDev: Option<seq<A>>, yDev: Option<seq<B>>, outDev: Option<string>): (r: Result<()>)
    ensures r.Failure? ==> r.error == IncompleteDevData
    ensures r.Failure? <==> (Truthy(xDev) || Truthy(yDev) || Truthy(outDev)) && (xDev.None? || yDev.None?)
  {
    if Truthy(xDev) || Truthy(yDev) || Truthy(outDev) then
      if xDev.None? || yDev.None? then Failure(IncompleteDevData) else Success(())
    else Success(())
  }

  /** An empty `X_dev` without `y_dev` passes the check; `fit` then takes
      the development branch (`X_dev is not None`) with no labels to zip. */
  lemma EmptyDevDataWithoutLabelsAccepted()
    ensures var xDev: Option<seq<int>> := Some([]);
      var yDev: Option<seq<string>> := None;
      CheckDevArgumentsAsWritten(xDev, yDev, None).Success? && xDev.Some? && yDev.None?
  {
  }

  /** The check with `is not None` tests, as the error message intends. */
  function CheckDevArguments<A, B>(xDev: Option<seq<A>>, yDev: Option<seq<B>>, outDev: Option<string>): (r: Result<()>)
    ensures r.Failure? ==> r.error == IncompleteDevData
  {
    if xDev.Some? || yDev.Some? || outDev.Some? then
      if xDev.None? || yDev.None? then Failure(IncompleteDevData) else Success(())
    else Success(())
  }

  /** The corrected check accepts exactly the calls that pass both or
      neither of `X_dev`, `y_dev`, with `out_dev` only alongside them; so
      the development branch always has labels. */
  lemma DevArgumentsAccepted<A, B>(xDev: Option<seq<A>>, yDev: Option<seq<B>>, outDev: Option<string>)
    ensures CheckDevArguments(xDev, yDev, outDev).Success? <==>
      (xDev.Some? <==> yDev.Some?) && (outDev.Some? ==> xDev.Some?)
    ensures CheckDevArguments(xDev, yDev, outDev).Success? && xDev.Some? ==> yDev.Some?
  {
  }

  /** The two checks differ only on empty arguments: on present,
      non-empty ones they agree. */
  lemma DevChecksAgreeOnNonEmpty<A, B>(xDev: Option<seq<A>>, yDev: Option<seq<B>>, outDev: Option<string>)
    requires xDev.Some? ==> |xDev.value| > 0
    requires yDev.Some? ==> |yDev.value| > 0
    requires outDev.Some? ==> |outDev.value| > 0
    ensures CheckDevArguments(xDev, yDev, outDev) == CheckDevArgumentsAsWritten(xDev, yDev, outDev)
  {
  }

  /** The `WapitiCRF` encoder: `WapitiFeatureEncoder()` with its defaults. */
  function CrfEncoder(): (e: Encoder)
    ensures e.moveToFront == ["token"] && e.featureNames.None? && e.vocabulary.None?
  {
    NewEncoder(DefaultFront)
  }

  /** Lines 219-220: `reset` then `fit`, so the vocabulary depends on the
      training sequences alone. */
  function Refit<V>(e: Encoder, X: seq<seq<FeatureDict<V>>>, order: set<string> -> seq<string>): (r: Encoder)
    requires IsSetOrder(order)
    ensures r.moveToFront == e.moveToFront
    ensures r.featureNames.Some? && r.vocabulary.Some?
    ensures |r.featureNames.value| >= |e.moveToFront| && r.featureNames.value[..|e.moveToFront|] == e.moveToFront
    ensures Elements(r.featureNames.value) == Elements(e.moveToFront) + ObservedKeys(X)
    ensures r.vocabulary.value.Keys == Elements(r.featureNames.value)
    ensures Distinct(e.moveToFront) ==>
      Distinct(r.featureNames.value) &&
      forall i :: 0 <= i < |r.featureNames.value| ==> r.vocabulary.value[r.featureNames.value[i]] == i
  {
    var fitted := Fit(Reset(e), X, order);
    FitAfterReset(e, X, order);
    if Distinct(e.moveToFront) then
      IndexMapInverts(fitted.featureNames.value);
      fitted
    else fitted
  }

  /** After a refit with distinct front names, front name `i` is column `i`. */
  lemma RefitPinsFront<V>(e: Encoder, X: seq<seq<FeatureDict<V>>>, order: set<string> -> seq<string>)
    requires IsSetOrder(order)
    ensures var r := Refit(e, X, order);
      Distinct(e.moveToFront) ==>
        forall i :: 0 <= i < |e.moveToFront| ==>
          e.moveToFront[i] in r.vocabulary.value && r.vocabulary.value[e.moveToFront[i]] == i
  {
    var r := Refit(e, X, order);
    forall i | 0 <= i < |e.moveToFront| ensures r.featureNames.value[i] == e.moveToFront[i] {
      assert r.featureNames.value[..|e.moveToFront|][i] == e.moveToFront[i];
    }
  }

  /** The start of `fit` (lines 215-220): check the development arguments,
      then refit the encoder on the training sequences. It goes ahead
      exactly when `X_dev` and `y_dev` are both given or both left out,
      with `out_dev` only alongside them; the refitted names are then the
      front names, pinned first, and the training keys, nothing older. */
  function FitEncoder<V, B>(e: Encoder, X: seq<seq<FeatureDict<V>>>, xDev: Option<seq<seq<FeatureDict<V>>>>,
                            yDev: Option<seq<B>>, outDev: Option<string>, order: set<string> -> seq<string>): (r: Result<Encoder>)
    requires IsSetOrder(order)
    ensures r.Success? <==> (xDev.Some? <==> yDev.Some?) && (outDev.Some? ==> xDev.Some?)
    ensures r.Failure? ==> r.error == IncompleteDevData
    ensures r.Success? ==>
      && r.value.moveToFront == e.moveToFront
      && r.value.featureNames.Some? && r.value.vocabulary.Some?
      && Elements(r.value.featureNames.value) == Elements(e.moveToFront) + ObservedKeys(X)
      && r.value.vocabulary.value.Keys == Elements(r.value.featureNames.value)
      && (Distinct(e.moveToFront) ==>
            && Distinct(r.value.featureNames.value)
            && forall i :: 0 <= i < |e.moveToFront| ==>
                 e.moveToFront[i] in r.value.vocabulary.value && r.value.vocabulary.value[e.moveToFront[i]] == i)
  {
    DevArgumentsAccepted(xDev, yDev, outDev);
    var _ :- CheckDevArguments(xDev, yDev, outDev);
    RefitPinsFront(e, X, order);
    Success(Refit(e, X, order))
  }

  /** For the CRF's own encoder, `token` is column 0 after every accepted
      `fit`, and no feature name is listed twice. */
  lemma CrfFitPinsToken<V, B>(X: seq<seq<FeatureDict<V>>>, xDev: Option<seq<seq<FeatureDict<V>>>>,
                              yDev: Option<seq<B>>, outDev: Option<string>, order: set<string> -> seq<string>)
    requires IsSetOrder(order)
    ensures var r := FitEncoder(CrfEncoder(), X, xDev, yDev, outDev, order);
      r.Success? ==>
        && "token" in r.value.vocabulary.value && r.value.vocabulary.value["token"] == 0
        && Distinct(r.value.featureNames.value)
  {
    var e := CrfEncoder();
    assert Distinct(e.moveToFront) && e.moveToFront[0] == "token";
  }
}

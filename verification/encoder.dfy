/** `WapitiFeatureEncoder` of webstruct/wapiti.py: it learns the ordered
    feature vocabulary, writes token feature dicts as Wapiti data rows,
    compiles templates against the vocabulary and emits the unigram
    template block. The encoder is an immutable record; every method of
    the class that assigns attributes returns the updated record. */
module FeatureEncoder {
  import opened Results
  import opened Text
  import Template

  /** One token's features: name -> value. */
  type FeatureDict<V> = map<string, V>

  /** `move_to_front`, `feature_names_` and `vocabulary_`; `None` stands
      for the attribute being `None`. */
  datatype Encoder = Encoder(
    moveToFront: seq<string>,
    featureNames: Option<seq<string>>,
    vocabulary: Option<Template.Vocabulary>)

  /** The constructor's default `move_to_front=('token',)`. */
  const DefaultFront: seq<string> := ["token"]

  function NewEncoder(moveToFront: seq<string>): Encoder {
    Encoder(moveToFront, None, None)
  }

  predicate Distinct<T(==)>(xs: seq<T>) {
    forall i, j :: 0 <= i < j < |xs| ==> xs[i] != xs[j]
  }

  function Elements<T(==)>(xs: seq<T>): set<T> {
    set x | x in xs
  }

  /** `xs` lists every member of `s` exactly once. */
  ghost predicate IsEnumeration(xs: seq<string>, s: set<string>) {
    Distinct(xs) && Elements(xs) == s
  }

  /** `tuple(keys)` for a Python set: some duplicate-free enumeration,
      in an order the model leaves open. */
  ghost predicate IsSetOrder(order: set<string> -> seq<string>) {
    forall s :: IsEnumeration(order(s), s)
  }

  // ---------------------------------------------------------------------
  // fitting

  /** `get_combined_keys(feature_dicts)`, taken to be the union of the keys. */
  function CombinedKeys<V>(dicts: seq<FeatureDict<V>>): (keys: set<string>)
    ensures forall name :: name in keys <==> exists k :: 0 <= k < |dicts| && name in dicts[k]
    decreases |dicts|
  {
    if |dicts| == 0 then {}
    else
      var rest := CombinedKeys(dicts[1..]);
      assert forall k :: 1 <= k < |dicts| ==> dicts[k] == dicts[1..][k - 1];
      dicts[0].Keys + rest
  }

  /** Every name of every dict of every sequence in `X`. */
  function ObservedKeys<V>(X: seq<seq<FeatureDict<V>>>): (keys: set<string>)
    ensures forall name :: name in keys <==>
      exists k, j :: 0 <= k < |X| && 0 <= j < |X[k]| && name in X[k][j]
    decreases |X|
  {
    if |X| == 0 then {}
    else
      var rest := ObservedKeys(X[1..]);
      assert forall k :: 1 <= k < |X| ==> X[k] == X[1..][k - 1];
      CombinedKeys(X[0]) + rest
  }

  /** The loop of `partial_fit`: for each sequence, add its keys and
      remove the front names. With no sequence the set is left as it was. */
  function AccumulateKeys<V>(keys: set<string>, X: seq<seq<FeatureDict<V>>>, front: set<string>): (r: set<string>)
    ensures r == if |X| == 0 then keys else (keys + ObservedKeys(X)) - front
    decreases |X|
  {
    if |X| == 0 then keys
    else AccumulateKeys((keys + CombinedKeys(X[0])) - front, X[1..], front)
  }

  /** `set(self.feature_names_ or set())`. */
  function PriorNames(e: Encoder): set<string> {
    match e.featureNames
    case Some(names) => Elements(names)
    case None => {}
  }

  /** `dict((f, i) for i, f in enumerate(names))`: a repeated name keeps
      its last index. */
  function IndexMap(names: seq<string>): (m: map<string, nat>)
    ensures m.Keys == Elements(names)
    ensures forall n :: n in m ==> m[n] < |names| && names[m[n]] == n
    ensures forall n, j :: n in m && m[n] < j < |names| ==> names[j] != n
    decreases |names|
  {
    if |names| == 0 then map[]
    else
      var init := names[..|names| - 1];
      assert names == init + [names[|names| - 1]];
      IndexMap(init)[names[|names| - 1] := |names| - 1]
  }

  /** `partial_fit(X)`; `order` stands for the iteration order of the key set. */
  function PartialFit<V>(e: Encoder, X: seq<seq<FeatureDict<V>>>, order: set<string> -> seq<string>): (r: Encoder)
    requires IsSetOrder(order)
    ensures r.moveToFront == e.moveToFront
    ensures r.featureNames.Some? && r.vocabulary.Some?
    ensures |r.featureNames.value| >= |e.moveToFront|
    ensures r.featureNames.value[..|e.moveToFront|] == e.moveToFront
    ensures r.vocabulary.value.Keys == Elements(r.featureNames.value)
    ensures forall n :: n in r.vocabulary.value ==>
      r.vocabulary.value[n] < |r.featureNames.value| && r.featureNames.value[r.vocabulary.value[n]] == n
  {
    var keys := AccumulateKeys(PriorNames(e), X, Elements(e.moveToFront));
    var names := e.moveToFront + order(keys);
    Encoder(e.moveToFront, Some(names), Some(IndexMap(names)))
  }

  /** `fit(X)` is `partial_fit(X)`: it does not reset first, so the names
      fitted before are kept. The front names come first and are pinned
      to their positions whenever the fitted names are duplicate-free. */
  function Fit<V>(e: Encoder, X: seq<seq<FeatureDict<V>>>, order: set<string> -> seq<string>): (r: Encoder)
    requires IsSetOrder(order)
    ensures r.moveToFront == e.moveToFront
    ensures r.featureNames.Some? && r.vocabulary.Some?
    ensures |r.featureNames.value| >= |e.moveToFront|
    ensures r.featureNames.value[..|e.moveToFront|] == e.moveToFront
    ensures Elements(r.featureNames.value) == Elements(e.moveToFront) + PriorNames(e) + ObservedKeys(X)
    ensures r.vocabulary.value.Keys == Elements(r.featureNames.value)
    ensures Distinct(e.moveToFront) && (|X| > 0 || PriorNames(e) !! Elements(e.moveToFront)) ==>
      && Distinct(r.featureNames.value)
      && forall i :: 0 <= i < |r.featureNames.value| ==> r.vocabulary.value[r.featureNames.value[i]] == i
  {
    var r := PartialFit(e, X, order);
    VocabularyContents(e, X, order);
    if Distinct(e.moveToFront) && (|X| > 0 || PriorNames(e) !! Elements(e.moveToFront)) then
      NamesDistinct(e, X, order);
      IndexMapInverts(r.featureNames.value);
      r
    else r
  }

  /** `reset()`: forgets `feature_names_` only; `vocabulary_` and
      `move_to_front` are kept, so no names count as fitted before. */
  function Reset(e: Encoder): (r: Encoder)
    ensures r.featureNames.None? && PriorNames(r) == {}
    ensures r.vocabulary == e.vocabulary && r.moveToFront == e.moveToFront
  {
    e.(featureNames := None)
  }

  /** Fitting never loses a name: the vocabulary is exactly the front
      names, the names fitted before and every key observed now. */
  lemma VocabularyContents<V>(e: Encoder, X: seq<seq<FeatureDict<V>>>, order: set<string> -> seq<string>)
    requires IsSetOrder(order)
    ensures Elements(PartialFit(e, X, order).featureNames.value) ==
      Elements(e.moveToFront) + PriorNames(e) + ObservedKeys(X)
  {
    var front := e.moveToFront;
    var keys := AccumulateKeys(PriorNames(e), X, Elements(front));
    assert IsEnumeration(order(keys), keys);
    var names := front + order(keys);
    assert Elements(names) == Elements(front) + Elements(order(keys));
  }

  /** The fitted names are duplicate-free when the front names are and
      the fit either sees data or starts without front names. */
  lemma NamesDistinct<V>(e: Encoder, X: seq<seq<FeatureDict<V>>>, order: set<string> -> seq<string>)
    requires IsSetOrder(order)
    requires Distinct(e.moveToFront)
    requires |X| > 0 || PriorNames(e) !! Elements(e.moveToFront)
    ensures Distinct(PartialFit(e, X, order).featureNames.value)
  {
    var front := e.moveToFront;
    var keys := AccumulateKeys(PriorNames(e), X, Elements(front));
    var rest := order(keys);
    assert IsEnumeration(rest, keys);
    var names := front + rest;
    forall i, j | 0 <= i < j < |names| ensures names[i] != names[j] {
      if j < |front| {
      } else if i >= |front| {
        assert names[i] == rest[i - |front|] && names[j] == rest[j - |front|];
      } else {
        assert names[j] == rest[j - |front|] && rest[j - |front|] in keys;
        assert names[i] in Elements(front);
      }
    }
  }

  /** Over duplicate-free names the vocabulary inverts the name list. */
  lemma IndexMapInverts(names: seq<string>)
    requires Distinct(names)
    ensures forall i :: 0 <= i < |names| ==> IndexMap(names)[names[i]] == i
  {
    var m := IndexMap(names);
    forall i | 0 <= i < |names| ensures m[names[i]] == i {
      assert names[i] in Elements(names);
    }
  }

  /** Front pinning: each front name gets its position in `move_to_front`. */
  lemma FrontPinned<V>(e: Encoder, X: seq<seq<FeatureDict<V>>>, order: set<string> -> seq<string>)
    requires IsSetOrder(order)
    requires Distinct(e.moveToFront)
    requires |X| > 0 || PriorNames(e) !! Elements(e.moveToFront)
    ensures var r := PartialFit(e, X, order);
      forall i :: 0 <= i < |e.moveToFront| ==> r.vocabulary.value[e.moveToFront[i]] == i
  {
    var r := PartialFit(e, X, order);
    NamesDistinct(e, X, order);
    IndexMapInverts(r.featureNames.value);
    forall i | 0 <= i < |e.moveToFront|
      ensures r.featureNames.value[i] == e.moveToFront[i]
    {
      assert r.featureNames.value[..|e.moveToFront|][i] == e.moveToFront[i];
    }
  }

  /** The quirk of an empty batch after a fit: the loop never runs, the
      earlier names still hold the front names, and these come out twice. */
  lemma EmptyRefitRepeatsFront<V>(e: Encoder, X: seq<seq<FeatureDict<V>>>, order: set<string> -> seq<string>)
    requires IsSetOrder(order)
    requires |e.moveToFront| > 0
    ensures var refit := PartialFit<V>(PartialFit(e, X, order), [], order);
      && !Distinct(refit.featureNames.value)
      && refit.featureNames.value[0] == e.moveToFront[0]
      && exists k :: (|e.moveToFront| <= k < |refit.featureNames.value|
                      && refit.featureNames.value[k] == e.moveToFront[0])
  {
    var fitted := PartialFit(e, X, order);
    var front := e.moveToFront;
    VocabularyContents(e, X, order);
    var prior := PriorNames(fitted);
    assert front[0] in prior;
    var refit := PartialFit<V>(fitted, [], order);
    var rest := order(prior);
    assert IsEnumeration(rest, prior);
    assert front[0] in Elements(rest);
    var k :| 0 <= k < |rest| && rest[k] == front[0];
    assert refit.featureNames.value[0] == refit.featureNames.value[|front| + k];
  }

  /** After `reset`, a fit depends on the front names and the data alone:
      it forgets every name seen before and is duplicate-free whenever the
      front names are. */
  lemma FitAfterReset<V>(e: Encoder, X: seq<seq<FeatureDict<V>>>, order: set<string> -> seq<string>)
    requires IsSetOrder(order)
    ensures var r := Fit(Reset(e), X, order);
      && r == Fit(NewEncoder(e.moveToFront), X, order)
      && Elements(r.featureNames.value) == Elements(e.moveToFront) + ObservedKeys(X)
      && (Distinct(e.moveToFront) ==> Distinct(r.featureNames.value))
  {
    VocabularyContents(Reset(e), X, order);
    if Distinct(e.moveToFront) {
      NamesDistinct(Reset(e), X, order);
    }
  }

  // ---------------------------------------------------------------------
  // data rows

  /** `dct.get(key)`. */
  function Get<V>(d: FeatureDict<V>, name: string): Option<V> {
    if name in d then Some(d[name]) else None
  }

  /** The column texts of one row: `tostr(dct.get(key))` per feature name. */
  function Columns<V>(names: seq<string>, d: FeatureDict<V>, tostr: Option<V> -> string): (cols: seq<string>)
    ensures |cols| == |names|
    ensures forall k :: 0 <= k < |names| ==> cols[k] == tostr(Get(d, names[k]))
    decreases |names|
  {
    if |names| == 0 then []
    else [tostr(Get(d, names[0]))] + Columns(names[1..], d, tostr)
  }

  /** One data row: the columns joined by single spaces. */
  function EncodeRow<V>(names: seq<string>, d: FeatureDict<V>, tostr: Option<V> -> string): string {
    Join(Columns(names, d, tostr), ' ')
  }

  function EncodeRows<V>(names: seq<string>, dicts: seq<FeatureDict<V>>, tostr: Option<V> -> string): (rows: seq<string>)
    ensures |rows| == |dicts|
    ensures forall k :: 0 <= k < |dicts| ==> rows[k] == EncodeRow(names, dicts[k], tostr)
    decreases |dicts|
  {
    if |dicts| == 0 then []
    else [EncodeRow(names, dicts[0], tostr)] + EncodeRows(names, dicts[1..], tostr)
  }

  /** `transform_single(feature_dicts)`: one row per dict, in order. Iterating
      an unset `feature_names_` raises, which only happens for a non-empty input. */
  function TransformSingle<V>(e: Encoder, dicts: seq<FeatureDict<V>>, tostr: Option<V> -> string): (r: Result<seq<string>>)
    ensures r.Success? <==> |dicts| == 0 || e.featureNames.Some?
    ensures r.Failure? ==> r.error == NotFitted
    ensures r.Success? ==>
      && |r.value| == |dicts|
      && forall k :: 0 <= k < |dicts| ==> r.value[k] == EncodeRow(e.featureNames.value, dicts[k], tostr)
  {
    if |dicts| == 0 then Success([])
    else
      match e.featureNames
      case None => Failure(NotFitted)
      case Some(names) => Success(EncodeRows(names, dicts, tostr))
  }

  /** `transform(X)`: keeps the outer order and each sequence's token
      order; it fails only with no names fitted and some non-empty sequence. */
  function Transform<V>(e: Encoder, X: seq<seq<FeatureDict<V>>>, tostr: Option<V> -> string): (r: Result<seq<seq<string>>>)
    ensures r.Success? <==> (e.featureNames.Some? || forall k :: 0 <= k < |X| ==> |X[k]| == 0)
    ensures r.Failure? ==> r.error == NotFitted
    ensures r.Success? ==>
      && |r.value| == |X|
      && forall k :: 0 <= k < |X| ==>
        |r.value[k]| == |X[k]| &&
        forall j :: 0 <= j < |X[k]| ==> r.value[k][j] == EncodeRow(e.featureNames.value, X[k][j], tostr)
  {
    MapResultSpec(X, dicts => TransformSingle(e, dicts, tostr));
    MapResult(X, dicts => TransformSingle(e, dicts, tostr))
  }

  /** A row splits back into its columns at the spaces, one column per
      vocabulary name in vocabulary order, when no value prints a space. */
  lemma RowColumns<V>(names: seq<string>, d: FeatureDict<V>, tostr: Option<V> -> string)
    requires |names| > 0
    requires forall k :: 0 <= k < |names| ==> ' ' !in tostr(Get(d, names[k]))
    ensures var cols := Split(EncodeRow(names, d, tostr), ' ');
      |cols| == |names| && forall k :: 0 <= k < |names| ==> cols[k] == tostr(Get(d, names[k]))
  {
    SplitJoin(Columns(names, d, tostr), ' ');
  }

  /** The vocabulary index of a feature is the row column that holds its
      value: what a compiled template refers to is what the row carries. */
  lemma VocabularyIndexSelectsColumn<V>(names: seq<string>, d: FeatureDict<V>, tostr: Option<V> -> string, name: string)
    requires Distinct(names) && name in Elements(names)
    requires forall k :: 0 <= k < |names| ==> ' ' !in tostr(Get(d, names[k]))
    ensures var cols := Split(EncodeRow(names, d, tostr), ' ');
      IndexMap(names)[name] < |cols| && cols[IndexMap(names)[name]] == tostr(Get(d, name))
  {
    RowColumns(names, d, tostr);
  }

  // ---------------------------------------------------------------------
  // templates

  /** `prepare_template(template)`: compile against `vocabulary_`. With no
      vocabulary the first named column raises. */
  function PrepareTemplate(e: Encoder, template: string): (r: Result<string>)
    ensures r.Failure? && e.vocabulary.Some? ==>
      r.error.UnknownFeature? && r.error.name !in e.vocabulary.value
    ensures r.Failure? && e.vocabulary.None? ==> r.error == NotFitted
    ensures e.vocabulary.Some? ==> r == Template.CompileTemplate(template, e.vocabulary.value)
    ensures e.vocabulary.None? ==>
      (r.Success? <==> Template.CompileTemplate(template, map[]).Success?)
    ensures e.vocabulary.None? && r.Success? ==> r == Template.CompileTemplate(template, map[])
  {
    match e.vocabulary
    case Some(v) =>
      var r := Template.CompileTemplate(template, v);
      if r.Failure? then
        var lines := SplitLines(template);
        var k :| 0 <= k < |lines| && !Template.IsComment(lines[k])
          && Template.CompileLine(lines[k], v) == Failure(r.error);
        r
      else r
    case None =>
      match Template.CompileTemplate(template, map[])
      case Success(out) => Success(out)
      case Failure(_) => Failure(NotFitted)
  }

  /** `reset` leaves the encoder half-cleared: templates still compile
      against the stale vocabulary while rows can no longer be written. */
  lemma ResetKeepsStaleVocabulary<V>(e: Encoder, template: string, dicts: seq<FeatureDict<V>>, tostr: Option<V> -> string)
    requires |dicts| > 0
    ensures PrepareTemplate(Reset(e), template) == PrepareTemplate(e, template)
    ensures TransformSingle(Reset(e), dicts, tostr) == Failure(NotFitted)
  {
  }

  const UnigramHeader: string := "# Unigrams for all custom features"

  /** `{scope}feat:{name}=%x[0,{col}]`. */
  function UnigramLine(scope: string, name: string, col: nat): string {
    scope + "feat:" + name + "=%x[0," + NatToString(col) + "]"
  }

  /** The unigram lines of `names`, numbered from `from`. */
  function UnigramLines(scope: string, names: seq<string>, from: nat): (lines: seq<string>)
    ensures |lines| == |names|
    ensures forall k :: 0 <= k < |names| ==> lines[k] == UnigramLine(scope, names[k], from + k)
    decreases |names|
  {
    if |names| == 0 then []
    else [UnigramLine(scope, names[0], from)] + UnigramLines(scope, names[1..], from + 1)
  }

  /** The default `scope='*'`. */
  const DefaultScope: string := "*"

  /** `unigram_features_template(scope)`: an empty line, the header, then
      one `%x[0,i]` line per feature name in vocabulary order, and a final
      newline. Iterating an unset `feature_names_` raises. */
  function UnigramFeaturesTemplate(e: Encoder, scope: string): (r: Result<string>)
    ensures r.Success? <==> e.featureNames.Some?
    ensures r.Failure? ==> r.error == NotFitted
    ensures r.Success? ==> |r.value| > 0 && r.value[|r.value| - 1] == '\n'
    ensures (&& r.Success? && '\n' !in scope
             && (forall k :: 0 <= k < |e.featureNames.value| ==> '\n' !in e.featureNames.value[k])) ==>
      SplitLines(r.value) == ["", UnigramHeader] + UnigramLines(scope, e.featureNames.value, 0)
  {
    match e.featureNames
    case None => Failure(NotFitted)
    case Some(names) =>
      var body := UnigramLines(scope, names, 0);
      assert '\n' !in scope && (forall k :: 0 <= k < |names| ==> '\n' !in names[k]) ==>
        SplitLines(Join(["\n" + UnigramHeader] + body, '\n') + "\n") == ["", UnigramHeader] + body by {
        if '\n' !in scope && (forall k :: 0 <= k < |names| ==> '\n' !in names[k]) {
          HeaderNewlineFree();
          UnigramLinesNewlineFree(scope, names, 0);
          BlockLines(UnigramHeader, body);
        }
      }
      Success(Join(["\n" + UnigramHeader] + body, '\n') + "\n")
  }

  /** No unigram line holds a newline when the scope and names do not. */
  lemma UnigramLinesNewlineFree(scope: string, names: seq<string>, from: nat)
    requires '\n' !in scope
    requires forall k :: 0 <= k < |names| ==> '\n' !in names[k]
    ensures forall k :: 0 <= k < |names| ==> '\n' !in UnigramLines(scope, names, from)[k]
  {
    forall k | 0 <= k < |names| ensures '\n' !in UnigramLines(scope, names, from)[k] {
      var n := NatToString(from + k);
      assert forall c :: c in n ==> IsDigit(c);
      assert UnigramLines(scope, names, from)[k] == scope + "feat:" + names[k] + "=%x[0," + n + "]";
    }
  }

  lemma HeaderNewlineFree()
    ensures '\n' !in UnigramHeader
  {
  }

  /** Prefixing a first line with a newline is the same as an empty line before it. */
  lemma LeadingNewline(header: string, body: seq<string>)
    ensures Join(["\n" + header] + body, '\n') == Join(["", header] + body, '\n')
  {
    var tail := [header] + body;
    JoinPrependFirst("\n", tail, '\n');
    assert tail[1..] == body;
    assert ([""] + tail)[1..] == tail;
  }

  lemma BlockNewlineFree(header: string, body: seq<string>)
    requires '\n' !in header
    requires forall k :: 0 <= k < |body| ==> '\n' !in body[k]
    ensures forall k :: 0 <= k < |["", header] + body| ==> '\n' !in (["", header] + body)[k]
  {
    var ls := ["", header] + body;
    forall k | 0 <= k < |ls| ensures '\n' !in ls[k] {
      if k >= 2 { assert ls[k] == body[k - 2]; }
    }
  }

  /** A newline-free header and body written as the block: empty line,
      header, body, final newline. */
  lemma BlockLines(header: string, body: seq<string>)
    requires '\n' !in header
    requires forall k :: 0 <= k < |body| ==> '\n' !in body[k]
    ensures SplitLines(Join(["\n" + header] + body, '\n') + "\n") == ["", header] + body
  {
    LeadingNewline(header, body);
    BlockNewlineFree(header, body);
    SplitLinesTerminated(["", header] + body);
  }

  /** Each unigram line refers to its feature by the column the vocabulary
      gives it, so the block agrees with the rows `transform` writes. */
  lemma UnigramColumnsFollowVocabulary<V>(e: Encoder, X: seq<seq<FeatureDict<V>>>, order: set<string> -> seq<string>, scope: string)
    requires IsSetOrder(order)
    requires Distinct(e.moveToFront)
    requires |X| > 0 || PriorNames(e) !! Elements(e.moveToFront)
    ensures var r := PartialFit(e, X, order);
      var names := r.featureNames.value;
      forall k :: 0 <= k < |names| ==>
        UnigramLines(scope, names, 0)[k] == UnigramLine(scope, names[k], r.vocabulary.value[names[k]])
  {
    var r := PartialFit(e, X, order);
    NamesDistinct(e, X, order);
    IndexMapInverts(r.featureNames.value);
  }
}

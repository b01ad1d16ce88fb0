/** The docstring examples of `prepare_wapiti_template` and
    `WapitiFeatureEncoder.prepare_template` in webstruct/wapiti.py, proved
    on the model. Each literal line is taken apart once (where its macro
    starts and ends), compiled through the general lemmas of `Template`,
    and only then compared with the expected text. */
module Doctests {
  import opened Results
  import opened Text
  import opened Template
  import FeatureEncoder

  /** `vocab = {'token': 0, 'tag': 1}`. */
  const DocVocabulary: Vocabulary := map["token" := 0, "tag" := 1]

  const PositionLine: string := "*:Pos-1 L=%x[-1, tag]"
  const PositionOut: string := "*:Pos-1 L=%x[-1,1]"
  const PositionMacro: Macro := Macro('x', "-1", "tag", ']', 21)

  const SuffixLine: string := "*:Suf-2 X=%m[ 0,token,\".?.?$\"]"
  const SuffixOut: string := "*:Suf-2 X=%m[0,0,\".?.?$\"]"
  const SuffixMacro: Macro := Macro('m', "0", "token", ',', 22)

  const CommentedSuffixLine: string := "# *:Suf-2 X=%m[ 0,token,\".?.?$\"]"

  // ---------------------------------------------------------------------
  // `*:Pos-1 L=%x[-1, tag]`

  lemma PositionPercents()
    ensures |PositionLine| == 21
    ensures forall j :: 0 <= j < 10 ==> PositionLine[j] != '%'
  {
  }

  lemma PositionGroups()
    ensures |PositionLine| == 21
    ensures PositionLine[11] == 'x' && PositionLine[13..15] == "-1"
    ensures PositionLine[17..20] == "tag" && PositionLine[20] == ']'
  {
  }

  lemma PositionHead()
    ensures |PositionLine| == 21
    ensures PositionLine[10] == '%' && IsSigil(PositionLine[11]) && PositionLine[12] == '['
    ensures AllIn(PositionLine, 13, 13, IsSpace)
  {
  }

  lemma PositionOffset()
    ensures |PositionLine| == 21
    ensures IsOffsetPart(PositionLine, 13, 14, 15, 15)
  {
  }

  lemma PositionColumn()
    ensures |PositionLine| == 21
    ensures IsColumnPart(PositionLine, 15, 17, 20, 20)
  {
  }

  lemma PositionMatch()
    ensures MatchAt(PositionLine, 10) == Some(PositionMacro)
  {
    PositionHead();
    PositionOffset();
    PositionColumn();
    MatchAtComplete(PositionLine, 10, 13, 14, 15, 15, 17, 20, 20);
    PositionGroups();
  }

  lemma ResolveTag(v: Vocabulary)
    requires v == DocVocabulary
    ensures Resolve("tag", v) == Success("1")
  {
    assert !IsDecimal("tag") by { assert !IsDigit("tag"[0]); }
    assert "tag" in v && v["tag"] == 1;
    assert NatToString(1) == "1";
  }

  /** The position line has its only match at index 10. */
  lemma PositionOnlyMatch(line: string)
    requires line == PositionLine
    ensures 10 < |line| && MatchAt(line, 10) == Some(PositionMacro)
    ensures forall j :: 0 <= j < 10 ==> MatchAt(line, j).None?
    ensures PositionMacro.end == |line|
  {
    PositionPercents();
    NoMatchWithoutPercent(line, 0, 10);
    PositionMatch();
  }

  /** The position line with its one macro rewritten, before the pieces
      are written out as a literal. */
  lemma PositionLineRewritten(line: string, v: Vocabulary)
    requires line == PositionLine && v == DocVocabulary
    ensures CompileLine(line, v) == Success(line[..10] + MacroText(PositionMacro, Resolve("tag", v).value) + line[21..])
  {
    PositionOnlyMatch(line);
    CompileLineOneMacro(line, 10, v);
  }

  /** `*:Pos-1 L=%x[-1, tag]` becomes `*:Pos-1 L=%x[-1,1]`: the space after
      the comma goes and `tag` becomes its index. */
  lemma PositionLineCompiles(line: string, v: Vocabulary)
    requires line == PositionLine && v == DocVocabulary
    ensures CompileLine(line, v) == Success(PositionOut)
  {
    PositionLineRewritten(line, v);
    ResolveTag(v);
    PositionPercents();
    PositionMacroText();
    assert line[21..] == [];
    PositionTail();
    assert line[..10] + "%x[-1,1]" + [] == PositionLine[..10] + "%x[-1,1]";
  }

  lemma PositionMacroText()
    ensures MacroText(PositionMacro, "1") == "%x[-1,1]"
  {
  }

  lemma PositionTail()
    ensures PositionLine[..10] + "%x[-1,1]" == PositionOut
  {
  }

  // ---------------------------------------------------------------------
  // `*:Suf-2 X=%m[ 0,token,".?.?$"]`

  lemma SuffixPercents()
    ensures |SuffixLine| == 30
    ensures forall j :: 0 <= j < 10 ==> SuffixLine[j] != '%'
    ensures forall j :: 22 <= j < 30 ==> SuffixLine[j] != '%'
  {
  }

  lemma SuffixGroups()
    ensures |SuffixLine| == 30
    ensures SuffixLine[11] == 'm' && SuffixLine[14..15] == "0"
    ensures SuffixLine[16..21] == "token" && SuffixLine[21] == ','
  {
    assert SuffixLine[16] == 't' && SuffixLine[17] == 'o' && SuffixLine[18] == 'k'
      && SuffixLine[19] == 'e' && SuffixLine[20] == 'n';
    assert SuffixLine[14] == '0';
  }

  lemma SuffixHead()
    ensures |SuffixLine| == 30
    ensures SuffixLine[10] == '%' && IsSigil(SuffixLine[11]) && SuffixLine[12] == '['
    ensures AllIn(SuffixLine, 13, 14, IsSpace)
  {
  }

  lemma SuffixOffset()
    ensures |SuffixLine| == 30
    ensures IsOffsetPart(SuffixLine, 14, 14, 15, 15)
  {
  }

  lemma SuffixColumn()
    ensures |SuffixLine| == 30
    ensures IsColumnPart(SuffixLine, 15, 16, 21, 21)
  {
  }

  lemma SuffixIsMatch()
    ensures IsMacroMatch(SuffixLine, 10, 14, 14, 15, 15, 16, 21, 21)
  {
    SuffixHead();
    SuffixOffset();
    SuffixColumn();
  }

  lemma SuffixMatch()
    ensures MatchAt(SuffixLine, 10) == Some(SuffixMacro)
  {
    SuffixIsMatch();
    MatchAtComplete(SuffixLine, 10, 14, 14, 15, 15, 16, 21, 21);
    SuffixGroups();
  }

  lemma ResolveToken(v: Vocabulary)
    requires v == DocVocabulary
    ensures Resolve("token", v) == Success("0")
  {
    assert !IsDecimal("token") by { assert !IsDigit("token"[0]); }
    assert "token" in v && v["token"] == 0;
    assert NatToString(0) == "0";
  }

  /** The suffix line has its only match at index 10; the rest is copied. */
  lemma SuffixOnlyMatch(line: string)
    requires line == SuffixLine
    ensures 10 < |line| && MatchAt(line, 10) == Some(SuffixMacro)
    ensures forall j :: 0 <= j < 10 ==> MatchAt(line, j).None?
    ensures forall j :: SuffixMacro.end <= j < |line| ==> MatchAt(line, j).None?
  {
    SuffixPercents();
    NoMatchWithoutPercent(line, 0, 10);
    NoMatchWithoutPercent(line, 22, 30);
    SuffixMatch();
  }

  lemma SuffixLineRewritten(line: string, v: Vocabulary)
    requires line == SuffixLine && v == DocVocabulary
    ensures CompileLine(line, v) == Success(line[..10] + MacroText(SuffixMacro, Resolve("token", v).value) + line[22..])
  {
    SuffixOnlyMatch(line);
    CompileLineOneMacro(line, 10, v);
  }

  lemma SuffixMacroText()
    ensures MacroText(SuffixMacro, "0") == "%m[0,0,"
  {
  }

  lemma SuffixTail()
    ensures SuffixLine[..10] + "%m[0,0," + SuffixLine[22..] == SuffixOut
  {
  }

  /** `*:Suf-2 X=%m[ 0,token,".?.?$"]` becomes `*:Suf-2 X=%m[0,0,".?.?$"]`:
      the match ends at the comma after `token`, and the pattern argument
      after it is copied unchanged. */
  lemma SuffixLineCompiles(line: string, v: Vocabulary)
    requires line == SuffixLine && v == DocVocabulary
    ensures CompileLine(line, v) == Success(SuffixOut)
  {
    SuffixLineRewritten(line, v);
    ResolveToken(v);
    SuffixMacroText();
    SuffixTail();
  }

  // ---------------------------------------------------------------------
  // whole templates

  /** A commented line is copied even though it holds a macro. */
  lemma CommentedSuffixLineCopied(line: string, v: Vocabulary)
    requires line == CommentedSuffixLine
    ensures CompileTemplateLine(line, v) == Success(line)
  {
    StripStartsAtFirstNonSpace(line, 0);
  }

  /** A line starting with `*` is never a comment. */
  lemma StarLineActive(line: string)
    requires |line| > 0 && line[0] == '*'
    ensures !IsComment(line)
  {
    StripStartsAtFirstNonSpace(line, 0);
  }

  lemma JoinPair(a: string, b: string, sep: char)
    ensures Join([a, b], sep) == a + [sep] + b
  {
    assert [a, b][1..] == [b];
  }

  /** A two-line template compiles line by line. */
  lemma TwoLineTemplate(a: string, b: string, outA: string, outB: string, v: Vocabulary)
    requires '\n' !in a && '\n' !in b && b != ""
    requires CompileTemplateLine(a, v) == Success(outA) && CompileTemplateLine(b, v) == Success(outB)
    ensures CompileTemplate(a + "\n" + b, v) == Success(outA + "\n" + outB)
  {
    var lines, outs := [a, b], [outA, outB];
    forall k | 0 <= k < 2
      ensures '\n' !in lines[k] && CompileTemplateLine(lines[k], v) == Success(outs[k])
    {
      if k == 0 {
        assert lines[k] == a && outs[k] == outA;
      } else {
        assert lines[k] == b && outs[k] == outB;
      }
    }
    CompileTemplateOfLines(lines, outs, v);
    JoinPair(a, b, '\n');
    JoinPair(outA, outB, '\n');
  }

  lemma NewlineFree(line: string)
    requires line == PositionLine || line == SuffixLine || line == CommentedSuffixLine
    ensures '\n' !in line && line != ""
  {
    forall k | 0 <= k < |line| ensures line[k] != '\n' {
    }
  }

  /** The first docstring example: both lines are rewritten. */
  lemma TemplateExample(template: string, v: Vocabulary)
    requires template == PositionLine + "\n" + SuffixLine && v == DocVocabulary
    ensures CompileTemplate(template, v) == Success(PositionOut + "\n" + SuffixOut)
  {
    PositionLineCompiles(PositionLine, v);
    SuffixLineCompiles(SuffixLine, v);
    StarLineActive(PositionLine);
    StarLineActive(SuffixLine);
    NewlineFree(PositionLine);
    NewlineFree(SuffixLine);
    TwoLineTemplate(PositionLine, SuffixLine, PositionOut, SuffixOut, v);
  }

  /** The second docstring example: the commented line is left alone. */
  lemma CommentExample(template: string, v: Vocabulary)
    requires template == PositionLine + "\n" + CommentedSuffixLine && v == DocVocabulary
    ensures CompileTemplate(template, v) == Success(PositionOut + "\n" + CommentedSuffixLine)
  {
    PositionLineCompiles(PositionLine, v);
    CommentedSuffixLineCopied(CommentedSuffixLine, v);
    StarLineActive(PositionLine);
    NewlineFree(PositionLine);
    NewlineFree(CommentedSuffixLine);
    TwoLineTemplate(PositionLine, CommentedSuffixLine, PositionOut, CommentedSuffixLine, v);
  }

  // ---------------------------------------------------------------------
  // the encoder of the `prepare_template` docstring

  /** `[{'token': 'the', 'tag': 'DT'}, {'token': 'dog', 'tag': 'NN'}]`. */
  const DocSequence: seq<FeatureEncoder.FeatureDict<string>> :=
    [map["token" := "the", "tag" := "DT"], map["token" := "dog", "tag" := "NN"]]

  lemma NoElements(xs: seq<string>)
    ensures FeatureEncoder.Elements(xs) == {} <==> xs == []
  {
    if xs != [] {
      assert xs[0] in FeatureEncoder.Elements(xs);
    }
  }

  /** A fresh fit on data without names beyond the front ones. */
  lemma FitWithinFront<V>(front: seq<string>, X: seq<seq<FeatureEncoder.FeatureDict<V>>>, order: set<string> -> seq<string>)
    requires FeatureEncoder.IsSetOrder(order)
    requires FeatureEncoder.ObservedKeys(X) <= FeatureEncoder.Elements(front)
    ensures var r := FeatureEncoder.Fit(FeatureEncoder.NewEncoder(front), X, order);
      r.featureNames == Some(front) && r.vocabulary == Some(FeatureEncoder.IndexMap(front))
  {
    var e := FeatureEncoder.NewEncoder(front);
    var keys := FeatureEncoder.AccumulateKeys(FeatureEncoder.PriorNames(e), X, FeatureEncoder.Elements(front));
    assert keys == {};
    assert FeatureEncoder.IsEnumeration(order(keys), keys);
    NoElements(order(keys));
    assert front + order(keys) == front;
  }

  lemma DocSequenceKeys()
    ensures FeatureEncoder.ObservedKeys([DocSequence]) <= FeatureEncoder.Elements(["token", "tag"])
  {
    var X := [DocSequence];
    forall name | name in FeatureEncoder.ObservedKeys(X) ensures name in FeatureEncoder.Elements(["token", "tag"]) {
      var k, j :| 0 <= k < |X| && 0 <= j < |X[k]| && name in X[k][j];
      assert X[k] == DocSequence;
    }
  }

  lemma DocIndexMap()
    ensures FeatureEncoder.IndexMap(["token", "tag"]) == DocVocabulary
  {
    var front := ["token", "tag"];
    var m := FeatureEncoder.IndexMap(front);
    assert m.Keys == {"token", "tag"};
    assert front[m["token"]] == "token" && front[m["tag"]] == "tag";
  }

  /** `WapitiFeatureEncoder(['token', 'tag']).fit([seq_features])` has the
      names `('token', 'tag')` in every set order, and the vocabulary the
      template examples use. */
  lemma DocEncoderFit(order: set<string> -> seq<string>)
    requires FeatureEncoder.IsSetOrder(order)
    ensures var r := FeatureEncoder.Fit(FeatureEncoder.NewEncoder(["token", "tag"]), [DocSequence], order);
      r.featureNames == Some(["token", "tag"]) && r.vocabulary == Some(DocVocabulary)
  {
    DocSequenceKeys();
    FitWithinFront(["token", "tag"], [DocSequence], order);
    DocIndexMap();
  }

  // ---------------------------------------------------------------------
  // the unigram block of the `unigram_features_template` docstring

  /** `print(we.unigram_features_template())` with the default scope,
      line by line: a blank line, the header, two unigram lines, and the
      final newline. */
  const StarUnigrams: string :=
    "\n" + "# Unigrams for all custom features" + "\n" + "*feat:token=%x[0,0]" + "\n" + "*feat:tag=%x[0,1]" + "\n"

  /** `print(we.unigram_features_template('u'))`, line by line. */
  const UUnigrams: string :=
    "\n" + "# Unigrams for all custom features" + "\n" + "ufeat:token=%x[0,0]" + "\n" + "ufeat:tag=%x[0,1]" + "\n"

  lemma SmallNumerals()
    ensures NatToString(0) == "0" && NatToString(1) == "1"
  {
  }

  /** The two unigram lines of the fitted names, for any scope. */
  lemma DocUnigramLines(scope: string, names: seq<string>)
    requires names == ["token", "tag"]
    ensures FeatureEncoder.UnigramLines(scope, names, 0) ==
      [scope + "feat:token=%x[0,0]", scope + "feat:tag=%x[0,1]"]
  {
    SmallNumerals();
    assert FeatureEncoder.UnigramLine(scope, "token", 0) == scope + "feat:token=%x[0,0]";
    assert FeatureEncoder.UnigramLine(scope, "tag", 1) == scope + "feat:tag=%x[0,1]";
  }

  lemma JoinThree(a: string, b: string, c: string, sep: char)
    ensures Join([a, b, c], sep) == a + [sep] + b + [sep] + c
  {
    assert [a, b, c][1..] == [b, c];
    JoinPair(b, c, sep);
  }

  /** The block of an encoder fitted to `('token', 'tag')`, for any scope. */
  lemma DocUnigramBlock(e: FeatureEncoder.Encoder, scope: string)
    requires e.featureNames == Some(["token", "tag"])
    ensures FeatureEncoder.UnigramFeaturesTemplate(e, scope) ==
      Success("\n" + FeatureEncoder.UnigramHeader + "\n" + (scope + "feat:token=%x[0,0]")
              + "\n" + (scope + "feat:tag=%x[0,1]") + "\n")
  {
    var names := e.featureNames.value;
    DocUnigramLines(scope, names);
    var ls := FeatureEncoder.UnigramLines(scope, names, 0);
    assert ["\n" + FeatureEncoder.UnigramHeader] + ls ==
      ["\n" + FeatureEncoder.UnigramHeader, scope + "feat:token=%x[0,0]", scope + "feat:tag=%x[0,1]"];
    JoinThree("\n" + FeatureEncoder.UnigramHeader, scope + "feat:token=%x[0,0]", scope + "feat:tag=%x[0,1]", '\n');
  }

  lemma StarUnigramTextLines(scope: string)
    requires scope == FeatureEncoder.DefaultScope
    ensures scope + "feat:token=%x[0,0]" == "*feat:token=%x[0,0]"
    ensures scope + "feat:tag=%x[0,1]" == "*feat:tag=%x[0,1]"
  {
  }

  lemma StarUnigramText(scope: string)
    requires scope == FeatureEncoder.DefaultScope
    ensures "\n" + FeatureEncoder.UnigramHeader + "\n" + (scope + "feat:token=%x[0,0]")
      + "\n" + (scope + "feat:tag=%x[0,1]") + "\n" == StarUnigrams
  {
    StarUnigramTextLines(scope);
  }

  lemma UUnigramTextLines(scope: string)
    requires scope == "u"
    ensures scope + "feat:token=%x[0,0]" == "ufeat:token=%x[0,0]"
    ensures scope + "feat:tag=%x[0,1]" == "ufeat:tag=%x[0,1]"
  {
  }

  lemma UUnigramText(scope: string)
    requires scope == "u"
    ensures "\n" + FeatureEncoder.UnigramHeader + "\n" + (scope + "feat:token=%x[0,0]")
      + "\n" + (scope + "feat:tag=%x[0,1]") + "\n" == UUnigrams
  {
    UUnigramTextLines(scope);
  }

  /** The docstring's unigram blocks: after the `fit` of the example, the
      default scope `*` and the scope `u` give exactly the printed lines. */
  lemma UnigramExamples(order: set<string> -> seq<string>)
    requires FeatureEncoder.IsSetOrder(order)
    ensures var e := FeatureEncoder.Fit(FeatureEncoder.NewEncoder(["token", "tag"]), [DocSequence], order);
      && FeatureEncoder.UnigramFeaturesTemplate(e, FeatureEncoder.DefaultScope) == Success(StarUnigrams)
      && FeatureEncoder.UnigramFeaturesTemplate(e, "u") == Success(UUnigrams)
  {
    var e := FeatureEncoder.Fit(FeatureEncoder.NewEncoder(["token", "tag"]), [DocSequence], order);
    DocEncoderFit(order);
    DocUnigramBlock(e, FeatureEncoder.DefaultScope);
    StarUnigramText(FeatureEncoder.DefaultScope);
    DocUnigramBlock(e, "u");
    UUnigramText("u");
  }
}

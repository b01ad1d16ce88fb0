/** The Wapiti template compiler of webstruct/wapiti.py: the macro pattern
    `WAPITI_MACRO_PATTERN`, the comment test `_wapiti_line_is_comment` and
    `prepare_wapiti_template`, which rewrites feature names inside
    `%x[offset,column]` macros into column indices. */
module Template {
  import opened Results
  import opened Text

  /** A name -> column mapping, as `vocabulary_` holds it. */
  type Vocabulary = map<string, nat>

  /** The six macro kinds `%x %X %t %T %m %M`. */
  predicate IsSigil(c: char) {
    c in "xXtTmM"
  }

  /** The `rest` group: the closing bracket or a comma. */
  predicate IsDelimiter(c: char) {
    c == ']' || c == ','
  }

  /** `[^\],\s]`: the characters a column reference is made of. */
  predicate IsColumnChar(c: char) {
    !IsSpace(c) && !IsDelimiter(c)
  }

  /** `[-]?\d+`. */
  predicate IsOffset(t: string) {
    (IsDecimal(t)) || (|t| > 1 && t[0] == '-' && IsDecimal(t[1..]))
  }

  /** The groups of one match and the index just past it. */
  datatype Macro = Macro(sigil: char, offset: string, column: string, delimiter: char, end: nat)

  predicate WellFormed(m: Macro) {
    IsSigil(m.sigil) && IsOffset(m.offset) && IsColumnMatch(m)
  }

  /** The macro pattern read literally, position by position: `s[i..g+1]`
      is `%`, a sigil, `[`, whitespace `s[i+3..a]`, the offset `s[a..c]`
      (an optional minus `s[a..b]` and digits `s[b..c]`), whitespace
      `s[c..d]`, a comma at `d`, whitespace `s[d+1..e]`, the column
      `s[e..f]`, whitespace `s[f..g]` and the delimiter at `g`. */
  predicate IsMacroMatch(s: string, i: nat, a: nat, b: nat, c: nat, d: nat, e: nat, f: nat, g: nat) {
    && i + 3 <= a <= |s|
    && s[i] == '%' && IsSigil(s[i + 1]) && s[i + 2] == '['
    && AllIn(s, i + 3, a, IsSpace)
    && IsOffsetPart(s, a, b, c, d)
    && IsColumnPart(s, d, e, f, g)
  }

  /** The offset part of the pattern, from `a` up to the comma at `d`. */
  predicate IsOffsetPart(s: string, a: nat, b: nat, c: nat, d: nat) {
    && a <= b < c <= d < |s|
    && (b == a || (b == a + 1 && s[a] == '-'))
    && AllIn(s, b, c, IsDigit)
    && AllIn(s, c, d, IsSpace) && s[d] == ','
  }

  /** Try the macro pattern at index `i`. Every quantified part of the
      pattern is a maximal run followed by a character that cannot extend
      it, so one pass without backtracking decides the match. */
  function MatchAt(s: string, i: nat): (r: Option<Macro>)
    requires i <= |s|
    ensures r.Some? ==> i < r.value.end <= |s| && WellFormed(r.value)
  {
    if i + 3 <= |s| && s[i] == '%' && IsSigil(s[i + 1]) && s[i + 2] == '[' then
      MatchOffset(s, i, RunEnd(s, i + 3, IsSpace))
    else None
  }

  /** The rest of the pattern once `%S[` and the whitespace up to `a` are read. */
  function MatchOffset(s: string, i: nat, a: nat): (r: Option<Macro>)
    requires i + 3 <= a <= |s|
    ensures r.Some? ==> i < r.value.end <= |s| && IsOffset(r.value.offset) && IsColumnMatch(r.value)
  {
    var b := if a < |s| && s[a] == '-' then a + 1 else a;
    var c := RunEnd(s, b, IsDigit);
    var d := RunEnd(s, c, IsSpace);
    if b < c && d < |s| && s[d] == ',' then
      assert b == a + 1 ==> s[a..c][1..] == s[b..c];
      MatchColumn(s, s[i + 1], s[a..c], d)
    else None
  }

  /** The rest of the pattern after the comma at `d`. */
  function MatchColumn(s: string, sigil: char, offset: string, d: nat): (r: Option<Macro>)
    requires d < |s|
    ensures r.Some? ==> d < r.value.end <= |s| && r.value.sigil == sigil && r.value.offset == offset && IsColumnMatch(r.value)
  {
    var e := RunEnd(s, d + 1, IsSpace);
    var f := RunEnd(s, e, IsColumnChar);
    var g := RunEnd(s, f, IsSpace);
    if e < f && g < |s| && IsDelimiter(s[g]) then
      Some(Macro(sigil, offset, s[e..f], s[g], g + 1))
    else None
  }

  predicate IsColumnMatch(m: Macro) {
    && |m.column| > 0 && (forall k :: 0 <= k < |m.column| ==> IsColumnChar(m.column[k]))
    && IsDelimiter(m.delimiter)
  }

  /** The column part of the pattern, read literally from the comma at `d`. */
  predicate IsColumnPart(s: string, d: nat, e: nat, f: nat, g: nat) {
    && d < e < f <= g < |s|
    && AllIn(s, d + 1, e, IsSpace)
    && AllIn(s, e, f, IsColumnChar)
    && AllIn(s, f, g, IsSpace) && IsDelimiter(s[g])
  }

  lemma MatchColumnComplete(s: string, sigil: char, offset: string, d: nat, e: nat, f: nat, g: nat)
    requires IsColumnPart(s, d, e, f, g)
    ensures MatchColumn(s, sigil, offset, d) == Some(Macro(sigil, offset, s[e..f], s[g], g + 1))
  {
    assert IsColumnChar(s[e]);
    RunEndExact(s, d + 1, e, IsSpace);
    assert !IsColumnChar(s[f]) by {
      if f < g { assert IsSpace(s[f]); }
    }
    RunEndExact(s, e, f, IsColumnChar);
    RunEndExact(s, f, g, IsSpace);
  }

  lemma MatchColumnSound(s: string, sigil: char, offset: string, d: nat) returns (e: nat, f: nat, g: nat)
    requires d < |s| && MatchColumn(s, sigil, offset, d).Some?
    ensures IsColumnPart(s, d, e, f, g)
    ensures MatchColumn(s, sigil, offset, d) == Some(Macro(sigil, offset, s[e..f], s[g], g + 1))
  {
    e := RunEnd(s, d + 1, IsSpace);
    f := RunEnd(s, e, IsColumnChar);
    g := RunEnd(s, f, IsSpace);
  }

  lemma MatchOffsetComplete(s: string, i: nat, a: nat, b: nat, c: nat, d: nat, e: nat, f: nat, g: nat)
    requires IsMacroMatch(s, i, a, b, c, d, e, f, g)
    ensures MatchOffset(s, i, a) == Some(Macro(s[i + 1], s[a..c], s[e..f], s[g], g + 1))
  {
    OffsetRuns(s, a, b, c, d);
    assert MatchOffset(s, i, a) == MatchColumn(s, s[i + 1], s[a..c], d);
    MatchColumnComplete(s, s[i + 1], s[a..c], d, e, f, g);
  }

  /** The scanner's runs stop where the offset part says. */
  lemma OffsetRuns(s: string, a: nat, b: nat, c: nat, d: nat)
    requires IsOffsetPart(s, a, b, c, d)
    ensures b == (if a < |s| && s[a] == '-' then a + 1 else a)
    ensures RunEnd(s, b, IsDigit) == c && RunEnd(s, c, IsSpace) == d
    ensures !IsSpace(s[a])
  {
    assert !IsDigit(s[c]) by {
      if c < d { assert IsSpace(s[c]); }
    }
    RunEndExact(s, b, c, IsDigit);
    RunEndExact(s, c, d, IsSpace);
  }

  /** Whenever the pattern matches at `i`, the scanner finds that match,
      with the same groups; so the match at `i` is unique. */
  lemma MatchAtComplete(s: string, i: nat, a: nat, b: nat, c: nat, d: nat, e: nat, f: nat, g: nat)
    requires IsMacroMatch(s, i, a, b, c, d, e, f, g)
    ensures MatchAt(s, i) == Some(Macro(s[i + 1], s[a..c], s[e..f], s[g], g + 1))
  {
    OffsetRuns(s, a, b, c, d);
    RunEndExact(s, i + 3, a, IsSpace);
    assert MatchAt(s, i) == MatchOffset(s, i, a);
    MatchOffsetComplete(s, i, a, b, c, d, e, f, g);
  }

  lemma MatchOffsetSound(s: string, i: nat, a: nat) returns (b: nat, c: nat, d: nat, e: nat, f: nat, g: nat)
    requires i + 3 <= a <= |s| && MatchOffset(s, i, a).Some?
    ensures IsOffsetPart(s, a, b, c, d) && IsColumnPart(s, d, e, f, g)
    ensures MatchOffset(s, i, a) == Some(Macro(s[i + 1], s[a..c], s[e..f], s[g], g + 1))
  {
    b := if a < |s| && s[a] == '-' then a + 1 else a;
    c := RunEnd(s, b, IsDigit);
    d := RunEnd(s, c, IsSpace);
    assert MatchOffset(s, i, a) == MatchColumn(s, s[i + 1], s[a..c], d);
    e, f, g := MatchColumnSound(s, s[i + 1], s[a..c], d);
  }

  /** Every match the scanner reports is a match of the pattern. */
  lemma MatchAtSound(s: string, i: nat)
    requires i <= |s| && MatchAt(s, i).Some?
    ensures exists a: nat, b: nat, c: nat, d: nat, e: nat, f: nat, g: nat ::
      (IsMacroMatch(s, i, a, b, c, d, e, f, g)
       && MatchAt(s, i).value == Macro(s[i + 1], s[a..c], s[e..f], s[g], g + 1))
  {
    var a := RunEnd(s, i + 3, IsSpace);
    assert MatchAt(s, i) == MatchOffset(s, i, a);
    var b, c, d, e, f, g := MatchOffsetSound(s, i, a);
    assert IsMacroMatch(s, i, a, b, c, d, e, f, g);
  }

  /** A match starts with `%`, so none starts anywhere else. */
  lemma NoMatchWithoutPercent(s: string, lo: nat, hi: nat)
    requires lo <= hi <= |s|
    requires forall j :: lo <= j < hi ==> s[j] != '%'
    ensures forall j :: lo <= j < hi ==> MatchAt(s, j).None?
  {
  }

  // ---------------------------------------------------------------------
  // the substitution of one match

  /** A column the substitution can resolve: a numeral, or a known name. */
  predicate Resolvable(column: string, vocabulary: Vocabulary) {
    IsDecimal(column) || column in vocabulary
  }

  /** `repl`'s column: a numeral stays as written, a name becomes its index. */
  function Resolve(column: string, vocabulary: Vocabulary): (r: Result<string>)
    ensures r.Success? <==> Resolvable(column, vocabulary)
    ensures r.Success? ==> IsDecimal(r.value)
    ensures IsDecimal(column) ==> r == Success(column)
    ensures r.Success? && !IsDecimal(column) ==> ParseDecimal(r.value) == vocabulary[column]
    ensures r.Success? && !IsDecimal(column) ==> IsCanonical(r.value)
    ensures r.Failure? ==> r.error == UnknownFeature(column)
  {
    if IsDecimal(column) then Success(column)
    else if column in vocabulary then
      ParseNatToString(vocabulary[column]);
      Success(NatToString(vocabulary[column]))
    else Failure(UnknownFeature(column))
  }

  /** `%S[off,col'D`: the rewritten match. */
  function MacroText(m: Macro, column: string): string {
    ['%', m.sigil, '['] + m.offset + [','] + column + [m.delimiter]
  }

  /** The rewritten match holds no whitespace. */
  lemma MacroTextNoSpace(m: Macro, column: string)
    requires WellFormed(m) && NoSpace(column)
    ensures NoSpace(MacroText(m, column))
  {
    var t := MacroText(m, column);
    forall k | 0 <= k < |t| ensures !IsSpace(t[k]) {
      if 3 <= k < 3 + |m.offset| {
        assert t[k] == m.offset[k - 3];
        if m.offset[0] == '-' && k > 3 {
          assert m.offset[k - 3] == m.offset[1..][k - 4];
        }
      } else if 4 + |m.offset| <= k < 4 + |m.offset| + |column| {
        assert t[k] == column[k - 4 - |m.offset|];
      }
    }
  }

  // ---------------------------------------------------------------------
  // scanning a line

  /** A line cut into pieces: a character outside every match, or a match
      together with the text it covers. */
  datatype Piece = Lit(c: char) | Mac(m: Macro, raw: string)

  function PieceText(p: Piece): string {
    match p
    case Lit(c) => [c]
    case Mac(_, raw) => raw
  }

  function Flatten(ps: seq<Piece>): string
    decreases |ps|
  {
    if |ps| == 0 then "" else PieceText(ps[0]) + Flatten(ps[1..])
  }

  /** `re.sub`'s scan from index `i`: the leftmost match, then on from its
      end; a character where no match starts is copied. */
  function Scan(s: string, i: nat): (ps: seq<Piece>)
    requires i <= |s|
    ensures forall k :: 0 <= k < |ps| && ps[k].Mac? ==> WellFormed(ps[k].m)
    decreases |s| - i
  {
    if i == |s| then [] else [PieceAt(s, i)] + Scan(s, PieceEnd(s, i))
  }

  /** The piece starting at `i`: the match there, or the character. */
  function PieceAt(s: string, i: nat): (p: Piece)
    requires i < |s|
    ensures PieceText(p) == s[i..PieceEnd(s, i)]
    ensures p.Mac? ==> WellFormed(p.m) && MatchAt(s, i) == Some(p.m)
    ensures p.Lit? ==> MatchAt(s, i).None?
  {
    match MatchAt(s, i)
    case Some(m) => Mac(m, s[i..m.end])
    case None => Lit(s[i])
  }

  /** The pieces cover the line exactly. */
  lemma {:induction false} ScanCoversLine(s: string, i: nat)
    requires i <= |s|
    ensures Flatten(Scan(s, i)) == s[i..]
    decreases |s| - i
  {
    if i < |s| {
      var j := PieceEnd(s, i);
      ScanCoversLine(s, j);
      ScanStep(s, i);
      FlattenCons(PieceAt(s, i), Scan(s, j));
      SliceSplit(s, i, j);
    }
  }

  lemma ScanStep(s: string, i: nat)
    requires i < |s|
    ensures Scan(s, i) == [PieceAt(s, i)] + Scan(s, PieceEnd(s, i))
  {
  }

  lemma FlattenCons(p: Piece, rest: seq<Piece>)
    ensures Flatten([p] + rest) == PieceText(p) + Flatten(rest)
  {
    assert ([p] + rest)[1..] == rest;
  }

  lemma SliceSplit<T>(s: seq<T>, i: nat, j: nat)
    requires i <= j <= |s|
    ensures s[i..j] + s[j..] == s[i..]
  {
  }

  /** Where the piece starting at `i` ends. */
  function PieceEnd(s: string, i: nat): (j: nat)
    requires i < |s|
    ensures i < j <= |s|
  {
    match MatchAt(s, i)
    case Some(m) => m.end
    case None => i + 1
  }

  /** Every macro piece is a match the scanner found at some index. */
  lemma {:induction false} ScanMacrosAreMatches(s: string, i: nat)
    requires i <= |s|
    ensures forall k :: 0 <= k < |Scan(s, i)| && Scan(s, i)[k].Mac? ==>
      exists j :: i <= j < |s| && MatchAt(s, j) == Some(Scan(s, i)[k].m)
    decreases |s| - i
  {
    if i < |s| {
      var ps := Scan(s, i);
      ScanMacrosAreMatches(s, PieceEnd(s, i));
      assert ps[1..] == Scan(s, PieceEnd(s, i));
      forall k | 0 <= k < |ps| && ps[k].Mac?
        ensures exists j :: i <= j < |s| && MatchAt(s, j) == Some(ps[k].m)
      {
        if k > 0 {
          assert ps[k] == Scan(s, PieceEnd(s, i))[k - 1];
        }
      }
    }
  }

  /** Where no match starts, the scan yields only copied characters. */
  lemma {:induction false} ScanWithoutMatches(s: string, i: nat)
    requires i <= |s|
    requires forall j :: i <= j < |s| ==> MatchAt(s, j).None?
    ensures forall k :: 0 <= k < |Scan(s, i)| ==> Scan(s, i)[k].Lit?
    decreases |s| - i
  {
    if i < |s| {
      ScanWithoutMatches(s, i + 1);
    }
  }

  /** The characters of `t`, each as a copied piece. */
  function Lits(t: string): (ps: seq<Piece>)
    ensures |ps| == |t| && forall k :: 0 <= k < |t| ==> ps[k] == Lit(t[k])
  {
    seq(|t|, k requires 0 <= k < |t| => Lit(t[k]))
  }

  lemma LitsCons(t: string)
    requires |t| > 0
    ensures Lits(t) == [Lit(t[0])] + Lits(t[1..])
  {
    var ps := [Lit(t[0])] + Lits(t[1..]);
    assert forall k :: 1 <= k < |t| ==> ps[k] == Lit(t[1..][k - 1]) == Lit(t[k]);
  }

  lemma LitsStep(t: string, rest: seq<Piece>)
    requires |t| > 0
    ensures [Lit(t[0])] + (Lits(t[1..]) + rest) == Lits(t) + rest
  {
    LitsCons(t);
  }

  lemma ScanCopies(s: string, i: nat)
    requires i < |s| && MatchAt(s, i).None?
    ensures Scan(s, i) == [Lit(s[i])] + Scan(s, i + 1)
  {
  }

  /** Where no match starts the scan copies character by character. */
  lemma {:induction false} ScanLiterals(s: string, i: nat, k: nat)
    requires i <= k <= |s|
    requires forall j :: i <= j < k ==> MatchAt(s, j).None?
    ensures Scan(s, i) == Lits(s[i..k]) + Scan(s, k)
    decreases k - i
  {
    if i < k {
      ScanCopies(s, i);
      ScanLiterals(s, i + 1, k);
      var t := s[i..k];
      assert t[0] == s[i] && t[1..] == s[i + 1..k];
      LitsStep(t, Scan(s, k));
    } else {
      assert Lits(s[i..k]) == [];
    }
  }

  /** At a match the scan takes the whole match as one piece. */
  lemma ScanMacro(s: string, i: nat)
    requires i < |s| && MatchAt(s, i).Some?
    ensures Scan(s, i) == [Mac(MatchAt(s, i).value, s[i..MatchAt(s, i).value.end])] + Scan(s, MatchAt(s, i).value.end)
  {
  }

  // ---------------------------------------------------------------------
  // rendering

  function RenderPiece(p: Piece, vocabulary: Vocabulary): Result<string> {
    match p
    case Lit(c) => Success([c])
    case Mac(m, _) =>
      var column :- Resolve(m.column, vocabulary);
      Success(MacroText(m, column))
  }

  /** The rewritten pieces, concatenated; the first unresolvable macro
      aborts, as the KeyError raised inside `repl` does. */
  function Render(ps: seq<Piece>, vocabulary: Vocabulary): Result<string>
    decreases |ps|
  {
    if |ps| == 0 then Success("")
    else
      var head :- RenderPiece(ps[0], vocabulary);
      var tail :- Render(ps[1..], vocabulary);
      Success(head + tail)
  }

  /** Copied characters render to themselves. */
  lemma {:induction false} RenderLits(t: string, vocabulary: Vocabulary)
    ensures Render(Lits(t), vocabulary) == Success(t)
    decreases |t|
  {
    if |t| > 0 {
      assert Lits(t)[1..] == Lits(t[1..]);
      RenderLits(t[1..], vocabulary);
      assert t == [t[0]] + t[1..];
    }
  }

  /** A successful rendering is the first piece's text followed by the rest's. */
  lemma RenderUncons(ps: seq<Piece>, vocabulary: Vocabulary)
    requires |ps| > 0 && Render(ps, vocabulary).Success?
    ensures RenderPiece(ps[0], vocabulary).Success? && Render(ps[1..], vocabulary).Success?
    ensures Render(ps, vocabulary).value == RenderPiece(ps[0], vocabulary).value + Render(ps[1..], vocabulary).value
  {
  }

  lemma RenderCons(p: Piece, rest: seq<Piece>, vocabulary: Vocabulary)
    requires RenderPiece(p, vocabulary).Success? && Render(rest, vocabulary).Success?
    ensures Render([p] + rest, vocabulary) == Success(RenderPiece(p, vocabulary).value + Render(rest, vocabulary).value)
  {
    assert ([p] + rest)[0] == p && ([p] + rest)[1..] == rest;
  }

  lemma AppendAssoc<T>(x: seq<T>, y: seq<T>, z: seq<T>)
    ensures x + (y + z) == (x + y) + z
  {
  }

  /** Rendering is piecewise: two successful renderings concatenate. */
  lemma {:induction false} RenderConcat(a: seq<Piece>, b: seq<Piece>, vocabulary: Vocabulary)
    requires Render(a, vocabulary).Success? && Render(b, vocabulary).Success?
    ensures Render(a + b, vocabulary) == Success(Render(a, vocabulary).value + Render(b, vocabulary).value)
    decreases |a|
  {
    if |a| == 0 {
      assert a + b == b;
      assert Render(a, vocabulary).value == "";
      assert "" + Render(b, vocabulary).value == Render(b, vocabulary).value;
    } else {
      RenderUncons(a, vocabulary);
      RenderConcat(a[1..], b, vocabulary);
      assert a + b == [a[0]] + (a[1..] + b);
      RenderCons(a[0], a[1..] + b, vocabulary);
      AppendAssoc(RenderPiece(a[0], vocabulary).value, Render(a[1..], vocabulary).value, Render(b, vocabulary).value);
    }
  }

  /** Rendering fails exactly when some macro's column cannot be resolved,
      and then with the first such column. */
  lemma {:induction false} RenderFailsOnFirstUnknown(ps: seq<Piece>, vocabulary: Vocabulary)
    ensures Render(ps, vocabulary).Success? <==>
      forall k :: 0 <= k < |ps| && ps[k].Mac? ==> Resolvable(ps[k].m.column, vocabulary)
    ensures Render(ps, vocabulary).Failure? ==>
      exists k :: 0 <= k < |ps| && ps[k].Mac? && !Resolvable(ps[k].m.column, vocabulary)
        && Render(ps, vocabulary).error == UnknownFeature(ps[k].m.column)
        && forall j :: 0 <= j < k && ps[j].Mac? ==> Resolvable(ps[j].m.column, vocabulary)
    decreases |ps|
  {
    if |ps| > 0 {
      RenderFailsOnFirstUnknown(ps[1..], vocabulary);
      if RenderPiece(ps[0], vocabulary).Success? {
        forall k | 1 <= k < |ps| ensures ps[k] == ps[1..][k - 1] { }
        if Render(ps, vocabulary).Failure? {
          var k' :| 0 <= k' < |ps[1..]| && ps[1..][k'].Mac? && !Resolvable(ps[1..][k'].m.column, vocabulary)
            && Render(ps[1..], vocabulary).error == UnknownFeature(ps[1..][k'].m.column)
            && forall j :: 0 <= j < k' && ps[1..][j].Mac? ==> Resolvable(ps[1..][j].m.column, vocabulary);
          assert ps[k' + 1] == ps[1..][k'];
          forall j | 0 <= j < k' + 1 && ps[j].Mac? ensures Resolvable(ps[j].m.column, vocabulary) {
            if j > 0 { assert ps[j] == ps[1..][j - 1]; }
          }
        }
      }
    }
  }

  /** Pieces that are copied characters or macros already in normal form
      (numeric column, no whitespace) render to their own text. */
  lemma {:induction false} RenderNormalForm(ps: seq<Piece>, vocabulary: Vocabulary)
    requires forall k :: 0 <= k < |ps| ==>
      (ps[k].Lit? || (IsDecimal(ps[k].m.column) && ps[k].raw == MacroText(ps[k].m, ps[k].m.column)))
    ensures Render(ps, vocabulary) == Success(Flatten(ps))
    decreases |ps|
  {
    if |ps| > 0 {
      RenderNormalForm(ps[1..], vocabulary);
    }
  }

  /** Rendering adds no whitespace character the pieces did not hold. */
  lemma {:induction false} RenderAddsNoSpace(ps: seq<Piece>, vocabulary: Vocabulary, ch: char)
    requires IsSpace(ch) && ch !in Flatten(ps)
    requires forall k :: 0 <= k < |ps| && ps[k].Mac? ==> WellFormed(ps[k].m)
    requires Render(ps, vocabulary).Success?
    ensures ch !in Render(ps, vocabulary).value
    decreases |ps|
  {
    if |ps| > 0 {
      RenderAddsNoSpace(ps[1..], vocabulary, ch);
      var head := RenderPiece(ps[0], vocabulary).value;
      if ps[0].Mac? {
        var column := Resolve(ps[0].m.column, vocabulary).value;
        assert NoSpace(column);
        MacroTextNoSpace(ps[0].m, column);
        assert ch !in head;
      }
    }
  }

  // ---------------------------------------------------------------------
  // one line

  /** `WAPITI_MACRO_PATTERN.sub(repl, line)`. A line in which the pattern
      matches nowhere is copied unchanged; a newline-free line stays
      newline-free; the line fails only on a match whose column is neither
      a numeral nor a known name, and reports that column. */
  function CompileLine(line: string, vocabulary: Vocabulary): (r: Result<string>)
    ensures (forall j :: 0 <= j < |line| ==> MatchAt(line, j).None?) ==> r == Success(line)
    ensures r.Success? && '\n' !in line ==> '\n' !in r.value
    ensures r.Failure? ==> r.error.UnknownFeature?
    ensures r.Failure? ==>
      exists j :: (0 <= j < |line| && MatchAt(line, j).Some?
        && MatchAt(line, j).value.column == r.error.name
        && !IsDecimal(MatchAt(line, j).value.column)
        && MatchAt(line, j).value.column !in vocabulary)
  {
    RenderedLine(line, vocabulary);
    Render(Scan(line, 0), vocabulary)
  }

  /** The facts `CompileLine` states, about the rendering of the scan. */
  lemma RenderedLine(line: string, vocabulary: Vocabulary)
    ensures var r := Render(Scan(line, 0), vocabulary);
      && ((forall j :: 0 <= j < |line| ==> MatchAt(line, j).None?) ==> r == Success(line))
      && (r.Success? && '\n' !in line ==> '\n' !in r.value)
      && (r.Failure? ==> r.error.UnknownFeature?)
      && (r.Failure? ==>
        exists j :: (0 <= j < |line| && MatchAt(line, j).Some?
          && MatchAt(line, j).value.column == r.error.name
          && !IsDecimal(MatchAt(line, j).value.column)
          && MatchAt(line, j).value.column !in vocabulary))
  {
    var r := Render(Scan(line, 0), vocabulary);
    if forall j :: 0 <= j < |line| ==> MatchAt(line, j).None? {
      RenderWithoutMatches(line, vocabulary);
    }
    if r.Success? && '\n' !in line {
      RenderNewlineFree(line, vocabulary);
    }
    if r.Failure? {
      RenderFailure(line, vocabulary);
    }
  }

  /** The scan of a line in which no match starts renders as the line. */
  lemma RenderWithoutMatches(line: string, vocabulary: Vocabulary)
    requires forall j :: 0 <= j < |line| ==> MatchAt(line, j).None?
    ensures Render(Scan(line, 0), vocabulary) == Success(line)
  {
    ScanWithoutMatches(line, 0);
    RenderNormalForm(Scan(line, 0), vocabulary);
    ScanCoversLine(line, 0);
  }

  /** A line whose only match starts at `k` (no match starts before it,
      none after it ends): the text around the match is copied, the match
      becomes `%S[offset,column` plus its delimiter, with the column
      resolved. */
  lemma CompileLineOneMacro(line: string, k: nat, vocabulary: Vocabulary)
    requires k < |line| && MatchAt(line, k).Some?
    requires forall j :: 0 <= j < k ==> MatchAt(line, j).None?
    requires forall j :: MatchAt(line, k).value.end <= j < |line| ==> MatchAt(line, j).None?
    requires Resolvable(MatchAt(line, k).value.column, vocabulary)
    ensures var m := MatchAt(line, k).value;
      CompileLine(line, vocabulary) ==
        Success(line[..k] + MacroText(m, Resolve(m.column, vocabulary).value) + line[m.end..])
  {
    var m := MatchAt(line, k).value;
    ScanOneMacro(line, k);
    RenderOneMacro(line[..k], m, line[k..m.end], line[m.end..], vocabulary);
  }

  /** The pieces of a line whose only match starts at `k`. */
  lemma ScanOneMacro(line: string, k: nat)
    requires k < |line| && MatchAt(line, k).Some?
    requires forall j :: 0 <= j < k ==> MatchAt(line, j).None?
    requires forall j :: MatchAt(line, k).value.end <= j < |line| ==> MatchAt(line, j).None?
    ensures var m := MatchAt(line, k).value;
      Scan(line, 0) == Lits(line[..k]) + ([Mac(m, line[k..m.end])] + Lits(line[m.end..]))
  {
    var m := MatchAt(line, k).value;
    ScanPrefix(line, k);
    ScanMacro(line, k);
    ScanSuffix(line, m.end);
  }

  /** A prefix where no match starts scans to its characters. */
  lemma ScanPrefix(line: string, k: nat)
    requires k <= |line|
    requires forall j :: 0 <= j < k ==> MatchAt(line, j).None?
    ensures Scan(line, 0) == Lits(line[..k]) + Scan(line, k)
  {
    ScanLiterals(line, 0, k);
    assert line[0..k] == line[..k];
  }

  /** A suffix where no match starts scans to its characters. */
  lemma ScanSuffix(line: string, k: nat)
    requires k <= |line|
    requires forall j :: k <= j < |line| ==> MatchAt(line, j).None?
    ensures Scan(line, k) == Lits(line[k..])
  {
    ScanLiterals(line, k, |line|);
    assert Scan(line, |line|) == [];
    assert line[k..|line|] == line[k..];
    assert Lits(line[k..]) + [] == Lits(line[k..]);
  }

  /** Literal text around one resolvable macro renders as itself around
      the rewritten macro. */
  lemma RenderOneMacro(pre: string, m: Macro, raw: string, post: string, vocabulary: Vocabulary)
    requires Resolvable(m.column, vocabulary)
    ensures Render(Lits(pre) + ([Mac(m, raw)] + Lits(post)), vocabulary) ==
      Success(pre + MacroText(m, Resolve(m.column, vocabulary).value) + post)
  {
    var mac := Mac(m, raw);
    RenderLits(pre, vocabulary);
    RenderLits(post, vocabulary);
    var text := MacroText(m, Resolve(m.column, vocabulary).value);
    assert RenderPiece(mac, vocabulary) == Success(text);
    RenderCons(mac, Lits(post), vocabulary);
    RenderConcat(Lits(pre), [mac] + Lits(post), vocabulary);
    AppendAssoc(pre, text, post);
  }

  /** A failed rendering of a line reports the column of a match that is
      neither a numeral nor a known name. */
  lemma RenderFailure(line: string, vocabulary: Vocabulary)
    requires Render(Scan(line, 0), vocabulary).Failure?
    ensures Render(Scan(line, 0), vocabulary).error.UnknownFeature?
    ensures exists j :: (0 <= j < |line| && MatchAt(line, j).Some?
      && MatchAt(line, j).value.column == Render(Scan(line, 0), vocabulary).error.name
      && !IsDecimal(MatchAt(line, j).value.column)
      && MatchAt(line, j).value.column !in vocabulary)
  {
    var ps := Scan(line, 0);
    var k := FailingPiece(ps, vocabulary);
    var j := ScannedMacroIsMatch(line, k);
    assert MatchAt(line, j).value.column == ps[k].m.column;
  }

  /** The macro piece a failed rendering reports. */
  lemma FailingPiece(ps: seq<Piece>, vocabulary: Vocabulary) returns (k: nat)
    requires Render(ps, vocabulary).Failure?
    ensures k < |ps| && ps[k].Mac?
    ensures !IsDecimal(ps[k].m.column) && ps[k].m.column !in vocabulary
    ensures Render(ps, vocabulary).error == UnknownFeature(ps[k].m.column)
  {
    RenderFailsOnFirstUnknown(ps, vocabulary);
    k :| 0 <= k < |ps| && ps[k].Mac? && !Resolvable(ps[k].m.column, vocabulary)
      && Render(ps, vocabulary).error == UnknownFeature(ps[k].m.column);
  }

  /** Where a scanned macro piece was matched. */
  lemma ScannedMacroIsMatch(line: string, k: nat) returns (j: nat)
    requires k < |Scan(line, 0)| && Scan(line, 0)[k].Mac?
    ensures j < |line| && MatchAt(line, j) == Some(Scan(line, 0)[k].m)
  {
    ScanMacrosAreMatches(line, 0);
    j :| 0 <= j < |line| && MatchAt(line, j) == Some(Scan(line, 0)[k].m);
  }

  /** A newline-free line renders without a newline. */
  lemma RenderNewlineFree(line: string, vocabulary: Vocabulary)
    requires '\n' !in line && Render(Scan(line, 0), vocabulary).Success?
    ensures '\n' !in Render(Scan(line, 0), vocabulary).value
  {
    ScanCoversLine(line, 0);
    assert line[0..] == line;
    RenderAddsNoSpace(Scan(line, 0), vocabulary, '\n');
  }

  // ---------------------------------------------------------------------
  // the whole template

  /** `_wapiti_line_is_comment`: the stripped line starts with `#`, that
      is, the first non-whitespace character is `#`. */
  function IsComment(line: string): (comment: bool)
    ensures comment <==> exists k :: 0 <= k < |line| && line[k] == '#' && AllSpace(line[..k])
  {
    StrippedStartsWithHash(line);
    var t := Strip(line);
    |t| > 0 && t[0] == '#'
  }

  lemma StrippedStartsWithHash(line: string)
    ensures (|Strip(line)| > 0 && Strip(line)[0] == '#') <==>
      exists k :: 0 <= k < |line| && line[k] == '#' && AllSpace(line[..k])
  {
    var l := LStrip(line);
    var j := |line| - |l|;
    if |Strip(line)| > 0 && Strip(line)[0] == '#' {
      assert |l| > 0;
      assert line[j] == l[0] == Strip(line)[0];
    }
    if exists k :: 0 <= k < |line| && line[k] == '#' && AllSpace(line[..k]) {
      var k :| 0 <= k < |line| && line[k] == '#' && AllSpace(line[..k]);
      StripStartsAtFirstNonSpace(line, k);
    }
  }

  /** One template line: comments are copied, others compiled. */
  function CompileTemplateLine(line: string, vocabulary: Vocabulary): Result<string> {
    if IsComment(line) then Success(line) else CompileLine(line, vocabulary)
  }

  /** The list comprehension over the lines; the first failing line aborts. */
  function CompileLines(lines: seq<string>, vocabulary: Vocabulary): Result<seq<string>> {
    MapResult(lines, line => CompileTemplateLine(line, vocabulary))
  }

  /** The comprehension over the lines, element by element: it succeeds
      when every active line compiles, and otherwise stops at the first
      active line that fails. */
  lemma CompileLinesSpec(lines: seq<string>, vocabulary: Vocabulary)
    ensures CompileLines(lines, vocabulary).Success? <==>
      forall k :: 0 <= k < |lines| && !IsComment(lines[k]) ==> CompileLine(lines[k], vocabulary).Success?
    ensures CompileLines(lines, vocabulary).Failure? ==>
      exists k :: (&& 0 <= k < |lines| && !IsComment(lines[k])
        && CompileLine(lines[k], vocabulary) == Failure(CompileLines(lines, vocabulary).error)
        && forall j :: 0 <= j < k && !IsComment(lines[j]) ==> CompileLine(lines[j], vocabulary).Success?)
  {
    var f := line => CompileTemplateLine(line, vocabulary);
    MapResultSpec(lines, f);
    assert forall k :: 0 <= k < |lines| ==> f(lines[k]) == CompileTemplateLine(lines[k], vocabulary);
  }

  /** `prepare_wapiti_template`: split into lines, compile each, re-join.
      It fails exactly when some non-comment line fails, and then with that
      line's error; a comment line is never looked up, whatever it names. */
  function CompileTemplate(template: string, vocabulary: Vocabulary): (r: Result<string>)
    ensures r.Success? <==>
      forall k :: 0 <= k < |SplitLines(template)| && !IsComment(SplitLines(template)[k]) ==>
        CompileLine(SplitLines(template)[k], vocabulary).Success?
    ensures r.Failure? ==>
      exists k :: (&& 0 <= k < |SplitLines(template)| && !IsComment(SplitLines(template)[k])
        && CompileLine(SplitLines(template)[k], vocabulary) == Failure(r.error)
        && forall j :: 0 <= j < k && !IsComment(SplitLines(template)[j]) ==>
             CompileLine(SplitLines(template)[j], vocabulary).Success?)
  {
    CompileLinesSpec(SplitLines(template), vocabulary);
    var lines :- CompileLines(SplitLines(template), vocabulary);
    Success(Join(lines, '\n'))
  }

  /** The output has the input's lines, one for one: comment lines
      verbatim, other lines compiled on their own. */
  lemma TemplateLineStructure(template: string, vocabulary: Vocabulary)
    requires CompileTemplate(template, vocabulary).Success?
    requires |SplitLines(template)| > 0
    ensures var lines := SplitLines(template);
      var out := Split(CompileTemplate(template, vocabulary).value, '\n');
      && |out| == |lines|
      && (forall k :: 0 <= k < |lines| ==> CompileTemplateLine(lines[k], vocabulary) == Success(out[k]))
      && (forall k :: 0 <= k < |lines| && IsComment(lines[k]) ==> out[k] == lines[k])
  {
    var lines := SplitLines(template);
    MapResultSpec(lines, line => CompileTemplateLine(line, vocabulary));
    var outs := CompileLines(lines, vocabulary).value;
    forall k | 0 <= k < |outs| ensures '\n' !in outs[k] {
      if !IsComment(lines[k]) {
        assert '\n' !in lines[k];
      }
    }
    SplitJoin(outs, '\n');
  }

  /** Compilation is line by line: a template written as newline-free
      lines compiles to the lines' own compilations, joined. */
  lemma CompileTemplateOfLines(lines: seq<string>, outs: seq<string>, vocabulary: Vocabulary)
    requires forall k :: 0 <= k < |lines| ==> '\n' !in lines[k]
    requires |lines| == 0 || lines[|lines| - 1] != ""
    requires |outs| == |lines|
    requires forall k :: 0 <= k < |lines| ==> CompileTemplateLine(lines[k], vocabulary) == Success(outs[k])
    ensures CompileTemplate(Join(lines, '\n'), vocabulary) == Success(Join(outs, '\n'))
  {
    SplitLinesJoin(lines);
    MapResultSpec(lines, line => CompileTemplateLine(line, vocabulary));
    var r := CompileLines(lines, vocabulary);
    assert r.Success?;
    assert r.value == outs;
  }

  /** A template whose active lines hold no match compiles to itself, less
      a trailing newline; in particular a template of comments compiles
      under every vocabulary, the empty one included. */
  lemma TemplateWithoutMacros(template: string, vocabulary: Vocabulary)
    requires forall k, j ::
      (0 <= k < |SplitLines(template)| && !IsComment(SplitLines(template)[k])
       && 0 <= j < |SplitLines(template)[k]|) ==> MatchAt(SplitLines(template)[k], j).None?
    ensures CompileTemplate(template, vocabulary) ==
      Success(if |template| > 0 && template[|template| - 1] == '\n' then template[..|template| - 1] else template)
  {
    var lines := SplitLines(template);
    MapResultSpec(lines, line => CompileTemplateLine(line, vocabulary));
    forall k | 0 <= k < |lines| ensures CompileTemplateLine(lines[k], vocabulary) == Success(lines[k]) {
      if !IsComment(lines[k]) {
        assert forall j :: 0 <= j < |lines[k]| ==> MatchAt(lines[k], j).None?;
      }
    }
    var outs := CompileLines(lines, vocabulary).value;
    assert outs == lines;
    JoinSplitLines(template);
  }

  lemma {:induction false} SplitSeparatorLast(s: string, sep: char)
    ensures Split(s + [sep], sep) == Split(s, sep) + [""]
    decreases |s|
  {
    if |s| == 0 {
      assert Split([sep], sep) == [""] + Split("", sep);
    } else {
      assert (s + [sep])[1..] == s[1..] + [sep];
      SplitSeparatorLast(s[1..], sep);
    }
  }

  /** One trailing newline makes no difference: `splitlines` drops it and
      `join` never restores it. */
  lemma TrailingNewlineDropped(template: string, vocabulary: Vocabulary)
    requires |template| == 0 || template[|template| - 1] != '\n'
    ensures CompileTemplate(template + "\n", vocabulary) == CompileTemplate(template, vocabulary)
  {
    var parts := Split(template, '\n');
    SplitSeparatorLast(template, '\n');
    if |template| == 0 {
      assert SplitLines(template + "\n") == [""];
      assert CompileLine("", vocabulary) == Success("");
      assert CompileTemplateLine("", vocabulary) == Success("");
      MapResultSpec([""], line => CompileTemplateLine(line, vocabulary));
      var single := CompileLines([""], vocabulary);
      assert single.Success? && |single.value| == 1 && single.value[0] == "";
      assert single.value == [""];
    } else {
      assert SplitLines(template + "\n") == parts;
      SplitLastPiece(template, '\n');
      assert SplitLines(template) == parts;
    }
  }
}

/**
 * The two text scanners of the Wikipedia extractor: the notation finder (function-call
 * shapes such as `f(x)` and written-out Greek letter names) and the LaTeX finder (the
 * bodies of `<math>` tags and of TeX-encoded `<annotation>` tags in the summary HTML).
 * Each regular expression is written out as a deterministic matcher at one position;
 * a scan then walks the text as `finditer` does, resuming after each match.
 */
module WikiPatterns {
  import opened Wrappers
  import opened Strings

  // ---------------------------------------------------------------------------
  // Scanning helpers

  /** All characters of `t[lo..hi]` are white space. */
  ghost predicate AllSpace(t: string, lo: int, hi: int) {
    0 <= lo <= hi <= |t| && forall k :: lo <= k < hi ==> IsSpace(t[k])
  }

  /** The first index from `k` on that does not hold white space (`|t|` if none): what `\s*` consumes. */
  function SkipSpaces(t: string, k: nat): (r: nat)
    requires k <= |t|
    ensures k <= r <= |t| && AllSpace(t, k, r)
    ensures r < |t| ==> !IsSpace(t[r])
    decreases |t| - k
  {
    if k < |t| && IsSpace(t[k]) then SkipSpaces(t, k + 1) else k
  }

  lemma {:induction false} SkipSpacesTo(t: string, k: nat, p: nat)
    requires AllSpace(t, k, p) && p < |t| && !IsSpace(t[p])
    ensures SkipSpaces(t, k) == p
    decreases p - k
  {
    if k < p {
      SkipSpacesTo(t, k + 1, p);
    }
  }

  /** The first index from `k` on holding `c` (`|t|` if none). */
  function FindFrom(t: string, k: nat, c: char): (r: nat)
    requires k <= |t|
    ensures k <= r <= |t|
    ensures forall j :: k <= j < r ==> t[j] != c
    ensures r < |t| ==> t[r] == c
    decreases |t| - k
  {
    if k < |t| && t[k] != c then FindFrom(t, k + 1, c) else k
  }

  lemma {:induction false} FindFromTo(t: string, k: nat, c: char, p: nat)
    requires k <= p < |t| && t[p] == c
    requires forall j :: k <= j < p ==> t[j] != c
    ensures FindFrom(t, k, c) == p
    decreases p - k
  {
    if k < p {
      FindFromTo(t, k + 1, c, p);
    }
  }

  /** The lower-case literal `lit` occurs at `i`, ignoring case. */
  predicate CiAt(t: string, i: nat, lit: string) {
    i + |lit| <= |t| && Lower(t[i..i + |lit|]) == lit
  }

  // ---------------------------------------------------------------------------
  // `\b[fghFGH]\s*\(\s*[xyztn]\s*\)`

  /** `[fghFGH]` */
  predicate IsFunctionName(c: char) {
    c == 'f' || c == 'g' || c == 'h' || c == 'F' || c == 'G' || c == 'H'
  }

  /** The three single characters the pattern expects after optional white space. */
  datatype Expected = OpenParen | Variable | CloseParen

  /** `(`, `[xyztn]` and `)` */
  predicate Is(c: char, x: Expected) {
    match x
    case OpenParen => c == '('
    case Variable => c == 'x' || c == 'y' || c == 'z' || c == 't' || c == 'n'
    case CloseParen => c == ')'
  }

  /** `\b` in front of a word character at `i`. */
  predicate WordStart(t: string, i: nat)
    requires i <= |t|
  {
    i == 0 || !IsWordChar(t[i - 1])
  }

  /** `t[i..e]` is a match of the function-notation pattern. */
  ghost predicate FunctionNotationAt(t: string, i: nat, e: nat) {
    i < e <= |t| && WordStart(t, i) && IsFunctionName(t[i]) && t[e - 1] == ')'
    && exists p, v ::
         && i < p < v < e - 1 && t[p] == '(' && Is(t[v], Variable)
         && AllSpace(t, i + 1, p) && AllSpace(t, p + 1, v) && AllSpace(t, v + 1, e - 1)
  }

  /** `\s*` then the expected character, from `k`: the index after that character, if it is there. */
  function AfterSpaces(t: string, k: nat, x: Expected): (r: Option<nat>)
    requires k <= |t|
    ensures r.Some? ==> k < r.value <= |t|
  {
    var p := SkipSpaces(t, k);
    if p < |t| && Is(t[p], x) then Some(p + 1) else None
  }

  lemma AfterSpacesTo(t: string, k: nat, x: Expected, p: nat)
    requires AllSpace(t, k, p) && p < |t| && Is(t[p], x)
    ensures AfterSpaces(t, k, x) == Some(p + 1)
  {
    SkipSpacesTo(t, k, p);
  }

  /** The end of the function-notation match starting at `i`, if there is one. */
  function FunctionNotationMatch(t: string, i: nat): (r: Option<nat>)
    ensures r.Some? ==> i < r.value <= |t|
  {
    if i >= |t| || !IsFunctionName(t[i]) || !WordStart(t, i) then None
    else match AfterSpaces(t, i + 1, OpenParen)
      case None => None
      case Some(a) =>
        match AfterSpaces(t, a, Variable)
        case None => None
        case Some(b) => AfterSpaces(t, b, CloseParen)
  }

  /** The matcher finds only matches of the pattern... */
  lemma FunctionNotationMatchSound(t: string, i: nat, e: nat)
    requires FunctionNotationMatch(t, i) == Some(e)
    ensures FunctionNotationAt(t, i, e)
  {
    var a := AfterSpaces(t, i + 1, OpenParen).value;
    var b := AfterSpaces(t, a, Variable).value;
    assert i < a - 1 < b - 1 < e - 1 && t[a - 1] == '(' && Is(t[b - 1], Variable);
  }

  /** ...and every match of the pattern. */
  lemma FunctionNotationMatchComplete(t: string, i: nat, e: nat)
    requires FunctionNotationAt(t, i, e)
    ensures FunctionNotationMatch(t, i) == Some(e)
  {
    var p, v :| i < p < v < e - 1 && t[p] == '(' && Is(t[v], Variable)
      && AllSpace(t, i + 1, p) && AllSpace(t, p + 1, v) && AllSpace(t, v + 1, e - 1);
    CompleteFromParts(t, i, p, v, e);
  }

  lemma CompleteFromParts(t: string, i: nat, p: nat, v: nat, e: nat)
    requires i < p < v < e - 1 && e <= |t| && IsFunctionName(t[i]) && WordStart(t, i)
    requires t[p] == '(' && Is(t[v], Variable) && t[e - 1] == ')'
    requires AllSpace(t, i + 1, p) && AllSpace(t, p + 1, v) && AllSpace(t, v + 1, e - 1)
    ensures FunctionNotationMatch(t, i) == Some(e)
  {
    AfterSpacesTo(t, i + 1, OpenParen, p);
    AfterSpacesTo(t, p + 1, Variable, v);
    AfterSpacesTo(t, v + 1, CloseParen, e - 1);
    MatchFromParts(t, i, p + 1, v + 1, e);
  }

  lemma MatchFromParts(t: string, i: nat, a: nat, b: nat, e: nat)
    requires i < |t| && IsFunctionName(t[i]) && WordStart(t, i)
    requires AfterSpaces(t, i + 1, OpenParen) == Some(a)
    requires AfterSpaces(t, a, Variable) == Some(b)
    requires AfterSpaces(t, b, CloseParen) == Some(e)
    ensures FunctionNotationMatch(t, i) == Some(e)
  {
  }

  /** `finditer` from `i` on: the matched texts, left to right, each search resuming after the last match. */
  function FunctionNotations(t: string, i: nat): seq<string>
    decreases |t| - i
  {
    if i >= |t| then []
    else match FunctionNotationMatch(t, i)
      case Some(e) => [t[i..e]] + FunctionNotations(t, e)
      case None => FunctionNotations(t, i + 1)
  }

  /** Every text found is a match of the pattern at some position. */
  lemma {:induction false} FunctionNotationsMatch(t: string, i: nat, m: string)
    requires m in FunctionNotations(t, i)
    ensures exists p: nat, e: nat :: i <= p && FunctionNotationAt(t, p, e) && m == t[p..e]
    decreases |t| - i
  {
    if i < |t| {
      match FunctionNotationMatch(t, i)
      case Some(e) =>
        if m == t[i..e] {
          FunctionNotationMatchSound(t, i, e);
        } else {
          FunctionNotationsMatch(t, e, m);
        }
      case None =>
        FunctionNotationsMatch(t, i + 1, m);
    }
  }

  // ---------------------------------------------------------------------------
  // Greek letter names

  const Greek: seq<string> := ["alpha", "beta", "gamma", "delta", "epsilon", "lambda", "sigma", "theta", "phi", "psi", "omega"]

  /** The names among `letters` that occur in `text`, ignoring case, in list order. */
  function GreekIn(text: string, letters: seq<string>): (r: seq<string>)
    ensures forall n :: n in r <==> n in letters && Contains(Lower(text), n)
  {
    if letters == [] then []
    else
      var init := letters[..|letters| - 1];
      var last := letters[|letters| - 1];
      assert forall n :: n in letters <==> n in init || n == last;
      GreekIn(text, init) + (if Contains(Lower(text), last) then [last] else [])
  }

  // ---------------------------------------------------------------------------
  // `_extract_notation_patterns`

  /** What the two searches collect before the de-duplication. */
  function NotationCandidates(text: string): seq<string> {
    FunctionNotations(text, 0) + GreekIn(text, Greek)
  }

  /**
   * `list(set(candidates))[:5]`: at most five candidates, none twice, and as many as that
   * allows. Which ones, and in what order, depends on the set's iteration order.
   */
  ghost predicate NotationChoice(text: string, ns: seq<string>) {
    Distinct(ns)
    && (forall n :: n in ns ==> n in NotationCandidates(text))
    && |ns| == Min(5, |set n | n in NotationCandidates(text)|)
  }

  function Min(a: int, b: int): int {
    if a <= b then a else b
  }

  /** Each notation found is a function-notation match in the text or a Greek name occurring in it. */
  lemma NotationSources(text: string, n: string)
    requires n in NotationCandidates(text)
    ensures (exists p: nat, e: nat :: FunctionNotationAt(text, p, e) && n == text[p..e])
      || (n in Greek && Contains(Lower(text), n))
  {
    if n in FunctionNotations(text, 0) {
      FunctionNotationsMatch(text, 0, n);
    } else {
      assert n in GreekIn(text, Greek);
    }
  }

  method FindFunctionNotations(text: string) returns (found: seq<string>)
    ensures found == FunctionNotations(text, 0)
  {
    found := [];
    var i := 0;
    while i < |text|
      invariant 0 <= i <= |text|
      invariant found + FunctionNotations(text, i) == FunctionNotations(text, 0)
      decreases |text| - i
    {
      match FunctionNotationMatch(text, i)
      case Some(e) =>
        assert found + FunctionNotations(text, i) == (found + [text[i..e]]) + FunctionNotations(text, e);
        found := found + [text[i..e]];
        i := e;
      case None =>
        i := i + 1;
    }
  }

  method FindGreek(text: string) returns (found: seq<string>)
    ensures found == GreekIn(text, Greek)
  {
    found := [];
    var lowered := Lower(text);
    for k := 0 to |Greek|
      invariant found == GreekIn(text, Greek[..k])
    {
      assert Greek[..k + 1][..k] == Greek[..k];
      if Contains(lowered, Greek[k]) {
        found := found + [Greek[k]];
      }
    }
    assert Greek[..|Greek|] == Greek;
  }

  /** `_extract_notation_patterns` */
  method ExtractNotationPatterns(text: string) returns (notations: seq<string>)
    ensures NotationChoice(text, notations)
  {
    var candidates := FindFunctionNotations(text);
    var greek := FindGreek(text);
    candidates := candidates + greek;
    var remaining := set n | n in candidates;
    ghost var all := remaining;
    notations := [];
    while |notations| < 5 && remaining != {}
      invariant Distinct(notations)
      invariant remaining <= all
      invariant forall n :: n in notations ==> n in all && n !in remaining
      invariant |notations| + |remaining| == |all|
      invariant |notations| <= 5
      decreases |remaining|
    {
      var n :| n in remaining;
      notations := notations + [n];
      remaining := remaining - {n};
    }
  }

  // ---------------------------------------------------------------------------
  // `_extract_latex_from_html`

  /**
   * A tag pattern `<open[^>]*>([^<]+)</close>`, ignoring case; when `attribute` is present the
   * opening tag must contain it: `<open[^>]*attribute[^>]*>`. All literals are lower case.
   */
  datatype TagPattern = TagPattern(open: string, attribute: Option<string>, close: string)

  const MathTag: TagPattern := TagPattern("<math", None, "</math>")
  const AnnotationTag: TagPattern := TagPattern("<annotation", Some("encoding=\"application/x-tex\""), "</annotation>")

  /** A match: the body is `t[bodyStart..bodyEnd]` and the match ends at `end`. */
  datatype Span = Span(bodyStart: nat, bodyEnd: nat, end: nat)

  /** `lit` occurs, ignoring case, inside `t[lo..hi]`. */
  predicate OccursCi(t: string, lo: nat, hi: nat, lit: string) {
    exists p: nat | lo <= p && p + |lit| <= hi :: CiAt(t, p, lit)
  }

  /** `t[i..e]` matches `pat` with body `t[b..h]`. */
  ghost predicate TagAt(t: string, pat: TagPattern, i: nat, b: nat, h: nat, e: nat) {
    CiAt(t, i, pat.open) && i + |pat.open| < b < h && CiAt(t, h, pat.close) && e == h + |pat.close|
    && t[b - 1] == '>' && (forall k :: i + |pat.open| <= k < b - 1 ==> t[k] != '>')
    && (pat.attribute.Some? ==> OccursCi(t, i + |pat.open|, b - 1, pat.attribute.value))
    && (forall k :: b <= k < h ==> t[k] != '<')
  }

  /** The match of `pat` starting at `i`, if there is one. */
  function TagMatch(t: string, pat: TagPattern, i: nat): (r: Option<Span>)
    requires pat.close != [] && pat.close[0] == '<'
    ensures r.Some? ==> i < r.value.bodyStart < r.value.bodyEnd < r.value.end <= |t|
  {
    if !CiAt(t, i, pat.open) then None
    else
      var g := FindFrom(t, i + |pat.open|, '>');
      if g >= |t| then None
      else if pat.attribute.Some? && !OccursCi(t, i + |pat.open|, g, pat.attribute.value) then None
      else
        var h := FindFrom(t, g + 1, '<');
        if h == g + 1 || !CiAt(t, h, pat.close) then None
        else Some(Span(g + 1, h, h + |pat.close|))
  }

  /** The matcher finds exactly the matches of the pattern. */
  lemma TagMatchIff(t: string, pat: TagPattern, i: nat, b: nat, h: nat, e: nat)
    requires pat.close != [] && pat.close[0] == '<'
    ensures TagMatch(t, pat, i) == Some(Span(b, h, e)) <==> TagAt(t, pat, i, b, h, e)
  {
    if TagAt(t, pat, i, b, h, e) {
      FindFromTo(t, i + |pat.open|, '>', b - 1);
      assert t[h..h + |pat.close|][0] == t[h];
      assert LowerChar(t[h]) == '<';
      FindFromTo(t, b, '<', h);
    }
  }

  /** The bodies of all matches from `i` on, left to right, each search resuming after the last match. */
  function Bodies(t: string, pat: TagPattern, i: nat): seq<string>
    requires pat.close != [] && pat.close[0] == '<'
    decreases |t| - i
  {
    if i >= |t| then []
    else match TagMatch(t, pat, i)
      case Some(s) => [t[s.bodyStart..s.bodyEnd]] + Bodies(t, pat, s.end)
      case None => Bodies(t, pat, i + 1)
  }

  /** Every body found is the body of a match. */
  lemma {:induction false} BodiesMatch(t: string, pat: TagPattern, i: nat, body: string)
    requires pat.close != [] && pat.close[0] == '<'
    requires body in Bodies(t, pat, i)
    ensures exists p: nat, b: nat, h: nat, e: nat :: i <= p && TagAt(t, pat, p, b, h, e) && body == t[b..h]
    decreases |t| - i
  {
    if i < |t| {
      match TagMatch(t, pat, i)
      case Some(s) =>
        if body == t[s.bodyStart..s.bodyEnd] {
          TagMatchIff(t, pat, i, s.bodyStart, s.bodyEnd, s.end);
        } else {
          BodiesMatch(t, pat, s.end, body);
        }
      case None =>
        BodiesMatch(t, pat, i + 1, body);
    }
  }

  /** `html.unescape`, which belongs to the standard library. */
  type Unescape = string -> string

  /** Non-empty, with no white space at either end (so its own `strip()`, by `StripUnchanged`). */
  predicate Stripped(x: string) {
    x != [] && !IsSpace(x[0]) && !IsSpace(x[|x| - 1])
  }

  /** The kept fragments: each body unescaped and stripped, the empty ones dropped. */
  function Fragments(bodies: seq<string>, unescape: Unescape): (r: seq<string>)
    ensures |r| <= |bodies|
  {
    if bodies == [] then []
    else
      var latex := Strip(unescape(bodies[|bodies| - 1]));
      Fragments(bodies[..|bodies| - 1], unescape) + (if latex != [] then [latex] else [])
  }

  /** Every fragment comes from one of the bodies. */
  lemma {:induction false} FragmentsFromBodies(bodies: seq<string>, unescape: Unescape, x: string)
    requires x in Fragments(bodies, unescape)
    ensures Stripped(x)
    ensures exists body :: body in bodies && x == Strip(unescape(body))
  {
    var init := bodies[..|bodies| - 1];
    var last := bodies[|bodies| - 1];
    if x in Fragments(init, unescape) {
      FragmentsFromBodies(init, unescape, x);
      var body :| body in init && x == Strip(unescape(body));
      assert body in bodies;
    } else {
      assert x == Strip(unescape(last)) && x != [];
    }
  }

  lemma BodiesStep(html: string, pat: TagPattern, i: nat)
    requires pat.close != [] && pat.close[0] == '<'
    requires i < |html| && TagMatch(html, pat, i).Some?
    ensures Bodies(html, pat, i) == [html[TagMatch(html, pat, i).value.bodyStart..TagMatch(html, pat, i).value.bodyEnd]]
      + Bodies(html, pat, TagMatch(html, pat, i).value.end)
  {
  }

  lemma BodiesSkip(html: string, pat: TagPattern, i: nat)
    requires pat.close != [] && pat.close[0] == '<'
    requires i < |html| && TagMatch(html, pat, i).None?
    ensures Bodies(html, pat, i) == Bodies(html, pat, i + 1)
  {
  }

  lemma AppendAssociates(a: seq<string>, b: seq<string>, c: seq<string>)
    ensures a + (b + c) == (a + b) + c
  {
  }

  lemma FragmentsSnoc(seen: seq<string>, body: string, unescape: Unescape)
    ensures Fragments(seen + [body], unescape) == Fragments(seen, unescape)
      + (if Strip(unescape(body)) != [] then [Strip(unescape(body))] else [])
  {
    assert (seen + [body])[..|seen|] == seen;
  }

  /** One `finditer` loop of `_extract_latex_from_html`. */
  method FindFragments(html: string, pat: TagPattern, unescape: Unescape) returns (fragments: seq<string>)
    requires pat.close != [] && pat.close[0] == '<'
    ensures fragments == Fragments(Bodies(html, pat, 0), unescape)
  {
    fragments := [];
    ghost var seen: seq<string> := [];
    var i := 0;
    while i < |html|
      invariant 0 <= i <= |html|
      invariant seen + Bodies(html, pat, i) == Bodies(html, pat, 0)
      invariant fragments == Fragments(seen, unescape)
      decreases |html| - i
    {
      match TagMatch(html, pat, i)
      case Some(s) =>
        var body := html[s.bodyStart..s.bodyEnd];
        BodiesStep(html, pat, i);
        AppendAssociates(seen, [body], Bodies(html, pat, s.end));
        FragmentsSnoc(seen, body, unescape);
        var latex := Strip(unescape(body));
        if latex != [] {
          fragments := fragments + [latex];
        }
        seen := seen + [body];
        i := s.end;
      case None =>
        BodiesSkip(html, pat, i);
        i := i + 1;
    }
    assert Bodies(html, pat, i) == [];
    assert seen == seen + Bodies(html, pat, i);
  }

  /** The LaTeX fragments of the summary HTML: those of the `<math>` tags, then those of the annotations. */
  function LatexOf(html: string, unescape: Unescape): seq<string> {
    Fragments(Bodies(html, MathTag, 0), unescape) + Fragments(Bodies(html, AnnotationTag, 0), unescape)
  }

  /** `_extract_latex_from_html` */
  method ExtractLatexFromHtml(html: string, unescape: Unescape) returns (fragments: seq<string>)
    ensures fragments == LatexOf(html, unescape)
  {
    fragments := FindFragments(html, MathTag, unescape);
    var annotations := FindFragments(html, AnnotationTag, unescape);
    fragments := fragments + annotations;
  }

  /**
   * What the fragments are: non-empty, with no white space at either end, and each the
   * unescaped, stripped body of a `<math>` tag or of a TeX annotation in the HTML.
   */
  lemma LatexSources(html: string, unescape: Unescape, x: string)
    requires x in LatexOf(html, unescape)
    ensures Stripped(x)
    ensures exists pat: TagPattern, p: nat, b: nat, h: nat, e: nat ::
      && (pat == MathTag || pat == AnnotationTag)
      && TagAt(html, pat, p, b, h, e) && x == Strip(unescape(html[b..h]))
  {
    var pat := if x in Fragments(Bodies(html, MathTag, 0), unescape) then MathTag else AnnotationTag;
    FragmentsFromBodies(Bodies(html, pat, 0), unescape, x);
    var body :| body in Bodies(html, pat, 0) && x == Strip(unescape(body));
    BodiesMatch(html, pat, 0, body);
  }
}

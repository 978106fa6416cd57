/**
 * The definition formatter: a Markdown card made of a heading, a body, an optional
 * notation line and an optional examples list. The body is the raw definition when
 * it already carries LaTeX; otherwise the language-model formaliser is asked for one.
 */
module DefinitionFormatting {
  import opened Wrappers
  import opened Strings

  /** The "definition" entry of the dict: absent, present as `None`, or a string. */
  datatype DefinitionEntry = Absent | NoneValue | Text(text: string)

  /** The dict given to `format_definition`; a key that is absent is `None` here. */
  datatype RawConceptData = RawConceptData(
    name: Option<string>,
    domain: Option<string>,
    definition: DefinitionEntry,
    notations: Option<seq<string>>,
    examples: Option<seq<string>>)

  /** `raw_data["name"]` on a missing key raises `KeyError`; a `None` definition makes `re.search` raise `TypeError`. */
  datatype FormatError = NotImplementedError(message: string) | KeyError(key: string) | TypeError

  /** `raw_data.get("definition", "")` when it is a string. */
  function RawDefinition(e: DefinitionEntry): (d: string)
    requires !e.NoneValue?
    ensures e.Absent? ==> d == ""
    ensures e.Text? ==> d == e.text
  {
    if e.Text? then e.text else ""
  }

  /** The keys are read, and the definition searched, without an error. */
  predicate WellFormed(raw: RawConceptData) {
    raw.name.Some? && raw.domain.Some? && !raw.definition.NoneValue?
  }

  /** The language-model formaliser: (name, informal definition, domain) to a definition body or an error. */
  type Formalizer = (string, string, string) -> Result<string, FormatError>

  const FormalizeMessage: string := "LLM formalization not yet implemented"

  /** `_formalize_with_llm`: a stub that always raises. */
  function FormalizeWithLlm(name: string, informalDef: string, domain: string): (r: Result<string, FormatError>)
    ensures r == Failure(NotImplementedError(FormalizeMessage))
  {
    Failure(NotImplementedError(FormalizeMessage))
  }

  // ---------------------------------------------------------------------------
  // `_has_latex`: a search for `\$.*?\$|\\\[.*?\\\]`, where `.` does not cross a newline.

  /** No newline among `t[lo..hi]`. */
  ghost predicate NoNewline(t: string, lo: int, hi: int) {
    0 <= lo <= hi <= |t| && forall k :: lo <= k < hi ==> t[k] != '\n'
  }

  /** `t[i]` and `t[j]` are dollars on the same line. */
  ghost predicate DollarSpan(t: string, i: int, j: int) {
    0 <= i < j < |t| && t[i] == '$' && t[j] == '$' && NoNewline(t, i + 1, j)
  }

  /** `\[` at `i` and `\]` at `j`, after it on the same line. */
  ghost predicate BracketSpan(t: string, i: int, j: int) {
    0 <= i && i + 2 <= j && j + 2 <= |t| && t[i] == '\\' && t[i + 1] == '[' && t[j] == '\\' && t[j + 1] == ']'
    && NoNewline(t, i + 2, j)
  }

  /** What the regular expression finds a match for. */
  ghost predicate LatexSpan(t: string) {
    (exists i, j :: DollarSpan(t, i, j)) || (exists i, j :: BracketSpan(t, i, j))
  }

  /**
   * A left-to-right scan: `dollar` says a `$` was seen earlier on the current line,
   * `bracket` that a complete `\[` was.
   */
  function Scan(t: string, k: nat, dollar: bool, bracket: bool): bool
    requires k <= |t|
    decreases |t| - k
  {
    if k == |t| then false
    else if t[k] == '\n' then Scan(t, k + 1, false, false)
    else if t[k] == '$' && dollar then true
    else if t[k] == '\\' && k + 1 < |t| && t[k + 1] == ']' && bracket then true
    else Scan(t, k + 1, dollar || t[k] == '$', bracket || (k >= 1 && t[k - 1] == '\\' && t[k] == '['))
  }

  /** `_has_latex(text)` */
  function HasLatex(text: string): bool {
    Scan(text, 0, false, false)
  }

  ghost predicate DollarOpen(t: string, k: int) {
    0 <= k <= |t| && exists i :: 0 <= i < k && t[i] == '$' && NoNewline(t, i + 1, k)
  }

  ghost predicate BracketOpen(t: string, k: int) {
    0 <= k <= |t| && exists i :: 0 <= i && i + 2 <= k && t[i] == '\\' && t[i + 1] == '[' && NoNewline(t, i + 2, k)
  }

  /** Some span closes before position `k`. */
  ghost predicate ClosedBefore(t: string, k: int) {
    (exists i, j :: DollarSpan(t, i, j) && j < k) || (exists i, j :: BracketSpan(t, i, j) && j < k)
  }

  lemma NewlineClosesLine(t: string, k: nat)
    requires k < |t| && t[k] == '\n'
    ensures !DollarOpen(t, k + 1) && !BracketOpen(t, k + 1)
    ensures ClosedBefore(t, k + 1) == ClosedBefore(t, k)
  {
    forall i | 0 <= i < k + 1 && t[i] == '$' ensures !NoNewline(t, i + 1, k + 1) {
      assert i + 1 <= k;
    }
    forall i | 0 <= i && i + 2 <= k + 1 && t[i] == '\\' && t[i + 1] == '[' ensures !NoNewline(t, i + 2, k + 1) {
      assert i + 2 <= k;
    }
  }

  lemma OrdinaryCharExtends(t: string, k: nat)
    requires k < |t| && t[k] != '\n'
    ensures DollarOpen(t, k + 1) == (DollarOpen(t, k) || t[k] == '$')
    ensures BracketOpen(t, k + 1) == (BracketOpen(t, k) || (k >= 1 && t[k - 1] == '\\' && t[k] == '['))
  {
    if DollarOpen(t, k) {
      var i :| 0 <= i < k && t[i] == '$' && NoNewline(t, i + 1, k);
      assert NoNewline(t, i + 1, k + 1);
    }
    if t[k] == '$' {
      assert NoNewline(t, k + 1, k + 1);
    }
    if DollarOpen(t, k + 1) {
      var i :| 0 <= i < k + 1 && t[i] == '$' && NoNewline(t, i + 1, k + 1);
      if i < k { assert NoNewline(t, i + 1, k); }
    }
    if BracketOpen(t, k) {
      var i :| 0 <= i && i + 2 <= k && t[i] == '\\' && t[i + 1] == '[' && NoNewline(t, i + 2, k);
      assert NoNewline(t, i + 2, k + 1);
    }
    if k >= 1 && t[k - 1] == '\\' && t[k] == '[' {
      assert NoNewline(t, k + 1, k + 1);
    }
    if BracketOpen(t, k + 1) {
      var i :| 0 <= i && i + 2 <= k + 1 && t[i] == '\\' && t[i + 1] == '[' && NoNewline(t, i + 2, k + 1);
      if i + 2 <= k { assert NoNewline(t, i + 2, k); }
    }
  }

  /** Where a span closes, the scan is in the matching open state. */
  lemma SpanOpensAtEnd(t: string, i: int, j: int)
    ensures DollarSpan(t, i, j) ==> DollarOpen(t, j) && t[j] == '$'
    ensures BracketSpan(t, i, j) ==> BracketOpen(t, j) && t[j] == '\\' && t[j + 1] == ']'
  {
  }

  /** The scan from position `k`, in the state the prefix leaves it in, decides the search. */
  lemma {:induction false} ScanDecides(t: string, k: nat, dollar: bool, bracket: bool)
    requires k <= |t|
    requires dollar == DollarOpen(t, k) && bracket == BracketOpen(t, k)
    requires !ClosedBefore(t, k)
    ensures Scan(t, k, dollar, bracket) == LatexSpan(t)
    decreases |t| - k
  {
    if k == |t| {
      assert !LatexSpan(t);
    } else if t[k] == '\n' {
      NewlineClosesLine(t, k);
      ScanDecides(t, k + 1, false, false);
    } else if t[k] == '$' && dollar {
      var i :| 0 <= i < k && t[i] == '$' && NoNewline(t, i + 1, k);
      assert DollarSpan(t, i, k);
    } else if t[k] == '\\' && k + 1 < |t| && t[k + 1] == ']' && bracket {
      var i :| 0 <= i && i + 2 <= k && t[i] == '\\' && t[i + 1] == '[' && NoNewline(t, i + 2, k);
      assert BracketSpan(t, i, k);
    } else {
      OrdinaryCharExtends(t, k);
      forall i, j | DollarSpan(t, i, j) && j < k + 1 ensures j < k {
        SpanOpensAtEnd(t, i, j);
      }
      forall i, j | BracketSpan(t, i, j) && j < k + 1 ensures j < k {
        SpanOpensAtEnd(t, i, j);
      }
      ScanDecides(t, k + 1, dollar || t[k] == '$', bracket || (k >= 1 && t[k - 1] == '\\' && t[k] == '['));
    }
  }

  /** `_has_latex` holds exactly when a `$...$` or a `\[...\]` lies within one line. */
  lemma HasLatexIff(text: string)
    ensures HasLatex(text) <==> LatexSpan(text)
  {
    ScanDecides(text, 0, false, false);
  }

  // ---------------------------------------------------------------------------
  // The card

  function Heading(name: string): string {
    "## " + name + "\n\n"
  }

  /** The notation line, present only for a non-empty list. */
  function NotationLine(notations: seq<string>): string {
    if notations == [] then "" else "\n\n**Notation:** " + Join(notations, ", ")
  }

  /** The line of one example. */
  function Bullet(example: string): string {
    "- " + example + "\n"
  }

  /** One `- ex` line per example. */
  function Bullets(examples: seq<string>): string {
    if examples == [] then "" else Bullets(examples[..|examples| - 1]) + Bullet(examples[|examples| - 1])
  }

  /** The examples block, present only for a non-empty list. */
  function ExamplesBlock(examples: seq<string>): string {
    if examples == [] then "" else "\n\n**Examples:**\n" + Bullets(examples)
  }

  function Card(name: string, body: string, notations: seq<string>, examples: seq<string>): string {
    Heading(name) + body + NotationLine(notations) + ExamplesBlock(examples)
  }

  /** The bullets of two lists are the bullets of the first followed by those of the second. */
  lemma {:induction false} BulletsAppend(xs: seq<string>, ys: seq<string>)
    ensures Bullets(xs + ys) == Bullets(xs) + Bullets(ys)
    decreases |ys|
  {
    if ys != [] {
      var init := ys[..|ys| - 1];
      assert (xs + ys)[..|xs + ys| - 1] == xs + init;
      var last := ys[|ys| - 1];
      assert (xs + ys)[|xs + ys| - 1] == last;
      BulletsAppend(xs, init);
      calc {
        Bullets(xs + ys);
        Bullets(xs + init) + Bullet(last);
        (Bullets(xs) + Bullets(init)) + Bullet(last);
        Bullets(xs) + (Bullets(init) + Bullet(last));
        Bullets(xs) + Bullets(ys);
      }
    } else {
      assert xs + ys == xs;
    }
  }

  /** Every example gets its own line, in input order: the `i`-th line is `- examples[i]`. */
  lemma BulletsInOrder(examples: seq<string>, i: nat)
    requires i < |examples|
    ensures Bullets(examples)
         == Bullets(examples[..i]) + Bullet(examples[i]) + Bullets(examples[i + 1..])
  {
    var front, x, back := examples[..i], examples[i], examples[i + 1..];
    Decompose(examples, i);
    BulletsAppend(front + [x], back);
    BulletsSnoc(front, x);
  }

  lemma BulletsSnoc(front: seq<string>, x: string)
    ensures Bullets(front + [x]) == Bullets(front) + Bullet(x)
  {
    var upto := front + [x];
    assert upto[..|upto| - 1] == front && upto[|upto| - 1] == x;
  }

  lemma Decompose<T>(s: seq<T>, i: nat)
    requires i < |s|
    ensures s == (s[..i] + [s[i]]) + s[i + 1..]
  {
    assert s[i..] == [s[i]] + s[i + 1..];
    assert s == s[..i] + s[i..];
    Regroup(s[..i], [s[i]], s[i + 1..]);
  }

  lemma Regroup<T>(a: seq<T>, b: seq<T>, c: seq<T>)
    ensures (a + b) + c == a + (b + c)
  {
  }

  lemma SplitAt(a: string, b: string)
    ensures StartsWith(a + b, a) && (a + b)[|a|..] == b
  {
    assert (a + b)[..|a|] == a;
  }

  /** The card starts with its heading and body, then the notation line when there is one, and ends with the examples block. */
  lemma CardLayout(name: string, body: string, notations: seq<string>, examples: seq<string>)
    ensures StartsWith(Card(name, body, notations, examples), "## " + name + "\n\n" + body)
    ensures notations != [] ==>
      StartsWith(Card(name, body, notations, examples)[|Heading(name) + body|..], "\n\n**Notation:** ")
    ensures notations == [] && examples != [] ==>
      StartsWith(Card(name, body, notations, examples)[|Heading(name) + body|..], "\n\n**Examples:**\n")
    ensures notations == [] && examples == [] ==> Card(name, body, notations, examples) == Heading(name) + body
    ensures examples != [] ==> EndsWith(Card(name, body, notations, examples), ExamplesBlock(examples))
  {
    var head := Heading(name) + body;
    var notation, block := NotationLine(notations), ExamplesBlock(examples);
    assert (head + notation + block)[|head + notation|..] == block;
    Regroup(head, notation, block);
    SplitAt(head, notation + block);
    if notations != [] {
      Regroup("\n\n**Notation:** ", Join(notations, ", "), block);
      SplitAt("\n\n**Notation:** ", Join(notations, ", ") + block);
    } else {
      assert notation + block == block;
      if examples != [] {
        SplitAt("\n\n**Examples:**\n", Bullets(examples));
      } else {
        assert notation + block == [];
      }
    }
  }

  /**
   * `format_definition` with the formaliser as a parameter. A missing "name", then a missing
   * "domain", then a `None` definition fail in that order; otherwise the raw definition
   * (default "") is the body when it has LaTeX, and the formaliser is called when it has not.
   */
  method FormatDefinitionWith(raw: RawConceptData, formalize: Formalizer) returns (r: Result<string, FormatError>)
    ensures raw.name.None? ==> r == Failure(KeyError("name"))
    ensures raw.name.Some? && raw.domain.None? ==> r == Failure(KeyError("domain"))
    ensures raw.name.Some? && raw.domain.Some? && raw.definition.NoneValue? ==> r == Failure(TypeError)
    ensures WellFormed(raw) && HasLatex(RawDefinition(raw.definition)) ==>
      r == Success(Card(raw.name.value, RawDefinition(raw.definition), raw.notations.GetOr([]), raw.examples.GetOr([])))
    ensures WellFormed(raw) && !HasLatex(RawDefinition(raw.definition)) ==>
      r == match formalize(raw.name.value, RawDefinition(raw.definition), raw.domain.value)
           case Failure(e) => Failure(e)
           case Success(body) => Success(Card(raw.name.value, body, raw.notations.GetOr([]), raw.examples.GetOr([])))
  {
    if raw.name.None? {
      return Failure(KeyError("name"));
    }
    var name := raw.name.value;
    if raw.domain.None? {
      return Failure(KeyError("domain"));
    }
    if raw.definition.NoneValue? {
      return Failure(TypeError);
    }
    var rawDef := RawDefinition(raw.definition);
    var formalDef: string;
    if !HasLatex(rawDef) {
      var formalized := formalize(name, rawDef, raw.domain.value);
      if formalized.Failure? {
        return Failure(formalized.error);
      }
      formalDef := formalized.value;
    } else {
      formalDef := rawDef;
    }
    var md := "## " + name + "\n\n" + formalDef;
    var notations := raw.notations.GetOr([]);
    if notations != [] {
      md := md + ("\n\n**Notation:** " + Join(notations, ", "));
    } else {
      assert md + NotationLine(notations) == md;
    }
    assert md == Heading(name) + formalDef + NotationLine(notations);
    var examples := raw.examples.GetOr([]);
    if examples != [] {
      var block := "";
      var i := 0;
      while i < |examples|
        invariant 0 <= i <= |examples|
        invariant block == Bullets(examples[..i])
      {
        assert examples[..i + 1][..i] == examples[..i];
        block := block + Bullet(examples[i]);
        i := i + 1;
      }
      assert examples[..i] == examples;
      md := md + ("\n\n**Examples:**\n" + block);
    } else {
      assert md + ExamplesBlock(examples) == md;
    }
    assert md == Card(name, formalDef, notations, examples);
    return Success(md);
  }

  /**
   * `format_definition` as the source configures it, with the always-failing formaliser:
   * a well-formed dict is formatted exactly when its raw definition has LaTeX, and then the
   * body is that definition verbatim.
   */
  method FormatDefinition(raw: RawConceptData) returns (r: Result<string, FormatError>)
    ensures r.Success? <==> WellFormed(raw) && HasLatex(RawDefinition(raw.definition))
    ensures r.Success? ==>
      r.value == Card(raw.name.value, RawDefinition(raw.definition), raw.notations.GetOr([]), raw.examples.GetOr([]))
    ensures !WellFormed(raw) ==>
      r.Failure? && r.error in {KeyError("name"), KeyError("domain"), TypeError}
    ensures WellFormed(raw) && r.Failure? ==> r.error == NotImplementedError(FormalizeMessage)
  {
    r := FormatDefinitionWith(raw, FormalizeWithLlm);
  }
}

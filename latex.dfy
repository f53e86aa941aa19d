/**
 * The LaTeX-to-Unicode clean-up of `cleanup` in bibtex/bibtex.go: a fixed,
 * ordered table of literal substitutions applied by Go's `strings.NewReplacer`.
 * The replacer makes ONE left-to-right scan: at each position the earliest rule
 * of the table whose pattern starts there wins, its replacement is emitted and
 * the scan resumes after the pattern; where no rule matches one character is
 * copied. Replacement text is never scanned again.
 */
module Latex {
  import opened Wrappers

  /** A substitution rule: (literal pattern, literal replacement). */
  type Rule = (string, string)

  // The table of bibtex/bibtex.go:102-164, in the source's order. The accented
  // letters are written exactly as the source has them: a base letter followed
  // by a combining mark (U+0301 acute for the backquote macro, U+0300 grave for
  // the apostrophe macro, U+0302, U+0308, U+0303, U+0327).

  const LowerAccents: seq<Rule> := [
    ("{\\`a}", "a\U{0301}"),
    ("{\\'a}", "a\U{0300}"),
    ("{\\^a}", "a\U{0302}"),
    ("{\\\"a}", "a\U{0308}"),
    ("{\\c{c}}", "c\U{0327}"),
    ("{\\`e}", "e\U{0301}"),
    ("{\\'e}", "e\U{0300}"),
    ("{\\^e}", "e\U{0302}"),
    ("{\\\"e}", "e\U{0308}"),
    ("{\\`i}", "i\U{0301}"),
    ("{\\'i}", "i\U{0300}"),
    ("{\\^i}", "i\U{0302}"),
    ("{\\\"i}", "i\U{0308}"),
    ("{\\~n}", "n\U{0303}"),
    ("{\\`o}", "o\U{0301}"),
    ("{\\'o}", "o\U{0300}"),
    ("{\\^o}", "o\U{0302}"),
    ("{\\\"o}", "o\U{0308}"),
    ("{\\`u}", "u\U{0301}"),
    ("{\\'u}", "u\U{0300}"),
    ("{\\^u}", "u\U{0302}"),
    ("{\\\"u}", "u\U{0308}"),
    ("{\\\"y}", "y\U{0308}"),
    ("{\\ss}", "\U{00DF}")
  ]

  const UpperAccents: seq<Rule> := [
    ("{\\`A}", "A\U{0301}"),
    ("{\\'A}", "A\U{0300}"),
    ("{\\^A}", "A\U{0302}"),
    ("{\\\"A}", "A\U{0308}"),
    ("{\\c{C}}", "C\U{0327}"),
    ("{\\`E}", "E\U{0301}"),
    ("{\\'E}", "E\U{0300}"),
    ("{\\^E}", "E\U{0302}"),
    ("{\\\"E}", "E\U{0308}"),
    ("{\\`I}", "I\U{0301}"),
    ("{\\'I}", "I\U{0300}"),
    ("{\\^I}", "I\U{0302}"),
    ("{\\\"I}", "I\U{0308}"),
    ("{\\~N}", "N\U{0303}"),
    ("{\\`O}", "O\U{0301}"),
    ("{\\'O}", "O\U{0300}"),
    ("{\\^O}", "O\U{0302}"),
    ("{\\\"O}", "O\U{0308}"),
    ("{\\`U}", "U\U{0301}"),
    ("{\\'U}", "U\U{0300}"),
    ("{\\^U}", "U\U{0302}"),
    ("{\\\"U}", "U\U{0308}"),
    ("{\\\"Y}", "Y\U{0308}")
  ]

  const Macros: seq<Rule> := [
    ("\\o", "\U{00F8}"),
    ("\\ldots\\", "..."),
    ("\\ldots", "..."),
    ("\\dots\\", "..."),
    ("\\dots", "...")
  ]

  const Punctuation: seq<Rule> := [
    ("~", " "),
    ("``", "\""),
    ("''", "\""),
    ("`", "'"),
    ("\\&", "&"),
    ("$\\lambda$", "\U{03BB}")
  ]

  const Stripping: seq<Rule> := [
    ("\\emph{", ""),
    ("{", ""),
    ("},", ""),
    ("}", ""),
    ("\\", "")
  ]

  /** The whole table: rules 0-23, 24-46, 47-51, 52-57 and 58-62. */
  const Table: seq<Rule> := LowerAccents + UpperAccents + Macros + Punctuation + Stripping

  /** Every pattern of the table starts with one of these characters. */
  const Starters: set<char> := {'{', '}', '\\', '~', '`', '\'', '$'}

  /** The characters a single-character rule of the table consumes wherever no longer rule matches. */
  const Markup: set<char> := {'{', '}', '\\', '~', '`'}

  predicate IsPrefix(p: string, s: string)
  {
    |p| <= |s| && s[..|p|] == p
  }

  predicate NonEmptyPatterns(rules: seq<Rule>)
  {
    forall k :: 0 <= k < |rules| ==> |rules[k].0| > 0
  }

  /** No replacement is longer than its pattern. */
  predicate Shrinking(rules: seq<Rule>)
  {
    forall k :: 0 <= k < |rules| ==> |rules[k].1| <= |rules[k].0|
  }

  predicate PatternsStartIn(rules: seq<Rule>, cs: set<char>)
  {
    forall k :: 0 <= k < |rules| ==> |rules[k].0| > 0 && rules[k].0[0] in cs
  }

  /** No replacement contains a character of `cs`. */
  predicate OutputAvoids(rules: seq<Rule>, cs: set<char>)
  {
    forall k, i :: 0 <= k < |rules| && 0 <= i < |rules[k].1| ==> rules[k].1[i] !in cs
  }

  /** Every character of `cs` is, on its own, the pattern of some rule. */
  predicate HasSingles(rules: seq<Rule>, cs: set<char>)
  {
    forall c :: c in cs ==> exists k :: 0 <= k < |rules| && rules[k].0 == [c]
  }

  /** The first rule at index `i` or later whose pattern is a prefix of `s`. */
  function MatchFrom(rules: seq<Rule>, s: string, i: nat): (r: Option<nat>)
    requires i <= |rules|
    ensures r.Some? ==> i <= r.value < |rules| && IsPrefix(rules[r.value].0, s)
    ensures r.Some? ==> forall j :: i <= j < r.value ==> !IsPrefix(rules[j].0, s)
    ensures r.None? ==> forall j :: i <= j < |rules| ==> !IsPrefix(rules[j].0, s)
    decreases |rules| - i
  {
    if i == |rules| then None
    else if IsPrefix(rules[i].0, s) then Some(i)
    else MatchFrom(rules, s, i + 1)
  }

  /** The earliest rule of the table whose pattern matches at the start of `s`. */
  function FirstMatch(rules: seq<Rule>, s: string): (r: Option<nat>)
    ensures r.Some? ==> r.value < |rules| && IsPrefix(rules[r.value].0, s)
    ensures r.Some? ==> forall j :: 0 <= j < r.value ==> !IsPrefix(rules[j].0, s)
    ensures r.None? ==> forall j :: 0 <= j < |rules| ==> !IsPrefix(rules[j].0, s)
  {
    MatchFrom(rules, s, 0)
  }

  /** `strings.NewReplacer(rules...).Replace(s)`: the single first-match scan. */
  function Replace(rules: seq<Rule>, s: string): string
    requires NonEmptyPatterns(rules)
    decreases |s|
  {
    if s == [] then []
    else match FirstMatch(rules, s)
      case Some(k) => rules[k].1 + Replace(rules, s[|rules[k].0|..])
      case None => [s[0]] + Replace(rules, s[1..])
  }

  /**
   * At a position where rule `k` matches and no earlier rule does, rule `k`
   * wins (even over a longer later pattern), its replacement is emitted as is
   * and the scan carries on after the pattern.
   */
  lemma ReplaceMatch(rules: seq<Rule>, s: string, k: nat)
    requires NonEmptyPatterns(rules)
    requires k < |rules| && IsPrefix(rules[k].0, s)
    requires forall j :: 0 <= j < k ==> !IsPrefix(rules[j].0, s)
    ensures Replace(rules, s) == rules[k].1 + Replace(rules, s[|rules[k].0|..])
  {
  }

  /** Where no rule matches, one character is copied and the scan moves on by one. */
  lemma ReplaceCopy(rules: seq<Rule>, s: string)
    requires NonEmptyPatterns(rules) && s != []
    requires forall j :: 0 <= j < |rules| ==> !IsPrefix(rules[j].0, s)
    ensures Replace(rules, s) == [s[0]] + Replace(rules, s[1..])
  {
  }

  /** With no replacement longer than its pattern, the output is never longer than the input. */
  lemma {:induction false} ReplaceShrinks(rules: seq<Rule>, s: string)
    requires NonEmptyPatterns(rules) && Shrinking(rules)
    ensures |Replace(rules, s)| <= |s|
    decreases |s|
  {
    if s != [] {
      match FirstMatch(rules, s)
      case Some(k) => ReplaceShrinks(rules, s[|rules[k].0|..]);
      case None => ReplaceShrinks(rules, s[1..]);
    }
  }

  /**
   * If no replacement contains a character of `bad` and each such character is
   * a pattern on its own, the output contains none of them: each occurrence in
   * the input is consumed by some match.
   */
  lemma {:induction false} ReplaceAvoids(rules: seq<Rule>, s: string, bad: set<char>)
    requires NonEmptyPatterns(rules) && OutputAvoids(rules, bad) && HasSingles(rules, bad)
    ensures forall i :: 0 <= i < |Replace(rules, s)| ==> Replace(rules, s)[i] !in bad
    decreases |s|
  {
    if s != [] {
      match FirstMatch(rules, s)
      case Some(k) =>
        ReplaceAvoids(rules, s[|rules[k].0|..], bad);
      case None =>
        ReplaceAvoids(rules, s[1..], bad);
    }
  }

  /** Text holding no character that starts a pattern passes through unchanged. */
  lemma {:induction false} ReplaceIdentity(rules: seq<Rule>, s: string, starters: set<char>)
    requires NonEmptyPatterns(rules) && PatternsStartIn(rules, starters)
    requires forall i :: 0 <= i < |s| ==> s[i] !in starters
    ensures Replace(rules, s) == s
    decreases |s|
  {
    if s != [] {
      assert FirstMatch(rules, s).None? by {
        forall j | 0 <= j < |rules| ensures !IsPrefix(rules[j].0, s) {
        }
      }
      ReplaceIdentity(rules, s[1..], starters);
    }
  }

  lemma LowerAccentFacts()
    ensures forall k :: 0 <= k < |LowerAccents| ==> |LowerAccents[k].0| == 5 || |LowerAccents[k].0| == 7
    ensures forall k :: 0 <= k < |LowerAccents| ==> LowerAccents[k].0[0] == '{' && |LowerAccents[k].1| <= 2
    ensures forall k :: 0 <= k < |LowerAccents| ==> forall i :: 0 <= i < |LowerAccents[k].1| ==> LowerAccents[k].1[i] !in Markup
  {
  }

  lemma UpperAccentFacts()
    ensures forall k :: 0 <= k < |UpperAccents| ==> |UpperAccents[k].0| == 5 || |UpperAccents[k].0| == 7
    ensures forall k :: 0 <= k < |UpperAccents| ==> UpperAccents[k].0[0] == '{' && |UpperAccents[k].1| == 2
    ensures forall k :: 0 <= k < |UpperAccents| ==> forall i :: 0 <= i < |UpperAccents[k].1| ==> UpperAccents[k].1[i] !in Markup
  {
  }

  lemma OtherRuleFacts()
    ensures forall k :: 0 <= k < |Macros| ==> |Macros[k].0| >= |Macros[k].1| && |Macros[k].0| > 0 && Macros[k].0[0] == '\\'
    ensures forall k :: 0 <= k < |Macros| ==> forall i :: 0 <= i < |Macros[k].1| ==> Macros[k].1[i] !in Markup
    ensures forall k :: 0 <= k < |Punctuation| ==> |Punctuation[k].0| >= |Punctuation[k].1| && |Punctuation[k].0| > 0
    ensures forall k :: 0 <= k < |Punctuation| ==> Punctuation[k].0[0] in Starters
    ensures forall k :: 0 <= k < |Punctuation| ==> forall i :: 0 <= i < |Punctuation[k].1| ==> Punctuation[k].1[i] !in Markup
    ensures forall k :: 0 <= k < |Stripping| ==> |Stripping[k].0| > 0 && Stripping[k].1 == [] && Stripping[k].0[0] in Starters
  {
  }

  /** The rules after the accents, by their index in the table. */
  lemma TableTail()
    ensures |Table| == 63
    ensures Table[47] == ("\\o", "\U{00F8}") && Table[48] == ("\\ldots\\", "...") && Table[49] == ("\\ldots", "...")
    ensures Table[50] == ("\\dots\\", "...") && Table[51] == ("\\dots", "...")
    ensures Table[52] == ("~", " ") && Table[53] == ("``", "\"") && Table[54] == ("''", "\"")
    ensures Table[55] == ("`", "'") && Table[56] == ("\\&", "&") && Table[57] == ("$\\lambda$", "\U{03BB}")
    ensures Table[58] == ("\\emph{", "") && Table[59] == ("{", "") && Table[60] == ("},", "")
    ensures Table[61] == ("}", "") && Table[62] == ("\\", "")
  {
    assert Table[47..] == Macros + Punctuation + Stripping;
  }

  /** The table's own properties: what makes the clean-up total, shrinking and thorough. */
  lemma TableFacts()
    ensures |Table| == 63
    ensures NonEmptyPatterns(Table) && Shrinking(Table) && PatternsStartIn(Table, Starters)
    ensures OutputAvoids(Table, Markup) && HasSingles(Table, Markup)
  {
    LowerAccentFacts();
    UpperAccentFacts();
    OtherRuleFacts();
    var a, b, c, d := |LowerAccents|, |LowerAccents| + |UpperAccents|, |LowerAccents| + |UpperAccents| + |Macros|,
      |LowerAccents| + |UpperAccents| + |Macros| + |Punctuation|;
    assert a == 24 && b == 47 && c == 52 && d == 58;
    forall k | 0 <= k < |Table|
      ensures |Table[k].0| > 0 && |Table[k].1| <= |Table[k].0| && Table[k].0[0] in Starters
      ensures forall i :: 0 <= i < |Table[k].1| ==> Table[k].1[i] !in Markup
    {
      if k < a { assert Table[k] == LowerAccents[k]; }
      else if k < b { assert Table[k] == UpperAccents[k - a]; }
      else if k < c { assert Table[k] == Macros[k - b]; }
      else if k < d { assert Table[k] == Punctuation[k - c]; }
      else { assert Table[k] == Stripping[k - d]; }
    }
    TableTail();
  }

  /**
   * `cleanup` (bibtex/bibtex.go:100-167). The result holds none of the
   * characters `{`, `}`, `\`, `~` and backquote, and is never longer than the
   * input.
   */
  function Cleanup(text: string): (clean: string)
    ensures forall i :: 0 <= i < |clean| ==> clean[i] !in Markup
    ensures |clean| <= |text|
  {
    TableFacts();
    ReplaceAvoids(Table, text, Markup);
    ReplaceShrinks(Table, text);
    Replace(Table, text)
  }

  /** Text free of `{ } \ ~ ` ' $` is returned unchanged. */
  lemma CleanupIdentity(text: string)
    requires forall i :: 0 <= i < |text| ==> text[i] !in Starters
    ensures Cleanup(text) == text
  {
    TableFacts();
    ReplaceIdentity(Table, text, Starters);
  }

  /** None of the 47 accent rules can match where the text does not start with `{`. */
  lemma AccentsNeedBrace(s: string)
    requires s == [] || s[0] != '{'
    ensures forall j :: 0 <= j < 47 ==> !IsPrefix(Table[j].0, s)
  {
    LowerAccentFacts();
    UpperAccentFacts();
    forall j | 0 <= j < 47 ensures !IsPrefix(Table[j].0, s) {
      if j < 24 { assert Table[j] == LowerAccents[j]; } else { assert Table[j] == UpperAccents[j - 24]; }
    }
  }

  /** The accent patterns have five or seven characters, so none matches text shorter than five. */
  lemma AccentsTooLong(s: string)
    requires |s| < 5
    ensures forall j :: 0 <= j < 47 ==> !IsPrefix(Table[j].0, s)
  {
    LowerAccentFacts();
    UpperAccentFacts();
    forall j | 0 <= j < 47 ensures !IsPrefix(Table[j].0, s) {
      if j < 24 { assert Table[j] == LowerAccents[j]; } else { assert Table[j] == UpperAccents[j - 24]; }
    }
  }

  /** The one table fact `Replace` needs, without the others of `TableFacts` that slow the proofs using it. */
  lemma TableNonEmpty()
    ensures NonEmptyPatterns(Table)
  {
    TableFacts();
  }

  /** The cedilla macro beats the generic `{` rule of line 161. */
  lemma CleanupCedilla(rest: string)
    ensures Cleanup("{\\c{c}}" + rest) == "c\U{0327}" + Cleanup(rest)
  {
    var s := "{\\c{c}}" + rest;
    TableNonEmpty();
    forall j | 0 <= j < 4 ensures !IsPrefix(Table[j].0, s) {
      assert Table[j] == LowerAccents[j];
      assert s[2] == 'c' != Table[j].0[2];
    }
    assert Table[4] == LowerAccents[4];
    ReplaceMatch(Table, s, 4);
    assert s[7..] == rest;
  }

  /** `\ldots\` (line 150) is tried before `\ldots` (line 151) and wins. */
  lemma CleanupLdotsBackslash(rest: string)
    ensures Cleanup("\\ldots\\" + rest) == "..." + Cleanup(rest)
  {
    var s := "\\ldots\\" + rest;
    TableNonEmpty();
    AccentsNeedBrace(s);
    TableTail();
    assert s[1] == 'l';
    ReplaceMatch(Table, s, 48);
    assert s[7..] == rest;
  }

  /** A doubled backquote (line 155) beats the single backquote of line 157. */
  lemma CleanupDoubleBackquote(rest: string)
    ensures Cleanup("``" + rest) == "\"" + Cleanup(rest)
  {
    var s := "``" + rest;
    TableNonEmpty();
    AccentsNeedBrace(s);
    TableTail();
    ReplaceMatch(Table, s, 53);
    assert s[2..] == rest;
  }

  /**
   * Replacement text is not scanned again: a backquote followed by an
   * apostrophe becomes two apostrophes, which a second clean-up would turn
   * into a double quote. So the clean-up is not idempotent.
   */
  lemma CleanupNotRescanned()
    ensures Cleanup("`'") == "''"
    ensures Cleanup("''") == "\""
    ensures Cleanup(Cleanup("`'")) != Cleanup("`'")
  {
    TableNonEmpty();
    TableTail();
    var t := "'";
    AccentsNeedBrace(t);
    ReplaceCopy(Table, t);
    assert t[1..] == [];
    var s := "`'";
    AccentsNeedBrace(s);
    assert s[1] == '\'' && !IsPrefix(Table[53].0, s);
    ReplaceMatch(Table, s, 55);
    assert s[1..] == t;
    var u := "''";
    AccentsNeedBrace(u);
    ReplaceMatch(Table, u, 54);
    assert u[2..] == [];
  }

  /**
   * The same holds for text made of table patterns only: in `` `{` `` the
   * backquotes become apostrophes (line 157) and the brace is dropped
   * (line 161), leaving `''`, which a second clean-up turns into `"`.
   */
  lemma CleanupBraceNotRescanned()
    ensures Cleanup("`{`") == "''"
    ensures Cleanup(Cleanup("`{`")) == "\""
  {
    TableNonEmpty();
    TableTail();
    var s := "`{`";
    AccentsNeedBrace(s);
    assert s[1] == '{';
    ReplaceMatch(Table, s, 55);
    assert s[1..] == "{`";
    CleanupBraceBackquote();
    CleanupNotRescanned();
  }

  /** `{` then a backquote: the brace is dropped (line 161), the backquote becomes an apostrophe. */
  lemma CleanupBraceBackquote()
    ensures Cleanup("{`") == "'"
  {
    TableNonEmpty();
    TableTail();
    var t := "{`";
    AccentsTooLong(t);
    forall j | 47 <= j < 59 ensures !IsPrefix(Table[j].0, t) {
      assert Table[j].0[0] != '{' == t[0];
    }
    ReplaceMatch(Table, t, 59);
    assert t[1..] == "`";
    CleanupBackquote();
  }

  /** A lone backquote becomes an apostrophe (line 157). */
  lemma CleanupBackquote()
    ensures Cleanup("`") == "'"
  {
    TableNonEmpty();
    TableTail();
    var u := "`";
    AccentsNeedBrace(u);
    ReplaceMatch(Table, u, 55);
    assert u[1..] == [];
  }
}

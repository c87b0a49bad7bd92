/** The public operations of the stemmer (mstem/mstem.py:20-181): a loaded
    rule table and lexicon, `stem`, `_parse` and its four output shapers. */
module Analyzer {
  import opened Wrappers
  import opened Strings
  import opened Patterns
  import opened RuleTable
  import opened Engine

  /** A loaded stemmer. `normalize` is the canonical decomposition applied
      to tokens and rule columns (NFD in the source), taken as given. */
  datatype Stemmer = Stemmer(normalize: string -> string, lexicon: set<string>, rules: seq<Rule>)

  /** Build a stemmer from a ready lexicon and a rule table whose first row
      is a header; a bad rule record aborts construction. */
  function New(normalize: string -> string, lexicon: set<string>, table: seq<seq<string>>): (r: Result<Stemmer, LoadError>)
    ensures r.Success? <==> Load(table, normalize).Success?
    ensures r.Success? ==> r.value.lexicon == lexicon && |r.value.rules| == |table| - 1
    ensures r.Success? ==> r.value.normalize == normalize
    ensures r.Success? ==>
              forall j :: 0 <= j < |r.value.rules| ==> CompiledFrom(table[j + 1], r.value.rules[j], normalize)
    ensures r.Failure? ==> table == [] || exists j :: 1 <= j < |table| && !RowOk(table[j], normalize)
    ensures r.Failure? ==> r.error == Load(table, normalize).error
  {
    match Load(table, normalize)
    case Failure(e) => Failure(e)
    case Success(rules) => Success(Stemmer(normalize, lexicon, rules))
  }

  /** `stem`: normalize, then run the all-occurrence loop. */
  function Stem(s: Stemmer, token: string): (r: string)
    ensures s.normalize(token) in s.lexicon ==> r == s.normalize(token)
    ensures s.rules == [] ==> r == s.normalize(token)
  {
    Run(s.rules, s.lexicon, Every, s.normalize(token))
  }

  /** `_parse`: normalize, then run the first-occurrence loop from empty
      evidence. */
  function Analyze(s: Stemmer, token: string, gloss: bool): (a: Analysis)
    ensures s.normalize(token) in s.lexicon ==> a == Analysis([], s.normalize(token), [])
    ensures s.rules == [] ==> a == Analysis([], s.normalize(token), [])
  {
    Analyse(s.rules, s.lexicon, gloss, Analysis([], s.normalize(token), []))
  }

  /** `parse`: prefix evidence, the stem, then suffix evidence. */
  function Parse(s: Stemmer, token: string, gloss: bool): (r: seq<string>)
    ensures var a := Analyze(s, token, gloss);
            && |r| == |a.prefixes| + 1 + |a.suffixes|
            && r[|a.prefixes|] == a.stem
            && r[..|a.prefixes|] == a.prefixes
            && r[|a.prefixes| + 1..] == a.suffixes
  {
    var a := Analyze(s, token, gloss);
    var r := a.prefixes + [a.stem] + a.suffixes;
    assert r[..|a.prefixes|] == a.prefixes;
    assert r[|a.prefixes| + 1..] == a.suffixes;
    r
  }

  /** `parse_wp`: the stem and the set of every gloss tag recorded. */
  function ParseWp(s: Stemmer, token: string): (r: (string, set<string>))
    ensures r.0 == Analyze(s, token, true).stem
    ensures forall g :: g in r.1 <==>
              g in Analyze(s, token, true).prefixes || g in Analyze(s, token, true).suffixes
  {
    var a := Analyze(s, token, true);
    (a.stem, set g | g in a.prefixes + a.suffixes)
  }

  /** `segment`: the concatenated prefix affixes, the stem and the
      concatenated suffix affixes; always literal affixes, never glosses. */
  function Segment(s: Stemmer, token: string): (r: (string, string, string))
    ensures var a := Analyze(s, token, false);
            r == (Concat(a.prefixes), a.stem, Concat(a.suffixes))
    ensures var t := s.normalize(token);
            var n := Steps(s.rules, s.lexicon, FirstOnly, t);
            var ms := Matched(s.rules[..n], t);
            && r.0 == Concat(PrefixLog(ms, false))
            && r.1 == RewriteEach(s.rules[..n], FirstOnly, t)
            && r.2 == Concat(Reverse(SuffixLog(ms, false)))
  {
    var a := Analyze(s, token, false);
    AnalysisEvidence(s, token, false);
    (Concat(a.prefixes), a.stem, Concat(a.suffixes))
  }

  /** `gloss`: `parse` in gloss mode, so the tags of the matched prefix
      rules in order, the stem, then the suffix tags reversed. */
  function Gloss(s: Stemmer, token: string): (r: seq<string>)
    ensures r == Parse(s, token, true)
    ensures var t := s.normalize(token);
            var n := Steps(s.rules, s.lexicon, FirstOnly, t);
            var ms := Matched(s.rules[..n], t);
            r == PrefixLog(ms, true) + [RewriteEach(s.rules[..n], FirstOnly, t)] + Reverse(SuffixLog(ms, true))
  {
    ParseEvidence(s, token, true);
    Parse(s, token, true)
  }

  /** A token whose normal form is lexical is returned as is by every
      operation, with no evidence. */
  lemma LexicalToken(s: Stemmer, token: string, gloss: bool)
    requires s.normalize(token) in s.lexicon
    ensures Stem(s, token) == s.normalize(token)
    ensures Parse(s, token, gloss) == [s.normalize(token)]
    ensures Segment(s, token) == ("", s.normalize(token), "")
    ensures ParseWp(s, token) == (s.normalize(token), {})
  {
    assert [] + [s.normalize(token)] + [] == [s.normalize(token)];
    var r := ParseWp(s, token);
    assert r.1 == {} by {
      forall g | g in r.1
        ensures false
      {
      }
    }
  }

  /** With no rules, every operation returns the normal form of the token. */
  lemma EmptyRuleTable(s: Stemmer, token: string, gloss: bool)
    requires s.rules == []
    ensures Stem(s, token) == s.normalize(token)
    ensures Parse(s, token, gloss) == [s.normalize(token)]
  {
    assert [] + [s.normalize(token)] + [] == [s.normalize(token)];
  }

  /** The stem is the token after the first `n` rules, all-occurrence
      rewriting, where `n` is the first point the token is lexical (or the
      whole table); at most one rewrite per rule, and the result is lexical
      whenever the loop stopped early. */
  lemma StemCharacterized(s: Stemmer, token: string)
    ensures Stem(s, token)
            == RewriteEach(s.rules[..Steps(s.rules, s.lexicon, Every, s.normalize(token))], Every, s.normalize(token))
    ensures forall j :: 0 <= j < Steps(s.rules, s.lexicon, Every, s.normalize(token)) ==>
              RewriteEach(s.rules[..j], Every, s.normalize(token)) !in s.lexicon
    ensures Steps(s.rules, s.lexicon, Every, s.normalize(token)) < |s.rules| ==> Stem(s, token) in s.lexicon
  {
    RunStopsAtLexicon(s.rules, s.lexicon, Every, s.normalize(token));
  }

  /** The `_parse` result in terms of the rules that matched before the
      loop stopped. */
  lemma AnalysisEvidence(s: Stemmer, token: string, gloss: bool)
    ensures var t := s.normalize(token);
            var n := Steps(s.rules, s.lexicon, FirstOnly, t);
            var ms := Matched(s.rules[..n], t);
            Analyze(s, token, gloss)
            == Analysis(PrefixLog(ms, gloss), RewriteEach(s.rules[..n], FirstOnly, t), Reverse(SuffixLog(ms, gloss)))
  {
    var t := s.normalize(token);
    var a0 := Analysis([], t, []);
    var n := Steps(s.rules, s.lexicon, FirstOnly, t);
    var ms := Matched(s.rules[..n], t);
    AnalyseStopsAtLexicon(s.rules, s.lexicon, gloss, a0);
    EvidenceOrder(s.rules[..n], gloss, a0);
    assert [] + PrefixLog(ms, gloss) == PrefixLog(ms, gloss);
    assert Reverse(SuffixLog(ms, gloss)) + [] == Reverse(SuffixLog(ms, gloss));
  }

  /** `parse` lists the prefix evidence of the applied rules in the order
      they matched, then the stem, then the suffix evidence in reverse
      order of matching. */
  lemma ParseEvidence(s: Stemmer, token: string, gloss: bool)
    ensures var t := s.normalize(token);
            var n := Steps(s.rules, s.lexicon, FirstOnly, t);
            var ms := Matched(s.rules[..n], t);
            Parse(s, token, gloss)
            == PrefixLog(ms, gloss) + [RewriteEach(s.rules[..n], FirstOnly, t)] + Reverse(SuffixLog(ms, gloss))
  {
    AnalysisEvidence(s, token, gloss);
  }

  /** In literal mode `parse` has at most one affix per applied rule. */
  lemma ParseLength(s: Stemmer, token: string)
    ensures |Parse(s, token, false)| <= 1 + Steps(s.rules, s.lexicon, FirstOnly, s.normalize(token))
    ensures |Parse(s, token, false)| <= 1 + |s.rules|
  {
    var t := s.normalize(token);
    var n := Steps(s.rules, s.lexicon, FirstOnly, t);
    ParseEvidence(s, token, false);
    LiteralEvidenceBound(Matched(s.rules[..n], t));
  }

  /** `parse_wp` collects exactly the gloss tags of the rules that recorded
      evidence; repeated tags appear once. */
  lemma GlossSet(s: Stemmer, token: string, g: string)
    ensures var t := s.normalize(token);
            var ms := Matched(s.rules[..Steps(s.rules, s.lexicon, FirstOnly, t)], t);
            g in ParseWp(s, token).1 <==> g in PrefixLog(ms, true) || g in SuffixLog(ms, true)
  {
    var t := s.normalize(token);
    var n := Steps(s.rules, s.lexicon, FirstOnly, t);
    var ms := Matched(s.rules[..n], t);
    AnalysisEvidence(s, token, true);
    ReverseMembers(SuffixLog(ms, true), g);
  }

  /** On a table without `{{ }}` class rules, `stem` and `parse` reach the
      same stem. */
  lemma StemAgreesWithParse(s: Stemmer, token: string, gloss: bool)
    requires forall k :: 0 <= k < |s.rules| ==> s.rules[k].Pos() != Delete
    ensures Stem(s, token) == Analyze(s, token, gloss).stem
  {
    var t := s.normalize(token);
    var a0 := Analysis([], t, []);
    var n := Steps(s.rules, s.lexicon, FirstOnly, t);
    ScopesAgreeOnAnchoredRules(s.rules, s.lexicon, t);
    RunStopsAtLexicon(s.rules, s.lexicon, FirstOnly, t);
    AnalyseStopsAtLexicon(s.rules, s.lexicon, gloss, a0);
    StepEachStem(s.rules[..n], gloss, a0);
  }

  /** A rule that strips an affix: empty replacement, prefix or suffix
      position, and a matched text that records evidence. */
  predicate StripsAffix(r: Rule) {
    r.repl == "" && r.Pos() != Delete && !StartsWithClassMarker(Literal(r.pattern))
  }

  /** The text a literal-mode analysis stands for: affixes and stem. */
  function Spelled(a: Analysis): string {
    Concat(a.prefixes) + a.stem + Concat(a.suffixes)
  }

  lemma StripStepKeepsText(r: Rule, a: Analysis)
    requires StripsAffix(r)
    ensures Spelled(Step(r, false, a)) == Spelled(a)
  {
    if Find(r.pattern, a.stem).Some? {
      var lit := Literal(r.pattern);
      SubFirstAffix(r.pattern, r.repl, a.stem);
      var a' := Step(r, false, a);
      if r.pattern.Initial? {
        var rest := a.stem[|lit|..];
        assert a'.prefixes == a.prefixes + [lit];
        assert a'.stem == rest;
        assert a'.suffixes == a.suffixes;
        ConcatAppend(a.prefixes, [lit]);
        Assoc(Concat(a.prefixes), lit, rest);
        Assoc(Concat(a.prefixes) + lit, rest, Concat(a.suffixes));
        Assoc(Concat(a.prefixes), lit + rest, Concat(a.suffixes));
      } else {
        var k := |a.stem| - |lit|;
        assert a'.prefixes == a.prefixes;
        assert a'.stem == a.stem[..k];
        assert Reverse([lit]) == [lit];
        assert a'.suffixes == [lit] + a.suffixes;
        ConcatAppend([lit], a.suffixes);
        Assoc(Concat(a.prefixes) + a.stem[..k], lit, Concat(a.suffixes));
        Assoc(Concat(a.prefixes), a.stem[..k], lit);
      }
    }
  }

  lemma {:induction false} StripsKeepText(rs: seq<Rule>, a: Analysis)
    requires forall k :: 0 <= k < |rs| ==> StripsAffix(rs[k])
    ensures Spelled(StepEach(rs, false, a)) == Spelled(a)
    decreases |rs|
  {
    if rs != [] {
      StripStepKeepsText(rs[0], a);
      StripsKeepText(rs[1..], Step(rs[0], false, a));
    }
  }

  /** When every rule only strips an affix, `segment` loses nothing: its
      three parts concatenate to the normalized token. */
  lemma SegmentReconstructs(s: Stemmer, token: string)
    requires forall k :: 0 <= k < |s.rules| ==> StripsAffix(s.rules[k])
    ensures var r := Segment(s, token); r.0 + r.1 + r.2 == s.normalize(token)
  {
    var t := s.normalize(token);
    var a0 := Analysis([], t, []);
    var n := Steps(s.rules, s.lexicon, FirstOnly, t);
    AnalyseStopsAtLexicon(s.rules, s.lexicon, false, a0);
    StripsKeepText(s.rules[..n], a0);
    assert Spelled(a0) == t;
  }
}

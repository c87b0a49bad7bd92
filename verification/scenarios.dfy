/** Worked cases of the behaviour the engine promises, each on a small
    concrete rule table with the identity standing in for normalization. */
module Scenarios {
  import opened Wrappers
  import opened Strings
  import opened Patterns
  import opened RuleTable
  import opened Engine
  import opened Analyzer

  // Symbolic steps that the concrete cases below instantiate.

  /** A suffix rule with an empty replacement strips its literal from a
      token ending in it, pushing its evidence at the front. */
  lemma SuffixStep(lit: string, glosses: seq<string>, gloss: bool, p: seq<string>, rest: string, s: seq<string>)
    requires !StartsWithClassMarker(lit)
    ensures Step(Rule(Final(lit), "", glosses), gloss, Analysis(p, rest + lit, s))
            == Analysis(p, rest, Reverse(Evidence(Rule(Final(lit), "", glosses), gloss)) + s)
  {
    var t := rest + lit;
    assert t[|rest|..|rest| + |lit|] == lit;
    assert t[..|rest|] == rest;
    assert p + [] == p;
  }

  /** A prefix rule with an empty replacement strips its literal from a
      token starting with it, appending its evidence at the back. */
  lemma PrefixStep(lit: string, glosses: seq<string>, gloss: bool, p: seq<string>, rest: string, s: seq<string>)
    requires !StartsWithClassMarker(lit)
    ensures Step(Rule(Initial(lit, false), "", glosses), gloss, Analysis(p, lit + rest, s))
            == Analysis(p + Evidence(Rule(Initial(lit, false), "", glosses), gloss), rest, s)
  {
    var t := lit + rest;
    assert t[..|lit|] == lit;
    assert t[|lit|..] == rest;
    assert Reverse<string>([]) + s == s;
  }

  /** The parse loop over a two-rule table that is never cut short. */
  lemma AnalyseTwo(r1: Rule, r2: Rule, lexicon: set<string>, gloss: bool, a: Analysis)
    requires a.stem !in lexicon && Step(r1, gloss, a).stem !in lexicon
    ensures Analyse([r1, r2], lexicon, gloss, a) == Step(r2, gloss, Step(r1, gloss, a))
  {
    var a1 := Step(r1, gloss, a);
    assert [r1, r2][1..] == [r2];
    assert Analyse([r1, r2], lexicon, gloss, a) == Analyse([r2], lexicon, gloss, a1);
    assert [r2][1..] == [];
    assert Analyse([r2], lexicon, gloss, a1) == Analyse([], lexicon, gloss, Step(r2, gloss, a1));
  }

  /** The same loop seen through a stemmer, on a token its normalization
      leaves alone. */
  lemma AnalyzeTwo(s: Stemmer, token: string, gloss: bool)
    requires |s.rules| == 2 && s.normalize(token) == token
    requires token !in s.lexicon && Step(s.rules[0], gloss, Analysis([], token, [])).stem !in s.lexicon
    ensures Analyze(s, token, gloss)
            == Step(s.rules[1], gloss, Step(s.rules[0], gloss, Analysis([], token, [])))
  {
    assert s.rules == [s.rules[0], s.rules[1]];
    AnalyseTwo(s.rules[0], s.rules[1], s.lexicon, gloss, Analysis([], token, []));
  }

  /** A one-rule table with a non-lexical token: `parse` applies the rule
      once. */
  lemma AnalyzeOne(s: Stemmer, token: string, gloss: bool)
    requires |s.rules| == 1 && s.normalize(token) == token && token !in s.lexicon
    ensures Analyze(s, token, gloss) == Step(s.rules[0], gloss, Analysis([], token, []))
  {
    var a := Analysis([], token, []);
    assert Analyse(s.rules, s.lexicon, gloss, a) == Analyse(s.rules[1..], s.lexicon, gloss, Step(s.rules[0], gloss, a));
    assert s.rules[1..] == [];
  }

  /** A one-rule table with a non-lexical token: `stem` rewrites every
      match of the rule. */
  lemma StemOne(s: Stemmer, token: string)
    requires |s.rules| == 1 && s.normalize(token) == token && token !in s.lexicon
    ensures Stem(s, token) == SubAll(s.rules[0].pattern, s.rules[0].repl, token)
  {
    var r := s.rules[0];
    assert Run(s.rules, s.lexicon, Every, token) == Run(s.rules[1..], s.lexicon, Every, Rewrite(r, Every, token));
    assert s.rules[1..] == [];
  }

  /** Two suffix rules, the outer one first: both fire and the inner
      suffix's evidence comes first. */
  lemma SuffixPair(s: Stemmer, stem: string, x: string, gx: seq<string>, y: string, gy: seq<string>, gloss: bool)
    requires !StartsWithClassMarker(x) && !StartsWithClassMarker(y)
    requires s.rules == [Rule(Final(y), "", gy), Rule(Final(x), "", gx)]
    requires s.normalize(stem + x + y) == stem + x + y
    requires stem + x + y !in s.lexicon && stem + x !in s.lexicon
    ensures Analyze(s, stem + x + y, gloss)
            == Analysis([], stem, Reverse(Evidence(Rule(Final(x), "", gx), gloss)) + Reverse(Evidence(Rule(Final(y), "", gy), gloss)))
  {
    var ey := Reverse(Evidence(Rule(Final(y), "", gy), gloss));
    SuffixStep(y, gy, gloss, [], stem + x, []);
    assert ey + [] == ey;
    SuffixStep(x, gx, gloss, [], stem, ey);
    AnalyzeTwo(s, stem + x + y, gloss);
  }

  /** A prefix rule then a suffix rule: prefix evidence in rule order,
      suffix evidence reversed. */
  lemma PrefixThenSuffix(s: Stemmer, p: string, gp: seq<string>, stem: string, x: string, gx: seq<string>, gloss: bool)
    requires !StartsWithClassMarker(p) && !StartsWithClassMarker(x)
    requires s.rules == [Rule(Initial(p, false), "", gp), Rule(Final(x), "", gx)]
    requires s.normalize(p + (stem + x)) == p + (stem + x)
    requires p + (stem + x) !in s.lexicon && stem + x !in s.lexicon
    ensures Analyze(s, p + (stem + x), gloss)
            == Analysis(Evidence(Rule(Initial(p, false), "", gp), gloss), stem, Reverse(Evidence(Rule(Final(x), "", gx), gloss)))
  {
    PrefixStep(p, gp, gloss, [], stem + x, []);
    var ep := Evidence(Rule(Initial(p, false), "", gp), gloss);
    assert [] + ep == ep;
    SuffixStep(x, gx, gloss, ep, stem, []);
    var ex := Reverse(Evidence(Rule(Final(x), "", gx), gloss));
    assert ex + [] == ex;
    AnalyzeTwo(s, p + (stem + x), gloss);
  }

  lemma NoMarkers()
    ensures !StartsWithClassMarker("s") && !StartsWithClassMarker("ed")
    ensures !StartsWithClassMarker("re")
  {
  }

  lemma ReverseSingle(x: string)
    ensures Reverse([x]) == [x]
  {
  }

  /** Two prefix rules for the same affix: the first one makes the token
      lexical, so the second is never applied. */
  lemma OrderDecides()
    ensures var s := Stemmer(t => t, {"happy"},
                             [Rule(Initial("un", false), "", ["neg"]),
                              Rule(Initial("un", false), "X", ["other"])]);
            && Stem(s, "unhappy") == "happy"
            && Steps(s.rules, s.lexicon, Every, "unhappy") == 1
  {
  }

  function Walk(): Stemmer {
    Stemmer(t => t, {"walk"}, [Rule(Final("s"), "", ["PL"]), Rule(Final("ed"), "", ["PST"])])
  }

  /** Both suffix rules of `Walk` fire on "walkeds", in table order. */
  lemma WalkSteps(gloss: bool)
    ensures Analyze(Walk(), "walkeds", gloss)
            == Analysis([], "walk", if gloss then ["PST", "PL"] else ["ed", "s"])
  {
    assert "walk" + "ed" + "s" == "walkeds";
    assert Reverse(Evidence(Rule(Final("ed"), "", ["PST"]), gloss)) + Reverse(Evidence(Rule(Final("s"), "", ["PL"]), gloss))
           == if gloss then ["PST", "PL"] else ["ed", "s"] by {
      ReverseSingle(if gloss then "PST" else "ed");
      ReverseSingle(if gloss then "PL" else "s");
    }
    NoMarkers();
    SuffixPair(Walk(), "walk", "ed", ["PST"], "s", ["PL"], gloss);
  }

  /** Two suffixes stripped in turn: the one matched last, nearest the stem,
      is listed first. */
  lemma SuffixNesting()
    ensures Parse(Walk(), "walkeds", false) == ["walk", "ed", "s"]
  {
    WalkSteps(false);
  }

  /** In gloss mode the same nesting lists the tags of the later rule
      first. */
  lemma SuffixNestingGlosses()
    ensures Gloss(Walk(), "walkeds") == ["walk", "PST", "PL"]
  {
    WalkSteps(true);
  }

  /** `segment` concatenates the literal suffixes in the same order. */
  lemma SuffixNestingSegments()
    ensures Segment(Walk(), "walkeds") == ("", "walk", "eds")
  {
    WalkSteps(false);
    assert Concat(["ed", "s"]) == "eds";
  }

  /** A prefix and a suffix rule with two tags each: prefix tags keep their
      order, suffix tags come out reversed. */
  function Rewalk(): Stemmer {
    Stemmer(t => t, {"walk"},
            [Rule(Initial("re", false), "", ["AGAIN", "ITER"]),
             Rule(Final("s"), "", ["3", "SG"])])
  }

  lemma GlossTagOrder()
    ensures Gloss(Rewalk(), "rewalks") == ["AGAIN", "ITER", "walk", "SG", "3"]
  {
    RewalkParse();
  }

  lemma RewalkParse()
    ensures Parse(Rewalk(), "rewalks", true) == ["AGAIN", "ITER", "walk", "SG", "3"]
  {
    RewalkAnalysis();
    assert ["AGAIN", "ITER"] + ["walk"] + ["SG", "3"] == ["AGAIN", "ITER", "walk", "SG", "3"];
  }

  lemma RewalkAnalysis()
    ensures Analyze(Rewalk(), "rewalks", true) == Analysis(["AGAIN", "ITER"], "walk", ["SG", "3"])
  {
    assert Reverse(Evidence(Rule(Final("s"), "", ["3", "SG"]), true)) == ["SG", "3"] by {
      assert Reverse(["3", "SG"]) == ["SG", "3"];
    }
    assert "re" + ("walk" + "s") == "rewalks";
    NoMarkers();
    PrefixThenSuffix(Rewalk(), "re", ["AGAIN", "ITER"], "walk", "s", ["3", "SG"], true);
  }

  /** Two rules tagged alike: `parse_wp` reports the tag once. */
  function Cats(): Stemmer {
    Stemmer(t => t, {"cat"}, [Rule(Final("s"), "", ["PL"]), Rule(Final("s"), "", ["PL"])])
  }

  lemma CatsAnalysis()
    ensures Analyze(Cats(), "catss", true) == Analysis([], "cat", ["PL", "PL"])
  {
    assert Reverse(Evidence(Rule(Final("s"), "", ["PL"]), true)) + Reverse(Evidence(Rule(Final("s"), "", ["PL"]), true)) == ["PL", "PL"] by {
      ReverseSingle("PL");
    }
    assert "cat" + "s" + "s" == "catss";
    NoMarkers();
    SuffixPair(Cats(), "cat", "s", ["PL"], "s", ["PL"], true);
  }

  lemma GlossSetCollapses()
    ensures ParseWp(Cats(), "catss") == ("cat", {"PL"})
  {
    CatsAnalysis();
    var r := ParseWp(Cats(), "catss");
    assert r.1 == {"PL"} by {
      assert forall g :: g in r.1 <==> g in ["PL", "PL"];
    }
  }

  /** Membership is not checked after the last rule: the stem may be
      outside the lexicon. */
  lemma ResultMayBeNonLexical()
    ensures var s := Stemmer(t => t, {"dog"}, [Rule(Final("s"), "", ["PL"])]);
            Stem(s, "cats") == "cat" && "cat" !in s.lexicon
  {
    var t := "cats";
    assert t[3..4] == "s";
    assert t[..3] == "cat";
  }

  /** A class rule `{{X}}` occurring twice: `stem` removes both
      occurrences, `parse` only the first, and neither records evidence. */
  function Classes(): Stemmer {
    Stemmer(t => t, {}, [Rule(Marker("X"), "", ["CL"])])
  }

  /** The leftmost occurrence of a literal is found when the text before it
      holds none. */
  lemma IndexAfterFree(lit: string, x: string, y: string)
    requires |lit| > 0 && Free(lit, x + lit[..|lit| - 1])
    ensures IndexOf(lit, x + lit + y) == Some(|x|)
  {
    var t := x + lit + y;
    var u := x + lit[..|lit| - 1];
    assert t[|x|..|x| + |lit|] == lit;
    assert OccursAt(lit, t, |x|);
    assert forall k :: 0 <= k < |u| ==> u[k] == t[k];
    forall j: nat | j < |x|
      ensures OccursAt(lit, t, j) == OccursAt(lit, u, j)
    {
      assert j + |lit| <= |u|;
      assert t[j..j + |lit|] == u[j..j + |lit|];
    }
  }

  /** Replacing every occurrence, one occurrence at a time. */
  lemma ReplaceAllStep(lit: string, repl: string, x: string, y: string)
    requires |lit| > 0 && Free(lit, x + lit[..|lit| - 1])
    ensures ReplaceAll(lit, repl, x + lit + y) == x + repl + ReplaceAll(lit, repl, y)
  {
    var t := x + lit + y;
    IndexAfterFree(lit, x, y);
    assert t[..|x|] == x;
    assert t[|x| + |lit|..] == y;
  }

  /** A class rule deletes the first occurrence of its marker and records
      nothing. */
  lemma MarkerStep(name: string, glosses: seq<string>, gloss: bool, x: string, y: string, a: Analysis)
    requires |name| > 0 && AllUpper(name)
    requires Free("{{" + name + "}}", x + ("{{" + name + "}}")[..|name| + 3])
    requires a.stem == x + ("{{" + name + "}}") + y
    ensures Step(Rule(Marker(name), "", glosses), gloss, a) == Analysis(a.prefixes, x + y, a.suffixes)
  {
    var lit := "{{" + name + "}}";
    var t := a.stem;
    IndexAfterFree(lit, x, y);
    MarkerIsClassMarker(name, "");
    assert lit + "" == lit;
    assert t[..|x|] == x;
    assert t[|x| + |lit|..] == y;
  }

  /** A one-letter text followed by all but the last character of the
      marker does not contain the marker. */
  lemma MarkerAbsent(c: char)
    requires c != '{'
    ensures Free("{{X}}", [c] + "{{X}")
  {
    var u := [c] + "{{X}";
    forall j: nat | j <= 5
      ensures !OccursAt("{{X}}", u, j)
    {
      assert u[0] != '{';
    }
  }

  lemma MarkerTail()
    ensures ReplaceAll("{{X}}", "", "b{{X}}") == "b"
  {
    var lit := "{{X}}";
    assert lit[..4] == "{{X}";
    assert "b" + lit + "" == "b{{X}}";
    assert ReplaceAll(lit, "", "") == "" by {
      assert forall j: nat :: j <= 0 ==> !OccursAt(lit, "", j);
    }
    MarkerAbsent('b');
    ReplaceAllStep(lit, "", "b", "");
  }

  lemma MarkerWhole()
    ensures ReplaceAll("{{X}}", "", "a{{X}}b{{X}}") == "ab"
  {
    var lit := "{{X}}";
    assert lit[..4] == "{{X}";
    assert "a" + lit + "b{{X}}" == "a{{X}}b{{X}}";
    MarkerTail();
    MarkerAbsent('a');
    ReplaceAllStep(lit, "", "a", "b{{X}}");
  }

  lemma EveryOccurrenceRemoved()
    ensures Stem(Classes(), "a{{X}}b{{X}}") == "ab"
  {
    assert SubAll(Marker("X"), "", "a{{X}}b{{X}}") == "ab" by {
      assert Literal(Marker("X")) == "{{X}}";
      MarkerWhole();
    }
    StemOne(Classes(), "a{{X}}b{{X}}");
  }

  lemma FirstOccurrenceRemoved()
    ensures Analyze(Classes(), "a{{X}}b{{X}}", false) == Analysis([], "ab{{X}}", [])
  {
    var lit := "{{X}}";
    assert lit[..4] == "{{X}";
    assert "{{" + "X" + "}}" == lit;
    assert "a" + lit + "b{{X}}" == "a{{X}}b{{X}}";
    assert "a" + "b{{X}}" == "ab{{X}}";
    assert AllUpper("X");
    var a := Analysis([], "a{{X}}b{{X}}", []);
    assert Step(Rule(Marker("X"), "", ["CL"]), false, a) == Analysis([], "ab{{X}}", []) by {
      MarkerAbsent('a');
      MarkerStep("X", ["CL"], false, "a", "b{{X}}", a);
    }
    AnalyzeOne(Classes(), "a{{X}}b{{X}}", false);
  }

  /** The rule table loader rejects a pattern with no anchor. */
  lemma UnanchoredRuleRejected()
    ensures Load([["pattern", "replacement", "glosses"], ["happy", "", "x"]], t => t)
            == Failure(MalformedRule(1, "happy"))
  {
    assert !Wrapped("happy");
  }

  /** A pattern anchored at both ends is a prefix pattern. */
  lemma BothAnchorsMeanPrefix()
    ensures Classify("^ab$") == Success(Initial("ab", true))
    ensures Rule(Initial("ab", true), "", []).Pos() == Prefix
  {
    assert !Wrapped("^ab$");
    assert "^ab$"[1..3] == "ab";
  }

  /** An empty gloss column yields one empty tag, never none. */
  lemma EmptyGlossColumn()
    ensures GlossTags("") == [""]
    ensures GlossTags("CL.GEN") == ["CL", "GEN"]
  {
    GlossTagsOfJoin(["CL", "GEN"]);
    assert Join(["CL", "GEN"], ".") == "CL.GEN";
  }
}

/** The rewrite loops of `stem` (mstem/mstem.py:81-95) and `_parse`
    (mstem/mstem.py:97-118). Both scan the rule table once, in order, and
    stop before a rule as soon as the working token is in the lexicon. */
module Engine {
  import opened Strings
  import opened Patterns
  import opened RuleTable

  /** How many occurrences one rule rewrites: `stem` rewrites all of them,
      `_parse` only the first. */
  datatype Scope = FirstOnly | Every

  /** The working token after applying one rule. */
  function Rewrite(r: Rule, scope: Scope, t: string): string {
    match scope
    case FirstOnly => SubFirst(r.pattern, r.repl, t)
    case Every => SubAll(r.pattern, r.repl, t)
  }

  /** Apply every rule of `rs` in order, with no lexicon check. */
  function RewriteEach(rs: seq<Rule>, scope: Scope, t: string): string
    decreases |rs|
  {
    if rs == [] then t else RewriteEach(rs[1..], scope, Rewrite(rs[0], scope, t))
  }

  /** The number of rules the loop applies before it stops. */
  function Steps(rules: seq<Rule>, lexicon: set<string>, scope: Scope, t: string): (n: nat)
    ensures n <= |rules|
    ensures t in lexicon ==> n == 0
    decreases |rules|
  {
    if rules == [] || t in lexicon then 0
    else 1 + Steps(rules[1..], lexicon, scope, Rewrite(rules[0], scope, t))
  }

  /** The token loop: before each rule, stop if the token is lexical;
      otherwise rewrite it with the rule. Membership is not checked again
      after the last rule. */
  function Run(rules: seq<Rule>, lexicon: set<string>, scope: Scope, t: string): string
    decreases |rules|
  {
    if rules == [] || t in lexicon then t
    else Run(rules[1..], lexicon, scope, Rewrite(rules[0], scope, t))
  }

  /** The loop applies exactly the first `n` rules, where `n` is the first
      point at which the token is lexical, or the whole table if it never
      is; no rule after that point is applied. */
  lemma {:induction false} RunStopsAtLexicon(rules: seq<Rule>, lexicon: set<string>, scope: Scope, t: string)
    ensures Run(rules, lexicon, scope, t) == RewriteEach(rules[..Steps(rules, lexicon, scope, t)], scope, t)
    ensures forall j :: 0 <= j < Steps(rules, lexicon, scope, t) ==> RewriteEach(rules[..j], scope, t) !in lexicon
    ensures Steps(rules, lexicon, scope, t) < |rules| ==> Run(rules, lexicon, scope, t) in lexicon
    decreases |rules|
  {
    if rules == [] || t in lexicon {
      assert rules[..0] == [];
    } else {
      var t' := Rewrite(rules[0], scope, t);
      var n := Steps(rules, lexicon, scope, t);
      assert n == 1 + Steps(rules[1..], lexicon, scope, t');
      assert Run(rules, lexicon, scope, t) == Run(rules[1..], lexicon, scope, t');
      RunStopsAtLexicon(rules[1..], lexicon, scope, t');
      RewriteEachCons(rules, n, scope, t);
      forall j | 0 <= j < n
        ensures RewriteEach(rules[..j], scope, t) !in lexicon
      {
        if j > 0 {
          RewriteEachCons(rules, j, scope, t);
        } else {
          assert rules[..j] == [];
        }
      }
    }
  }

  /** Applying the first `k` rules is applying the first one, then the
      next `k - 1`. */
  lemma RewriteEachCons(rules: seq<Rule>, k: nat, scope: Scope, t: string)
    requires 1 <= k <= |rules|
    ensures RewriteEach(rules[..k], scope, t)
            == RewriteEach(rules[1..][..k - 1], scope, Rewrite(rules[0], scope, t))
  {
    assert rules[..k][1..] == rules[1..][..k - 1];
  }

  /** With an empty lexicon the loop never stops early. */
  lemma {:induction false} EmptyLexiconAppliesAll(rules: seq<Rule>, scope: Scope, t: string)
    ensures Steps(rules, {}, scope, t) == |rules|
    decreases |rules|
  {
    if rules != [] {
      EmptyLexiconAppliesAll(rules[1..], scope, Rewrite(rules[0], scope, t));
    }
  }

  /** On a table without `{{ }}` class rules both scopes rewrite alike,
      since an anchored pattern matches in one place at most. */
  lemma {:induction false} ScopesAgreeOnAnchoredRules(rules: seq<Rule>, lexicon: set<string>, t: string)
    requires forall k :: 0 <= k < |rules| ==> rules[k].Pos() != Delete
    ensures Run(rules, lexicon, Every, t) == Run(rules, lexicon, FirstOnly, t)
    decreases |rules|
  {
    if rules != [] && t !in lexicon {
      assert Rewrite(rules[0], Every, t) == Rewrite(rules[0], FirstOnly, t);
      ScopesAgreeOnAnchoredRules(rules[1..], lexicon, Rewrite(rules[0], FirstOnly, t));
    }
  }

  /** The `_parse` state: prefix evidence, working token, suffix evidence. */
  datatype Analysis = Analysis(prefixes: seq<string>, stem: string, suffixes: seq<string>)

  /** What a matching rule records: nothing when its matched text begins
      with a class marker, else its gloss tags in gloss mode or the
      matched text itself. */
  function Evidence(r: Rule, gloss: bool): seq<string> {
    if StartsWithClassMarker(Literal(r.pattern)) then []
    else if gloss then r.glosses
    else [Literal(r.pattern)]
  }

  function PrefixPart(r: Rule, gloss: bool): seq<string> {
    if r.Pos() == Prefix then Evidence(r, gloss) else []
  }

  function SuffixPart(r: Rule, gloss: bool): seq<string> {
    if r.Pos() == Suffix then Evidence(r, gloss) else []
  }

  /** One iteration of `_parse` after the lexicon check: on a match, record
      the evidence (prefix evidence at the back, suffix evidence pushed item
      by item at the front) and rewrite the first occurrence. */
  function Step(r: Rule, gloss: bool, a: Analysis): (a': Analysis)
    ensures Find(r.pattern, a.stem).None? ==> a' == a
    ensures Find(r.pattern, a.stem).Some? ==> a'.stem == SubFirst(r.pattern, r.repl, a.stem)
    ensures r.Pos() == Delete || StartsWithClassMarker(Literal(r.pattern)) ==>
              a'.prefixes == a.prefixes && a'.suffixes == a.suffixes
    ensures r.Pos() != Prefix ==> a'.prefixes == a.prefixes
    ensures r.Pos() != Suffix ==> a'.suffixes == a.suffixes
  {
    if Find(r.pattern, a.stem).None? then a
    else Analysis(a.prefixes + PrefixPart(r, gloss),
                  SubFirst(r.pattern, r.repl, a.stem),
                  Reverse(SuffixPart(r, gloss)) + a.suffixes)
  }

  /** The `_parse` loop. */
  function Analyse(rules: seq<Rule>, lexicon: set<string>, gloss: bool, a: Analysis): Analysis
    decreases |rules|
  {
    if rules == [] || a.stem in lexicon then a
    else Analyse(rules[1..], lexicon, gloss, Step(rules[0], gloss, a))
  }

  /** Apply `Step` for every rule of `rs`, with no lexicon check. */
  function StepEach(rs: seq<Rule>, gloss: bool, a: Analysis): Analysis
    decreases |rs|
  {
    if rs == [] then a else StepEach(rs[1..], gloss, Step(rs[0], gloss, a))
  }

  /** The rules of `rs` whose pattern matches when they are applied in order
      with first-occurrence rewriting, starting from `t`. */
  function Matched(rs: seq<Rule>, t: string): (ms: seq<Rule>)
    ensures |ms| <= |rs|
    decreases |rs|
  {
    if rs == [] then []
    else
      Head(rs[0], t) + Matched(rs[1..], SubFirst(rs[0].pattern, rs[0].repl, t))
  }

  /** Prefix evidence of the rules `ms`, in the order given. */
  function PrefixLog(ms: seq<Rule>, gloss: bool): seq<string>
    decreases |ms|
  {
    if ms == [] then [] else PrefixPart(ms[0], gloss) + PrefixLog(ms[1..], gloss)
  }

  /** Suffix evidence of the rules `ms`, in the order given. */
  function SuffixLog(ms: seq<Rule>, gloss: bool): seq<string>
    decreases |ms|
  {
    if ms == [] then [] else SuffixPart(ms[0], gloss) + SuffixLog(ms[1..], gloss)
  }

  /** The `_parse` loop applies exactly the rules `stem` would apply with
      first-occurrence rewriting, and stops at the same point. */
  lemma {:induction false} AnalyseStopsAtLexicon(rules: seq<Rule>, lexicon: set<string>, gloss: bool, a: Analysis)
    ensures var n := Steps(rules, lexicon, FirstOnly, a.stem);
            Analyse(rules, lexicon, gloss, a) == StepEach(rules[..n], gloss, a)
    decreases |rules|
  {
    if rules == [] || a.stem in lexicon {
      assert rules[..0] == [];
    } else {
      var a' := Step(rules[0], gloss, a);
      assert a'.stem == Rewrite(rules[0], FirstOnly, a.stem);
      var n := Steps(rules, lexicon, FirstOnly, a.stem);
      AnalyseStopsAtLexicon(rules[1..], lexicon, gloss, a');
      assert rules[..n][1..] == rules[1..][..n - 1];
    }
  }

  /** The rule itself if it matches `t`, else nothing. */
  function Head(r: Rule, t: string): seq<Rule> {
    if Find(r.pattern, t).Some? then [r] else []
  }

  /** One step splits the matched list into the step's own rule and the
      rules matched after it. */
  lemma MatchedUnfold(rs: seq<Rule>, t: string)
    requires rs != []
    ensures Matched(rs, t) == Head(rs[0], t) + Matched(rs[1..], Rewrite(rs[0], FirstOnly, t))
  {
  }

  /** What one step adds to the evidence, in terms of the logs of the
      matched list of that one rule. */
  lemma StepEvidence(r: Rule, gloss: bool, a: Analysis)
    ensures Step(r, gloss, a).prefixes == a.prefixes + PrefixLog(Head(r, a.stem), gloss)
    ensures Step(r, gloss, a).suffixes == Reverse(SuffixLog(Head(r, a.stem), gloss)) + a.suffixes
    ensures Step(r, gloss, a).stem == Rewrite(r, FirstOnly, a.stem)
  {
    if Find(r.pattern, a.stem).Some? {
      assert [r][1..] == [];
      assert PrefixLog([r], gloss) == PrefixPart(r, gloss);
      assert SuffixLog([r], gloss) == SuffixPart(r, gloss);
    } else {
      assert a.prefixes + [] == a.prefixes;
      assert [] + a.suffixes == a.suffixes;
    }
  }

  lemma {:induction false} StepEachStem(rs: seq<Rule>, gloss: bool, a: Analysis)
    ensures StepEach(rs, gloss, a).stem == RewriteEach(rs, FirstOnly, a.stem)
    decreases |rs|
  {
    if rs != [] {
      StepEachStem(rs[1..], gloss, Step(rs[0], gloss, a));
    }
  }

  lemma {:induction false} PrefixLogAppend(xs: seq<Rule>, ys: seq<Rule>, gloss: bool)
    ensures PrefixLog(xs + ys, gloss) == PrefixLog(xs, gloss) + PrefixLog(ys, gloss)
    decreases |xs|
  {
    if xs == [] {
      assert xs + ys == ys;
    } else {
      assert (xs + ys)[1..] == xs[1..] + ys;
      PrefixLogAppend(xs[1..], ys, gloss);
    }
  }

  lemma {:induction false} SuffixLogAppend(xs: seq<Rule>, ys: seq<Rule>, gloss: bool)
    ensures SuffixLog(xs + ys, gloss) == SuffixLog(xs, gloss) + SuffixLog(ys, gloss)
    decreases |xs|
  {
    if xs == [] {
      assert xs + ys == ys;
    } else {
      assert (xs + ys)[1..] == xs[1..] + ys;
      SuffixLogAppend(xs[1..], ys, gloss);
    }
  }

  lemma {:induction false} StepEachPrefixes(rs: seq<Rule>, gloss: bool, a: Analysis)
    ensures StepEach(rs, gloss, a).prefixes == a.prefixes + PrefixLog(Matched(rs, a.stem), gloss)
    decreases |rs|
  {
    if rs == [] {
      assert a.prefixes + [] == a.prefixes;
    } else {
      var a' := Step(rs[0], gloss, a);
      var head, rest := Head(rs[0], a.stem), Matched(rs[1..], a'.stem);
      StepEachPrefixes(rs[1..], gloss, a');
      StepEvidence(rs[0], gloss, a);
      MatchedUnfold(rs, a.stem);
      PrefixLogAppend(head, rest, gloss);
      Assoc(a.prefixes, PrefixLog(head, gloss), PrefixLog(rest, gloss));
    }
  }

  lemma {:induction false} StepEachSuffixes(rs: seq<Rule>, gloss: bool, a: Analysis)
    ensures StepEach(rs, gloss, a).suffixes == Reverse(SuffixLog(Matched(rs, a.stem), gloss)) + a.suffixes
    decreases |rs|
  {
    if rs == [] {
      assert [] + a.suffixes == a.suffixes;
    } else {
      var a' := Step(rs[0], gloss, a);
      var head, rest := Head(rs[0], a.stem), Matched(rs[1..], a'.stem);
      StepEachSuffixes(rs[1..], gloss, a');
      StepEvidence(rs[0], gloss, a);
      MatchedUnfold(rs, a.stem);
      SuffixLogAppend(head, rest, gloss);
      ReverseConcat(SuffixLog(head, gloss), SuffixLog(rest, gloss));
      Assoc(Reverse(SuffixLog(rest, gloss)), Reverse(SuffixLog(head, gloss)), a.suffixes);
    }
  }

  /** Evidence order: prefix evidence is appended in the order the rules
      matched; suffix evidence ends up in exactly the reverse order (in
      gloss mode, each rule's own tags reversed too); the token is rewritten
      as by first-occurrence rewriting alone. */
  lemma EvidenceOrder(rs: seq<Rule>, gloss: bool, a: Analysis)
    ensures var ms := Matched(rs, a.stem);
            StepEach(rs, gloss, a)
            == Analysis(a.prefixes + PrefixLog(ms, gloss),
                        RewriteEach(rs, FirstOnly, a.stem),
                        Reverse(SuffixLog(ms, gloss)) + a.suffixes)
  {
    StepEachStem(rs, gloss, a);
    StepEachPrefixes(rs, gloss, a);
    StepEachSuffixes(rs, gloss, a);
  }

  /** In literal mode every matching rule records at most one affix, so the
      evidence never outnumbers the rules applied. */
  lemma {:induction false} LiteralEvidenceBound(ms: seq<Rule>)
    ensures |PrefixLog(ms, false)| + |SuffixLog(ms, false)| <= |ms|
    decreases |ms|
  {
    if ms != [] {
      LiteralEvidenceBound(ms[1..]);
    }
  }

  /** The `_parse` loop as written: two deques and a working token, one
      pass over the rules. */
  method AnalyseLoop(rules: seq<Rule>, lexicon: set<string>, gloss: bool, token: string) returns (a: Analysis)
    ensures a == Analyse(rules, lexicon, gloss, Analysis([], token, []))
  {
    var prefixes: seq<string>, suffixes: seq<string>, t := [], [], token;
    var i := 0;
    while i < |rules|
      invariant 0 <= i <= |rules|
      invariant Analyse(rules[i..], lexicon, gloss, Analysis(prefixes, t, suffixes))
                == Analyse(rules, lexicon, gloss, Analysis([], token, []))
    {
      if t in lexicon {
        break;
      }
      var r := rules[i];
      ghost var before := Analysis(prefixes, t, suffixes);
      assert rules[i..][1..] == rules[i + 1..];
      if Find(r.pattern, t).Some? {
        var m := Literal(r.pattern);
        if !StartsWithClassMarker(m) {
          if gloss {
            if r.Pos() == Suffix {
              suffixes := Reverse(r.glosses) + suffixes;
            } else if r.Pos() == Prefix {
              prefixes := prefixes + r.glosses;
            }
          } else {
            if r.Pos() == Suffix {
              assert Reverse([m]) == [m];
              suffixes := [m] + suffixes;
            } else if r.Pos() == Prefix {
              prefixes := prefixes + [m];
            }
          }
        }
        t := SubFirst(r.pattern, r.repl, t);
      }
      assert Analysis(prefixes, t, suffixes) == Step(r, gloss, before);
      i := i + 1;
    }
    a := Analysis(prefixes, t, suffixes);
  }

  /** The `stem` loop as written: one pass, all-occurrence rewriting. */
  method StemLoop(rules: seq<Rule>, lexicon: set<string>, token: string) returns (t: string)
    ensures t == Run(rules, lexicon, Every, token)
  {
    t := token;
    var i := 0;
    while i < |rules|
      invariant 0 <= i <= |rules|
      invariant Run(rules[i..], lexicon, Every, t) == Run(rules, lexicon, Every, token)
    {
      if t in lexicon {
        break;
      }
      assert rules[i..][1..] == rules[i + 1..];
      t := SubAll(rules[i].pattern, rules[i].repl, t);
      i := i + 1;
    }
  }
}

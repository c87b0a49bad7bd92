# mstem in Dafny

A model of the `Stemmer` class of mstem (`mstem/mstem.py`), a rule-based
stemmer and morphological parser. A stemmer holds a lexicon of known
forms and an ordered table of rewrite rules. Each rule is a pattern, a
replacement and a dotted list of gloss tags. A rule's position is decided
by its pattern when the table is loaded:

- `{{NAME}}` is a deletion (class) rule;
- `^…` is a prefix rule;
- `…$` is a suffix rule;
- any other pattern is refused.

A token is normalized and then rewritten rule by rule, in table order.
Before each rule the loop stops if the token is in the lexicon.

- `stem` rewrites every occurrence.
- `_parse` rewrites the first occurrence and records evidence for each
  rule that matched. Prefix evidence is appended. Suffix evidence is
  pushed at the front. In literal mode the evidence is the matched affix;
  in gloss mode it is the rule's tags.
- The shapers `parse`, `parse_wp`, `segment` and `gloss` rearrange that
  evidence.

Modules:

- `Wrappers`: `Option` and `Result`.
- `Strings`: literal search, Python-style `split` and `join`, and sequence
  reversal (the deque's `extendleft`).
- `Patterns`: the fragment of the pattern language this model covers,
  and its classification. It also covers `search`, `sub` with a count of 1,
  `sub` without a count, and the class-marker test `\{\{[A-Z]+\}\}`.
- `RuleTable`: compiling a table of records into rules, with every error
  the loader can raise.
- `Engine`: the two rule loops as functions, and the loops as written as
  methods. It proves the stopping point and the order of evidence.
- `Analyzer`: the `Stemmer` value and its public operations.
- `Scenarios`: worked cases on small concrete tables. They show:
  - rule order decides the result;
  - suffix nesting;
  - gloss-tag order;
  - tag deduplication in `parse_wp`;
  - class markers under both rewriting modes;
  - loader rejection.

How the Python pieces are modelled:

- **Regular expressions.** A rule pattern is a literal text with anchors.
  `^lit`, `^lit$`, `lit$` and `{{NAME}}` are the forms this model covers.
  `search` finds the leftmost place where the literal occurs and the
  anchors hold. `$` means the end of the text.
- **NFD normalization.** It is the field `normalize` of the stemmer. It is
  applied where the source applies it: to the token, and to the pattern
  and replacement columns.
- **The lexicon.** It is taken as the set of first columns the lexicon
  files yield. It is **not** normalized: `_read_lex` adds the raw text of
  each entry (mstem/mstem.py:42-44), so a lexicon entry in a composed form
  never matches a normalized token.

## Model

| member | source | states |
|---|---|---|
| Patterns.Classify | mstem/mstem.py:68-76 | Classification order. A `{{…}}` pattern is a class rule. An empty pattern fails for lack of a first character. A leading `^` makes a prefix pattern, even when it also ends in `$`. A trailing `$` makes a suffix pattern. Anything else is refused. A classified pattern's written form is the input. |
| Patterns.ClassifyRender | mstem/mstem.py:68-77 | Round trip: every canonical pattern is classified back to itself from its written form. |
| Patterns.ClassifyRenderInitial | mstem/mstem.py:70-71 | A canonical prefix pattern, anchored at one end or both, reads back as the same prefix pattern. |
| Patterns.ClassifyRenderFinal | mstem/mstem.py:72-73 | A canonical suffix pattern reads back as the same suffix pattern. |
| Patterns.ClassifyRenderMarker | mstem/mstem.py:68-69 | A `{{NAME}}` pattern reads back as the same class rule. |
| Patterns.Find | mstem/mstem.py:104-105 | `search` returns the leftmost index at which the pattern matches with its anchors. It returns nothing exactly when there is no match anywhere. |
| Strings.IndexOf | mstem/mstem.py:104-105 | The leftmost occurrence of a literal. It is absent exactly when the text contains no occurrence. |
| Patterns.SubFirst | mstem/mstem.py:117 | With no match the token is unchanged. Otherwise the text before the match is kept, the replacement follows, and the text after the match is kept. |
| Patterns.SubFirstAffix | mstem/mstem.py:117 | A prefix rule that matches replaces the literal at the front and keeps the rest. A suffix rule replaces the literal at the end and keeps the rest. |
| Patterns.ReplaceAll | mstem/mstem.py:94 | Replacing every occurrence equals splitting on the literal and joining with the replacement. A text without the literal is unchanged. |
| Patterns.SubAll | mstem/mstem.py:94 | Without a match the token is unchanged. A class rule replaces every occurrence of its marker: the result is the token split on the marker and joined with the replacement. For an anchored pattern, replacing every occurrence equals replacing the first. |
| Patterns.AnchoredFirstMatchIsOnly | mstem/mstem.py:94 | An anchored pattern that matches has no match other than its first, so `sub` without a count makes one replacement. |
| Patterns.MarkerIsClassMarker | mstem/mstem.py:35 | A text that opens with `{{NAME}}`, for a non-empty upper-case name, starts with a class marker. |
| Patterns.ClassMarkerName | mstem/mstem.py:35 | Converse: a text that starts with a class marker opens with `{{NAME}}` for a non-empty upper-case name. |
| RuleTable.GlossTagsFaithful | mstem/mstem.py:78 | The gloss column always yields at least one tag. No tag contains `.`. Joining the tags with `.` restores the column. |
| RuleTable.GlossTagsOfJoin | mstem/mstem.py:78 | Inverse: tags free of `.` are recovered exactly from their joined column. |
| RuleTable.CompileRow | mstem/mstem.py:66-78 | A record compiles if and only if it has three fields and its normalized pattern classifies. The rule holds the classified pattern, the normalized replacement and the split tags. Each failure names its kind and the record's row. |
| RuleTable.LoadFrom | mstem/mstem.py:64-79 | Records compile in order, one rule per record, if and only if every record is good. Otherwise the error is that of the first bad record, and all records before it are good. |
| RuleTable.Load | mstem/mstem.py:60-79 | An empty table fails for its missing header. Otherwise the header is skipped. Loading succeeds if and only if every record is good. Rule j is compiled from record j+1. A failure reports the first bad record. |
| Analyzer.New | mstem/mstem.py:33-34 | Construction succeeds exactly when the rule table loads. A built stemmer keeps the given lexicon and normalization, and rule j is the one compiled from record j+1. A failure carries the loader's error, and happens only on an empty table or a bad record. |
| Engine.Steps | mstem/mstem.py:91-93 | The loop applies at most one rule per table entry. A lexical token applies none. |
| Engine.RunStopsAtLexicon | mstem/mstem.py:91-94 | The loop result is the token after exactly the first n rules. No intermediate token before n is lexical. If the loop stopped before the end of the table, the result is lexical. |
| Engine.EmptyLexiconAppliesAll | mstem/mstem.py:91-94 | With an empty lexicon every rule is applied. |
| Engine.ScopesAgreeOnAnchoredRules | mstem/mstem.py:91-94 | On a table without class rules, rewriting every occurrence and rewriting the first occurrence give the same stem. |
| Engine.StemLoop | mstem/mstem.py:81-95 | The `stem` loop as written, with its early `break`, computes the loop function. |
| Engine.Step | mstem/mstem.py:104-117 | A rule that does not match changes nothing. A match rewrites the first occurrence. A class rule, or a match that opens with a class marker, records no evidence. Only prefix rules extend the prefixes, and only suffix rules extend the suffixes. |
| Engine.AnalyseStopsAtLexicon | mstem/mstem.py:100-117 | `_parse` applies exactly the rules that first-occurrence rewriting applies before the token becomes lexical. |
| Engine.EvidenceOrder | mstem/mstem.py:104-117 | Prefix evidence is appended in the order the rules matched. Suffix evidence ends in the reverse order of matching; in gloss mode each rule's own tags are reversed too. The stem is the first-occurrence rewrite of the token. |
| Engine.LiteralEvidenceBound | mstem/mstem.py:113-116 | In literal mode each matching rule records at most one affix. |
| Engine.AnalyseLoop | mstem/mstem.py:97-118 | The `_parse` loop as written computes the analysis function. It uses two deques, `extendleft`, `appendleft`, `extend`, `append` and an early `break`. |
| Analyzer.Stem | mstem/mstem.py:81-95 | A lexical normalized token, or an empty rule table, gives back the normalized token. |
| Analyzer.Analyze | mstem/mstem.py:97-118 | A lexical normalized token, or an empty rule table, gives the normalized token with no evidence. |
| Analyzer.Parse | mstem/mstem.py:131-136 | The result lists the prefixes, then the stem, then the suffixes, with nothing else. |
| Analyzer.Segment | mstem/mstem.py:167-168 | The prefix group is the concatenated prefix affixes of the matched rules in order. The middle part is the first-occurrence rewrite of the token up to the stopping point. The suffix group is the concatenated suffix affixes in reverse order of matching. |
| Analyzer.Gloss | mstem/mstem.py:181 | `gloss` is `parse` in gloss mode: the tags of the matched prefix rules in order, the stem, then the suffix tags reversed. |
| Analyzer.AnalysisEvidence | mstem/mstem.py:97-118 | The `_parse` result is the prefix evidence of the matched rules, the first-occurrence rewrite up to the stopping point, and the reversed suffix evidence. |
| Analyzer.ParseWp | mstem/mstem.py:148-152 | The stem of a gloss-mode parse. A tag is in the set if and only if it was recorded as prefix or suffix evidence. |
| Analyzer.LexicalToken | mstem/mstem.py:90-103 | A token whose normal form is lexical is returned by `stem`, `parse`, `segment` and `parse_wp` with no affixes and no tags. |
| Analyzer.EmptyRuleTable | mstem/mstem.py:90-95 | With no rules, `stem` and `parse` return the normalized token. |
| Analyzer.StemCharacterized | mstem/mstem.py:81-95 | `stem` is the normalized token after the rules up to the first lexical point. The result is lexical whenever the loop stopped early. |
| Analyzer.ParseEvidence | mstem/mstem.py:120-136 | `parse` equals the prefix evidence of the matched rules in order, then the stem, then the suffix evidence reversed. |
| Analyzer.ParseLength | mstem/mstem.py:113-136 | A literal-mode parse has at most one part per applied rule, plus the stem. |
| Analyzer.GlossSet | mstem/mstem.py:138-152 | `parse_wp` holds a tag if and only if some applied, matching rule recorded it as prefix or suffix evidence. |
| Analyzer.StemAgreesWithParse | mstem/mstem.py:91-117 | Without class rules, `stem` and `_parse` reach the same stem. |
| Analyzer.StripsKeepText | mstem/mstem.py:113-117 | Rules that only strip affixes keep the spelled-out text: prefixes, then stem, then suffixes. |
| Analyzer.SegmentReconstructs | mstem/mstem.py:154-168 | When every rule only strips an affix, the three parts of `segment` concatenate to the normalized token. |
| Scenarios.SuffixStep | mstem/mstem.py:108-117 | A suffix-stripping rule removes its literal from the end. It pushes its evidence, reversed, in front of earlier suffix evidence. |
| Scenarios.PrefixStep | mstem/mstem.py:110-117 | A prefix-stripping rule removes its literal from the front and appends its evidence. |
| Scenarios.SuffixPair | mstem/mstem.py:100-118 | Two suffix rules, outer first: the inner suffix's evidence comes first. |
| Scenarios.PrefixThenSuffix | mstem/mstem.py:100-118 | Prefix evidence keeps rule order; suffix evidence comes out reversed. |
| Scenarios.OrderDecides | mstem/mstem.py:91-94 | Once a rule makes the token lexical, later rules are not applied. |
| Scenarios.ResultMayBeNonLexical | mstem/mstem.py:91-95 | Membership is not checked after the last rule, so the stem may be outside the lexicon. |
| Scenarios.SuffixNesting | mstem/mstem.py:113-136 | "walkeds" with rules `s$` then `ed$` parses as walk, ed, s. |
| Scenarios.SuffixNestingGlosses | mstem/mstem.py:170-181 | `gloss` of the same token lists the later rule's tag first: walk, PST, PL. |
| Scenarios.SuffixNestingSegments | mstem/mstem.py:154-168 | `segment` of the same token gives the empty prefix group, "walk" and "eds". |
| Scenarios.GlossTagOrder | mstem/mstem.py:107-111 | Prefix tags keep their order; a suffix rule's tags come out reversed. |
| Scenarios.GlossSetCollapses | mstem/mstem.py:148-152 | Two rules tagged alike give one tag in `parse_wp`. |
| Scenarios.EveryOccurrenceRemoved | mstem/mstem.py:94 | `stem` removes every occurrence of a class marker. |
| Scenarios.FirstOccurrenceRemoved | mstem/mstem.py:104-117 | `_parse` removes only the first occurrence and records nothing for it. |
| Scenarios.UnanchoredRuleRejected | mstem/mstem.py:74-76 | A pattern with no anchor makes loading fail at its row. |
| Scenarios.BothAnchorsMeanPrefix | mstem/mstem.py:70-71 | `^ab$` is a prefix pattern anchored at both ends. |
| Scenarios.EmptyGlossColumn | mstem/mstem.py:78 | An empty gloss column gives one empty tag; `CL.GEN` gives two tags. |

## Left out

- File access is not modelled. The rule table arrives as a sequence of
  records, and the lexicon as a set. This covers:
  - reading the lexicon (`_read_lex`, including stripping and splitting
    lines on the delimiter);
  - resolving the rule file, which tries the path first and then the
    packaged `rules/<name>.tsv`;
  - `FileNotFoundError`;
  - csv quoting.
- General regular expressions are not modelled. Patterns are literal text
  with the anchors the rule files use. Not covered:
  - metacharacters, classes, groups and alternation;
  - infix patterns with interior anchors;
  - compile errors (`re.error`);
  - back-references and escapes in replacements, which are read literally.
- Python's `$` also matches before a trailing newline. The model takes
  `$` as the end of the text only, so it assumes tokens have no trailing
  newline. Callers do pass such tokens: `mstem/bin/txt2morph.py` splits
  unstripped lines on spaces, so the last token of each line keeps its
  newline, and a suffix pattern such as `s$` matches "walks\n" in the
  source but not in the model.
- NFD normalization is a parameter of the stemmer. The Unicode
  decomposition tables are not part of this model.
- The command-line scripts under `mstem/bin` and `setup.py` are not part
  of this model.
- Patterns.ClassifyRender: it is stated for canonical patterns only. A
  prefix body ending in `$` without the end anchor, or a suffix body
  starting with `^`, is written the same way as a different pattern and
  cannot round-trip.
- Engine.ScopesAgreeOnAnchoredRules: it excludes class rules. For those
  rules the two rewriting modes really do differ, as
  `Scenarios.EveryOccurrenceRemoved` and
  `Scenarios.FirstOccurrenceRemoved` show.

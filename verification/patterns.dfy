/** The fragment of the regular-expression language that rule patterns are
    modelled in: a literal body with the anchors that decide a rule's
    position. Classification follows mstem/mstem.py:68-76; matching and
    substitution stand in for the compiled pattern's `search` and `sub`
    (mstem/mstem.py:94, 104-117). */
module Patterns {
  import opened Wrappers
  import opened Strings

  /** A classified rule pattern. The body is read as literal text. */
  datatype Pattern =
    | Marker(name: string)              // `{{name}}`, matched anywhere
    | Initial(lit: string, whole: bool) // `^lit`, or `^lit$` when `whole`
    | Final(lit: string)                // `lit$`

  /** Why a pattern string cannot be classified. */
  datatype Defect =
    | NoFirstChar  // the empty pattern: indexing its first character fails
    | NoAnchor     // neither wrapped in `{{ }}` nor anchored with `^` or `$`

  /** The literal text a pattern matches. */
  function Literal(p: Pattern): string {
    match p
    case Marker(name) => "{{" + name + "}}"
    case Initial(lit, _) => lit
    case Final(lit) => lit
  }

  /** The pattern string a classified pattern was written as. */
  function Render(p: Pattern): string {
    match p
    case Marker(name) => "{{" + name + "}}"
    case Initial(lit, whole) => "^" + lit + (if whole then "$" else "")
    case Final(lit) => lit + "$"
  }

  /** `a` begins with `{{` and ends with `}}`. */
  predicate Wrapped(a: string) {
    |a| >= 2 && a[..2] == "{{" && a[|a| - 2..] == "}}"
  }

  lemma WrappedLength(a: string)
    requires Wrapped(a)
    ensures |a| >= 4
  {
    assert a[0] == '{' && a[1] == '{';
    assert a[|a| - 2] == '}' && a[|a| - 1] == '}';
  }

  /** Classify a pattern string by its anchors. The checks run in a fixed
      order, so a pattern anchored at both ends is a prefix pattern. */
  function Classify(a: string): (r: Result<Pattern, Defect>)
    ensures Wrapped(a) ==> r.Success? && r.value.Marker?
    ensures !Wrapped(a) && a == [] ==> r == Failure(NoFirstChar)
    ensures !Wrapped(a) && a != [] && a[0] == '^' ==> r.Success? && r.value.Initial?
    ensures !Wrapped(a) && a != [] && a[0] != '^' && a[|a| - 1] == '$' ==>
              r.Success? && r.value.Final?
    ensures !Wrapped(a) && a != [] && a[0] != '^' && a[|a| - 1] != '$' ==>
              r == Failure(NoAnchor)
    ensures r.Success? ==> Render(r.value) == a
  {
    if Wrapped(a) then
      WrappedLength(a);
      assert a == "{{" + a[2..|a| - 2] + "}}";
      Success(Marker(a[2..|a| - 2]))
    else if a == [] then Failure(NoFirstChar)
    else if a[0] == '^' then
      if |a| >= 2 && a[|a| - 1] == '$' then
        assert a == "^" + a[1..|a| - 1] + "$";
        Success(Initial(a[1..|a| - 1], true))
      else
        assert a == "^" + a[1..];
        Success(Initial(a[1..], false))
    else if a[|a| - 1] == '$' then
      assert a == a[..|a| - 1] + "$";
      Success(Final(a[..|a| - 1]))
    else Failure(NoAnchor)
  }

  /** The patterns `Classify` produces: an unanchored-at-end prefix body does
      not end in `$`, and a suffix body does not start with `^`. */
  predicate Canonical(p: Pattern) {
    match p
    case Marker(_) => true
    case Initial(lit, whole) => whole || lit == [] || lit[|lit| - 1] != '$'
    case Final(lit) => lit == [] || lit[0] != '^'
  }

  /** Classification inverts rendering on canonical patterns. */
  lemma ClassifyRender(p: Pattern)
    requires Canonical(p)
    ensures Classify(Render(p)) == Success(p)
  {
    match p
    case Marker(name) => ClassifyRenderMarker(name);
    case Initial(lit, whole) => ClassifyRenderInitial(lit, whole);
    case Final(lit) => ClassifyRenderFinal(lit);
  }

  lemma ClassifyRenderMarker(name: string)
    ensures Classify(Render(Marker(name))) == Success(Marker(name))
  {
    var a := Render(Marker(name));
    assert a[..2] == "{{";
    assert a[|a| - 2..] == "}}";
    assert a[2..|a| - 2] == name;
  }

  lemma ClassifyRenderInitial(lit: string, whole: bool)
    requires Canonical(Initial(lit, whole))
    ensures Classify(Render(Initial(lit, whole))) == Success(Initial(lit, whole))
  {
    var a := Render(Initial(lit, whole));
    assert a[0] == '^';
    assert !Wrapped(a) by { assert a[0] != '{'; }
    if whole {
      assert a[1..|a| - 1] == lit;
    } else {
      assert a[1..] == lit;
    }
  }

  lemma ClassifyRenderFinal(lit: string)
    requires Canonical(Final(lit))
    ensures Classify(Render(Final(lit))) == Success(Final(lit))
  {
    var a := Render(Final(lit));
    assert a[|a| - 1] == '$';
    assert !Wrapped(a) by { assert a[|a| - 1] != '}'; }
    assert a[..|a| - 1] == lit;
  }

  /** `p` matches `t` at index `i`: the literal occurs there and the
      anchors hold. */
  predicate MatchesAt(p: Pattern, t: string, i: nat) {
    && OccursAt(Literal(p), t, i)
    && (p.Initial? ==> i == 0)
    && (p.Final? || (p.Initial? && p.whole) ==> i + |Literal(p)| == |t|)
  }

  /** Start of the leftmost match of `p` in `t` (the pattern's `search`). */
  function Find(p: Pattern, t: string): (r: Option<nat>)
    ensures r.Some? ==> MatchesAt(p, t, r.value)
    ensures r.Some? ==> forall j: nat :: j < r.value ==> !MatchesAt(p, t, j)
    ensures r.None? ==> forall j: nat :: !MatchesAt(p, t, j)
  {
    match p
    case Marker(_) => IndexOf(Literal(p), t)
    case Initial(lit, whole) =>
      if OccursAt(lit, t, 0) && (!whole || |lit| == |t|) then Some(0) else None
    case Final(lit) =>
      if |lit| <= |t| && OccursAt(lit, t, |t| - |lit|) then Some(|t| - |lit|) else None
  }

  /** An anchored pattern can match in at most one place, so replacing every
      occurrence performs at most one replacement. */
  lemma AnchoredMatchUnique(p: Pattern, t: string, i: nat, j: nat)
    requires !p.Marker?
    requires MatchesAt(p, t, i) && MatchesAt(p, t, j)
    ensures i == j
  {
  }

  /** Replace the leftmost match of `p` in `t` by `repl` (`sub` with
      `count=1`). */
  function SubFirst(p: Pattern, repl: string, t: string): (r: string)
    ensures Find(p, t).None? ==> r == t
    ensures Find(p, t).Some? ==> |r| == |t| - |Literal(p)| + |repl|
    ensures Find(p, t).Some? ==>
              var i := Find(p, t).value;
              r[..i] == t[..i] && r[i..i + |repl|] == repl
              && r[i + |repl|..] == t[i + |Literal(p)|..]
  {
    match Find(p, t)
    case None => t
    case Some(i) =>
      var r := t[..i] + repl + t[i + |Literal(p)|..];
      assert r[..i] == t[..i];
      assert r[i..i + |repl|] == repl;
      assert r[i + |repl|..] == t[i + |Literal(p)|..];
      r
  }

  /** On a match, a prefix pattern rewrites the front of the text and a
      suffix pattern rewrites its end; the rest is kept. */
  lemma SubFirstAffix(p: Pattern, repl: string, t: string)
    requires Find(p, t).Some? && !p.Marker?
    ensures p.Initial? ==>
              t == Literal(p) + t[|Literal(p)|..]
              && SubFirst(p, repl, t) == repl + t[|Literal(p)|..]
    ensures p.Final? ==>
              var k := |t| - |Literal(p)|;
              t == t[..k] + Literal(p) && SubFirst(p, repl, t) == t[..k] + repl
  {
    var i := Find(p, t).value;
    var lit := Literal(p);
    assert t == t[..i] + t[i..i + |lit|] + t[i + |lit|..];
  }

  /** Replace every non-overlapping occurrence of the non-empty literal
      `lit` in `t`, left to right, without rescanning replaced text. */
  function ReplaceAll(lit: string, repl: string, t: string): (r: string)
    requires |lit| > 0
    ensures r == Join(Split(t, lit), repl)
    ensures Free(lit, t) ==> r == t
    decreases |t|
  {
    match IndexOf(lit, t)
    case None => t
    case Some(i) =>
      var rest := t[i + |lit|..];
      JoinCons(t[..i], Split(rest, lit), repl);
      t[..i] + repl + ReplaceAll(lit, repl, rest)
  }

  /** Replace every match of `p` in `t` by `repl` (`sub` with no count). */
  function SubAll(p: Pattern, repl: string, t: string): (r: string)
    ensures Find(p, t).None? ==> r == t
    ensures p.Marker? ==> r == Join(Split(t, Literal(p)), repl)
    ensures !p.Marker? ==> r == SubFirst(p, repl, t)
  {
    match p
    case Marker(_) => ReplaceAll(Literal(p), repl, t)
    case _ => SubFirst(p, repl, t)
  }

  /** An anchored pattern's first match is its only one, so replacing the
      first match replaces every match. */
  lemma AnchoredFirstMatchIsOnly(p: Pattern, t: string, j: nat)
    requires !p.Marker? && Find(p, t).Some?
    requires MatchesAt(p, t, j)
    ensures j == Find(p, t).value
  {
    AnchoredMatchUnique(p, t, j, Find(p, t).value);
  }

  /** Characters of the class-marker name range `[A-Z]`. */
  predicate IsUpper(c: char) {
    'A' <= c <= 'Z'
  }

  predicate AllUpper(s: string) {
    forall i :: 0 <= i < |s| ==> IsUpper(s[i])
  }

  /** Length of the leading run of `[A-Z]` characters of `s`. */
  function UpperRun(s: string): (k: nat)
    ensures k <= |s|
    ensures AllUpper(s[..k])
    ensures k < |s| ==> !IsUpper(s[k])
  {
    if s != [] && IsUpper(s[0]) then
      var k := 1 + UpperRun(s[1..]);
      assert s[..k] == [s[0]] + s[1..][..k - 1];
      k
    else 0
  }

  /** `m` begins with a class marker `{{[A-Z]+}}` (the marker regex's
      `match`, which anchors at the start only). */
  predicate StartsWithClassMarker(m: string) {
    && |m| >= 2 && m[..2] == "{{"
    && var k := UpperRun(m[2..]);
       k > 0 && OccursAt("}}", m, 2 + k)
  }

  /** Text opening with `{{NAME}}` for an upper-case `NAME` starts with a
      class marker. */
  lemma MarkerIsClassMarker(name: string, rest: string)
    requires |name| > 0 && AllUpper(name)
    ensures StartsWithClassMarker("{{" + name + "}}" + rest)
  {
    var m := "{{" + name + "}}" + rest;
    assert m[..2] == "{{";
    assert m[2..] == name + "}}" + rest;
    var k := UpperRun(m[2..]);
    assert forall i :: 0 <= i < |name| ==> m[2..][i] == name[i];
    assert m[2..][|name|] == '}';
    assert k == |name|;
    assert m[2 + k..2 + k + 2] == "}}";
  }

  /** Every class-marker text opens with `{{NAME}}` for an upper-case,
      non-empty `NAME`. */
  lemma ClassMarkerName(m: string) returns (name: string)
    requires StartsWithClassMarker(m)
    ensures |name| > 0 && AllUpper(name)
    ensures |m| >= |name| + 4 && m[..|name| + 4] == "{{" + name + "}}"
  {
    var k := UpperRun(m[2..]);
    name := m[2..][..k];
    assert m[2 + k..2 + k + 2] == "}}";
    assert m[..k + 4] == m[..2] + name + m[2 + k..2 + k + 2];
  }
}

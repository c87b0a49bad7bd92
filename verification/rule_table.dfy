/** Loading the rule table (mstem/mstem.py:60-79, after the file is open):
    each record `pattern, replacement, dotted glosses` after the header
    becomes a classified rule, in file order. */
module RuleTable {
  import opened Wrappers
  import opened Strings
  import opened Patterns

  /** Where a rule's affix sits, decided once at load time. */
  datatype Position = Delete | Prefix | Suffix

  /** A compiled rule: its classified pattern, the replacement text and
      the gloss tags of the third column. */
  datatype Rule = Rule(pattern: Pattern, repl: string, glosses: seq<string>) {
    function Pos(): Position {
      match pattern
      case Marker(_) => Delete
      case Initial(_, _) => Prefix
      case Final(_) => Suffix
    }
  }

  /** Why loading stops; `row` is the record's index in the table, whose
      header is row 0. */
  datatype LoadError =
    | MissingHeader                           // the table has no header row
    | FieldCount(row: nat, fields: nat)       // a record without exactly three fields
    | EmptyPattern(row: nat)                  // a record whose pattern is empty
    | MalformedRule(row: nat, pattern: string) // a pattern with no anchor

  function ErrorRow(e: LoadError): nat {
    match e
    case MissingHeader => 0
    case FieldCount(row, _) => row
    case EmptyPattern(row) => row
    case MalformedRule(row, _) => row
  }

  /** Gloss tags are the `.`-separated pieces of the third column. */
  function GlossTags(field: string): seq<string> {
    Split(field, ".")
  }

  /** The gloss column is never lost: it always yields at least one tag,
      no tag contains `.`, and joining the tags with `.` restores it. */
  lemma GlossTagsFaithful(field: string)
    ensures |GlossTags(field)| >= 1
    ensures Join(GlossTags(field), ".") == field
    ensures forall k :: 0 <= k < |GlossTags(field)| ==> '.' !in GlossTags(field)[k]
  {
    var tags := GlossTags(field);
    JoinSplit(field, ".");
    SplitPiecesFree(field, ".");
    forall k | 0 <= k < |tags|
      ensures '.' !in tags[k]
    {
      if '.' in tags[k] {
        var j :| 0 <= j < |tags[k]| && tags[k][j] == '.';
        assert OccursAt(".", tags[k], j);
      }
    }
  }

  /** Tags free of `.` are recovered exactly from their joined column. */
  lemma GlossTagsOfJoin(tags: seq<string>)
    requires |tags| >= 1
    requires forall k :: 0 <= k < |tags| ==> '.' !in tags[k]
    ensures GlossTags(Join(tags, ".")) == tags
  {
    SplitJoin(tags, '.');
  }

  /** The record has three fields and a pattern that classifies. */
  predicate RowOk(row: seq<string>, normalize: string -> string) {
    |row| == 3 && Classify(normalize(row[0])).Success?
  }

  /** `rule` is what the record compiles to: the normalized pattern,
      classified; the normalized replacement; the split gloss column. */
  predicate CompiledFrom(row: seq<string>, rule: Rule, normalize: string -> string) {
    && |row| == 3
    && Classify(normalize(row[0])) == Success(rule.pattern)
    && rule.repl == normalize(row[1])
    && rule.glosses == GlossTags(row[2])
  }

  /** Compile the record at index `index` of the table. */
  function CompileRow(row: seq<string>, index: nat, normalize: string -> string): (r: Result<Rule, LoadError>)
    ensures r.Success? <==> RowOk(row, normalize)
    ensures r.Success? ==> CompiledFrom(row, r.value, normalize)
    ensures r.Failure? ==> ErrorRow(r.error) == index
    ensures |row| != 3 ==> r == Failure(FieldCount(index, |row|))
    ensures |row| == 3 && normalize(row[0]) == [] ==> r == Failure(EmptyPattern(index))
    ensures |row| == 3 && Classify(normalize(row[0])) == Failure(NoAnchor) ==>
              r == Failure(MalformedRule(index, normalize(row[0])))
  {
    if |row| != 3 then Failure(FieldCount(index, |row|))
    else
      var a, b := normalize(row[0]), normalize(row[1]);
      match Classify(a)
      case Failure(NoFirstChar) => Failure(EmptyPattern(index))
      case Failure(NoAnchor) => Failure(MalformedRule(index, a))
      case Success(p) => Success(Rule(p, b, GlossTags(row[2])))
  }

  /** Compile the records `table[k..]` in order, stopping at the first bad
      one. */
  function LoadFrom(table: seq<seq<string>>, k: nat, normalize: string -> string): (r: Result<seq<Rule>, LoadError>)
    requires k <= |table|
    ensures r.Success? <==> forall j :: k <= j < |table| ==> RowOk(table[j], normalize)
    ensures r.Success? ==> |r.value| == |table| - k
    ensures r.Success? ==>
              forall j :: 0 <= j < |r.value| ==> CompiledFrom(table[k + j], r.value[j], normalize)
    ensures r.Failure? ==>
              var e := ErrorRow(r.error);
              && k <= e < |table|
              && (forall j :: k <= j < e ==> RowOk(table[j], normalize))
              && CompileRow(table[e], e, normalize) == Failure(r.error)
    decreases |table| - k
  {
    if k == |table| then Success([])
    else
      match CompileRow(table[k], k, normalize)
      case Failure(e) => Failure(e)
      case Success(rule) =>
        match LoadFrom(table, k + 1, normalize)
        case Failure(e) => Failure(e)
        case Success(rest) => Success([rule] + rest)
  }

  /** Load a whole table: the header row is skipped, every other record
      becomes one rule, and rules keep the table's order. */
  function Load(table: seq<seq<string>>, normalize: string -> string): (r: Result<seq<Rule>, LoadError>)
    ensures table == [] ==> r == Failure(MissingHeader)
    ensures r.Success? <==>
              table != [] && forall j :: 1 <= j < |table| ==> RowOk(table[j], normalize)
    ensures r.Success? ==> |r.value| == |table| - 1
    ensures r.Success? ==>
              forall j :: 0 <= j < |r.value| ==> CompiledFrom(table[j + 1], r.value[j], normalize)
    ensures r.Failure? && table != [] ==>
              var e := ErrorRow(r.error);
              && 1 <= e < |table|
              && !RowOk(table[e], normalize)
              && (forall j :: 1 <= j < e ==> RowOk(table[j], normalize))
  {
    if table == [] then Failure(MissingHeader)
    else LoadFrom(table, 1, normalize)
  }
}

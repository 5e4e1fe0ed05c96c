/** `redact_json_strings` (crates/common/src/lib.rs): the in-place walk that redacts string leaves only. */
module JsonRedaction {
  import opened Wrappers
  import opened Verdicts
  import opened Json
  import opened Redaction

  // ----- the walk as a function on values -----

  function RedactValue(v: Value, findings: seq<Finding>): Value
    decreases v
  {
    match v
    case String(s) => String(Sanitized(findings, s))
    case Array(items) => Array(seq(|items|, i requires 0 <= i < |items| => RedactValue(items[i], findings)))
    case Object(fields) =>
      Object(seq(|fields|, i requires 0 <= i < |fields| => (fields[i].0, RedactValue(fields[i].1, findings))))
    case _ => v
  }

  /** A tree with its strings blanked: shape, keys, numbers, booleans, nulls and array lengths. */
  function Skeleton(v: Value): Value
    decreases v
  {
    match v
    case String(s) => String("")
    case Array(items) => Array(seq(|items|, i requires 0 <= i < |items| => Skeleton(items[i])))
    case Object(fields) => Object(seq(|fields|, i requires 0 <= i < |fields| => (fields[i].0, Skeleton(fields[i].1))))
    case _ => v
  }

  /** The walk keeps everything but the text of string leaves. */
  lemma {:induction false} SkeletonKept(v: Value, findings: seq<Finding>)
    ensures Skeleton(RedactValue(v, findings)) == Skeleton(v)
    decreases v
  {
    match v
    case Array(items) =>
      forall i | 0 <= i < |items| ensures Skeleton(RedactValue(items[i], findings)) == Skeleton(items[i]) {
        SkeletonKept(items[i], findings);
      }
    case Object(fields) =>
      forall i | 0 <= i < |fields| ensures Skeleton(RedactValue(fields[i].1, findings)) == Skeleton(fields[i].1) {
        SkeletonKept(fields[i].1, findings);
      }
    case _ =>
  }

  lemma {:induction false} FieldIndexKept(fields: seq<(string, Value)>, fields': seq<(string, Value)>, key: string)
    requires |fields| == |fields'| && forall i :: 0 <= i < |fields| ==> fields[i].0 == fields'[i].0
    ensures FieldIndex(fields, key) == FieldIndex(fields', key)
  {
    if fields != [] && fields[0].0 != key {
      FieldIndexKept(fields[1..], fields'[1..], key);
    }
  }

  /** Every path leads to the redaction of what it led to before: no leaf appears, moves or is skipped. */
  lemma {:induction false} LookupRedacted(v: Value, findings: seq<Finding>, path: Path)
    ensures Lookup(RedactValue(v, findings), path)
            == match Lookup(v, path) case Some(w) => Some(RedactValue(w, findings)) case None => None
    decreases |path|
  {
    if path != [] {
      ChildRedacted(v, findings, path[0]);
      if Child(v, path[0]).Some? {
        LookupRedacted(Child(v, path[0]).value, findings, path[1..]);
      }
    }
  }

  lemma ChildRedacted(v: Value, findings: seq<Finding>, step: Step)
    ensures Child(RedactValue(v, findings), step)
            == match Child(v, step) case Some(w) => Some(RedactValue(w, findings)) case None => None
  {
    if v.Object? && step.Member? {
      FieldIndexKept(v.fields, RedactValue(v, findings).fields, step.key);
    }
  }

  /** With findings that are complete on plain text, no string leaf anywhere keeps a snippet. */
  lemma LeavesClean(v: Value, findings: seq<Finding>, path: Path, s: string)
    requires AllBracketed(findings) && AllWriteClean(findings)
    requires Lookup(RedactValue(v, findings), path) == Some(String(s))
    ensures Clean(findings, s)
  {
    LookupRedacted(v, findings, path);
    CompleteIff(findings);
    assert Clean(findings, Sanitized(findings, Lookup(v, path).value.s));
  }

  // ----- the walk in place -----

  /** A string leaf that is overwritten. */
  class Cell {
    var text: string

    constructor (text: string)
      ensures this.text == text
    {
      this.text := text;
    }
  }

  /** A parsed document: fixed structure over mutable string leaves. */
  datatype Tree =
    | TNull
    | TBool(b: bool)
    | TNumber(text: string)
    | TString(cell: Cell)
    | TArray(items: seq<Tree>)
    | TObject(fields: seq<(string, Tree)>)

  function Cells(t: Tree): set<Cell>
    decreases t
  {
    match t
    case TString(c) => {c}
    case TArray(items) => set i, c | 0 <= i < |items| && c in Cells(items[i]) :: c
    case TObject(fields) => set i, c | 0 <= i < |fields| && c in Cells(fields[i].1) :: c
    case _ => {}
  }

  /** Ownership: no leaf belongs to two places of the tree. */
  ghost predicate Owned(t: Tree)
    decreases t
  {
    match t
    case TArray(items) =>
      && (forall i :: 0 <= i < |items| ==> Owned(items[i]))
      && (forall i, j :: 0 <= i < j < |items| ==> Cells(items[i]) !! Cells(items[j]))
    case TObject(fields) =>
      && (forall i :: 0 <= i < |fields| ==> Owned(fields[i].1))
      && (forall i, j :: 0 <= i < j < |fields| ==> Cells(fields[i].1) !! Cells(fields[j].1))
    case _ => true
  }

  /** The value a tree stands for in the current state. */
  ghost function View(t: Tree): Value
    reads Cells(t)
    decreases t
  {
    match t
    case TNull => Null
    case TBool(b) => Bool(b)
    case TNumber(n) => Number(n)
    case TString(c) => String(c.text)
    case TArray(items) => Array(seq(|items|, i requires 0 <= i < |items| reads Cells(t) => View(items[i])))
    case TObject(fields) =>
      Object(seq(|fields|, i requires 0 <= i < |fields| reads Cells(t) => (fields[i].0, View(fields[i].1))))
  }

  method RedactInPlace(t: Tree, findings: seq<Finding>)
    requires Owned(t)
    modifies Cells(t)
    ensures View(t) == RedactValue(old(View(t)), findings)
    decreases t, 1
  {
    match t
    case TString(cell) => RedactCell(cell, findings);
    case TArray(items) =>
      RedactParts(t, items, Cells(t), findings);
      ItemsRedacted(old(View(t)).items, View(t).items, findings);
    case TObject(fields) =>
      var parts := Parts(t);
      assert forall j :: 0 <= j < |fields| ==> old(View(t)).fields[j] == (fields[j].0, old(Views(parts))[j]);
      RedactParts(t, parts, Cells(t), findings);
      assert forall j :: 0 <= j < |fields| ==> View(t).fields[j] == (fields[j].0, View(parts[j]));
      FieldsRedacted(old(View(t)).fields, View(t).fields, findings);
    case _ =>
  }

  method RedactCell(cell: Cell, findings: seq<Finding>)
    modifies cell
    ensures cell.text == Sanitized(findings, old(cell.text))
  {
    assert findings[0..] == findings;
    for i := 0 to |findings|
      invariant Sanitized(findings[i..], cell.text) == Sanitized(findings, old(cell.text))
    {
      assert findings[i..][1..] == findings[i + 1..];
      cell.text := Pass(findings[i], cell.text);
    }
  }

  lemma PartsOf(t: Tree, parts: seq<Tree>, i: nat)
    requires Owned(t) && parts == Parts(t) && i < |parts|
    ensures Owned(parts[i]) && parts[i] < t && Cells(parts[i]) <= Cells(t)
    ensures forall j :: 0 <= j < |parts| && j != i ==> Cells(parts[i]) !! Cells(parts[j])
  {
  }

  function Parts(t: Tree): seq<Tree> {
    match t
    case TArray(items) => items
    case TObject(fields) => seq(|fields|, i requires 0 <= i < |fields| => fields[i].1)
    case _ => []
  }

  function AllCells(parts: seq<Tree>): set<Cell> {
    set i, c | 0 <= i < |parts| && c in Cells(parts[i]) :: c
  }

  ghost function Views(parts: seq<Tree>): (r: seq<Value>)
    reads AllCells(parts)
    ensures |r| == |parts| && forall i :: 0 <= i < |parts| ==> r[i] == View(parts[i])
  {
    seq(|parts|, i requires 0 <= i < |parts| reads AllCells(parts) => View(parts[i]))
  }

  /** The loop over the elements of an array or the values of an object. */
  method RedactParts(t: Tree, parts: seq<Tree>, ghost cells: set<Cell>, findings: seq<Finding>)
    requires Owned(t) && parts == Parts(t) && cells == Cells(t)
    modifies cells
    ensures forall j :: 0 <= j < |parts| ==> View(parts[j]) == RedactValue(old(Views(parts))[j], findings)
    decreases t, 0
  {
    hide RedactValue;
    ghost var before := Views(parts);
    for i := 0 to |parts|
      invariant forall j :: 0 <= j < i ==> View(parts[j]) == RedactValue(before[j], findings)
      invariant forall j :: i <= j < |parts| ==> View(parts[j]) == before[j]
    {
      PartsOf(t, parts, i);
      label Before:
      RedactInPlace(parts[i], findings);
      forall j | 0 <= j < |parts| && j != i
        ensures View(parts[j]) == old@Before(View(parts[j]))
      {
        PartsOf(t, parts, j);
        assert Cells(parts[i]) !! Cells(parts[j]);
      }
    }
  }

  lemma ItemsRedacted(before: seq<Value>, after: seq<Value>, findings: seq<Finding>)
    requires |before| == |after|
    requires forall j :: 0 <= j < |before| ==> after[j] == RedactValue(before[j], findings)
    ensures Array(after) == RedactValue(Array(before), findings)
  {
    assert after == RedactValue(Array(before), findings).items;
  }

  lemma FieldsRedacted(before: seq<(string, Value)>, after: seq<(string, Value)>, findings: seq<Finding>)
    requires |before| == |after|
    requires forall j :: 0 <= j < |before| ==>
            after[j].0 == before[j].0 && after[j].1 == RedactValue(before[j].1, findings)
    ensures Object(after) == RedactValue(Object(before), findings)
  {
    assert after == RedactValue(Object(before), findings).fields;
  }

  /** Every string leaf becomes the ordered substitutions of its text, and every other leaf stays. */
  lemma LeafRedacted(v: Value, findings: seq<Finding>, path: Path)
    requires Lookup(v, path).Some?
    ensures var w := Lookup(v, path).value;
            && (w.String? ==> Lookup(RedactValue(v, findings), path) == Some(String(Sanitized(findings, w.s))))
            && (w.Null? || w.Bool? || w.Number? ==> Lookup(RedactValue(v, findings), path) == Some(w))
  {
    LookupRedacted(v, findings, path);
  }
}

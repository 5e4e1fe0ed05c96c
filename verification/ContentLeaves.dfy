/** Choosing the content leaves of a request body and rewriting at most one of them
    (browser-extension/src/main-world-interceptor.js). A JavaScript location `{parent, key}` is the path
    of the leaf; keys of one object are distinct, as `JSON.parse` makes them. */
module ContentLeaves {
  import opened Wrappers
  import opened Json

  const CONTENT_KEY_NAMES: set<string> := {"parts", "prompt", "text", "message", "query", "input", "content"}

  predicate IsContentKey(step: Option<Step>) {
    step.Some? && step.value.Member? && step.value.key in CONTENT_KEY_NAMES
  }

  ghost predicate DistinctKeys(v: Value)
    decreases v
  {
    match v
    case Array(items) => forall i :: 0 <= i < |items| ==> DistinctKeys(items[i])
    case Object(fields) =>
      && (forall i :: 0 <= i < |fields| ==> DistinctKeys(fields[i].1))
      && (forall i, j :: 0 <= i < j < |fields| ==> fields[i].0 != fields[j].0)
    case _ => true
  }

  /** The steps out of a node with what they lead to, in the order in which the program visits
      them: that of `Object.keys`, integer-like keys first. */
  function Children(node: Value): (r: seq<(Step, Value)>)
    ensures forall i :: 0 <= i < |r| ==> r[i].1 < node
  {
    match node
    case Array(items) => seq(|items|, i requires 0 <= i < |items| => (Item(i), items[i]))
    case Object(fields) => seq(|fields|, i requires 0 <= i < |fields| => (Member(fields[i].0), fields[i].1))
    case _ => []
  }

  /** `collectContentLocations`, with `at` the path of `node` and `key` its last step. */
  function Collect(node: Value, at: Path, key: Option<Step>, inContentArray: bool): seq<Path>
    decreases node, 1
  {
    if node.String? then (if IsContentKey(key) || inContentArray then [at] else [])
    else CollectAll(node, at, Children(node), node.Array? && IsContentKey(key))
  }

  function CollectAll(node: Value, at: Path, children: seq<(Step, Value)>, inContentArray: bool): seq<Path>
    requires forall i :: 0 <= i < |children| ==> children[i].1 < node
    decreases node, 0, |children|
  {
    if children == [] then []
    else Collect(children[0].1, at + [children[0].0], Some(children[0].0), inContentArray)
         + CollectAll(node, at, children[1..], inContentArray)
  }

  method CollectContentLocations(node: Value, at: Path, key: Option<Step>, inContentArray: bool, sofar: seq<Path>)
    returns (out: seq<Path>)
    ensures out == sofar + Collect(node, at, key, inContentArray)
    decreases node
  {
    hide IsContentKey;
    out := sofar;
    if node.String? {
      if IsContentKey(key) || inContentArray {
        out := out + [at];
      }
      return;
    }
    var children := Children(node);
    var arrayIsContent := node.Array? && IsContentKey(key);
    assert children[0..] == children;
    for i := 0 to |children|
      invariant out + CollectAll(node, at, children[i..], arrayIsContent)
             == sofar + CollectAll(node, at, children, arrayIsContent)
    {
      assert children[i..][1..] == children[i + 1..];
      out := CollectContentLocations(children[i].1, at + [children[i].0], Some(children[i].0), arrayIsContent, out);
    }
  }

  // ----- which leaves are collected -----

  /** A leaf counts as content through its own object key, or through the key of the array that directly holds it. */
  predicate ContentPath(path: Path) {
    && path != []
    && (|| IsContentKey(Some(path[|path| - 1]))
        || (|path| >= 2 && path[|path| - 1].Item? && IsContentKey(Some(path[|path| - 2]))))
  }

  /** The same for a path below a node whose own last step and array context are given. */
  predicate ContentBelow(node: Value, rest: Path, key: Option<Step>, inContentArray: bool) {
    if rest == [] then IsContentKey(key) || inContentArray
    else if |rest| == 1 then IsContentKey(Some(rest[0])) || (node.Array? && IsContentKey(key))
    else ContentPath(rest)
  }

  predicate IsStringAt(v: Value, path: Path) {
    Lookup(v, path).Some? && Lookup(v, path).value.String?
  }

  lemma ChildrenAreSteps(node: Value, step: Step)
    requires DistinctKeys(node)
    ensures Child(node, step).Some? ==> (step, Child(node, step).value) in Children(node)
    ensures forall i :: 0 <= i < |Children(node)| ==>
              Child(node, Children(node)[i].0) == Some(Children(node)[i].1) && DistinctKeys(Children(node)[i].1)
    ensures forall i, j :: 0 <= i < j < |Children(node)| ==> Children(node)[i].0 != Children(node)[j].0
  {
    match node
    case Object(fields) =>
      if step.Member? && FieldIndex(fields, step.key) < |fields| {
        assert Children(node)[FieldIndex(fields, step.key)] == (step, Child(node, step).value);
      }
    case Array(items) =>
      if step.Item? && step.index < |items| {
        assert Children(node)[step.index] == (step, items[step.index]);
      }
    case _ =>
  }

  /** `path` is collected below `at` exactly when it ends in a string leaf that counts as content. */
  ghost predicate Selected(node: Value, at: Path, key: Option<Step>, inContentArray: bool, path: Path) {
    && |at| <= |path| && path[..|at|] == at
    && IsStringAt(node, path[|at|..]) && ContentBelow(node, path[|at|..], key, inContentArray)
  }

  lemma {:induction false} CollectSelects(node: Value, at: Path, key: Option<Step>, inContentArray: bool, path: Path)
    requires DistinctKeys(node)
    ensures path in Collect(node, at, key, inContentArray) <==> Selected(node, at, key, inContentArray, path)
    decreases node, 1
  {
    if node.String? {
      StringSelects(node, at, key, inContentArray, path);
    } else {
      var children := Children(node);
      var arrayIsContent := node.Array? && IsContentKey(key);
      CollectAllSelects(node, at, children, arrayIsContent, path);
      ChildrenAreSteps(node, if |path| > |at| then path[|at|] else Item(0));
      ChildSelects(node, at, key, inContentArray, path);
    }
  }

  lemma LeafHasNoPaths(v: Value, path: Path)
    requires !v.Array? && !v.Object?
    ensures path != [] ==> Lookup(v, path) == None
  {
    if path != [] {
      assert Child(v, path[0]) == None;
    }
  }

  lemma StringSelects(node: Value, at: Path, key: Option<Step>, inContentArray: bool, path: Path)
    requires node.String?
    ensures path in Collect(node, at, key, inContentArray) <==> Selected(node, at, key, inContentArray, path)
  {
    if Selected(node, at, key, inContentArray, path) {
      LeafHasNoPaths(node, path[|at|..]);
      assert path == path[..|at|] + path[|at|..];
    }
    if path == at {
      assert at[..|at|] == at && at[|at|..] == [];
    }
  }

  /** Below a container, the leaves are those of its children. */
  ghost predicate SelectedIn(at: Path, children: seq<(Step, Value)>, inContentArray: bool, path: Path) {
    exists i :: 0 <= i < |children|
                && Selected(children[i].1, at + [children[i].0], Some(children[i].0), inContentArray, path)
  }

  lemma {:induction false} CollectAllSelects(node: Value, at: Path, children: seq<(Step, Value)>,
      inContentArray: bool, path: Path)
    requires forall i :: 0 <= i < |children| ==> children[i].1 < node && DistinctKeys(children[i].1)
    ensures path in CollectAll(node, at, children, inContentArray) <==> SelectedIn(at, children, inContentArray, path)
    decreases node, 0, |children|
  {
    if children != [] {
      var c := children[0];
      CollectSelects(c.1, at + [c.0], Some(c.0), inContentArray, path);
      CollectAllSelects(node, at, children[1..], inContentArray, path);
      if i :| 0 <= i < |children[1..]|
              && Selected(children[1..][i].1, at + [children[1..][i].0], Some(children[1..][i].0),
                          inContentArray, path) {
        assert children[1..][i] == children[i + 1];
      }
    }
  }

  lemma ChildSelects(node: Value, at: Path, key: Option<Step>, inContentArray: bool, path: Path)
    requires DistinctKeys(node) && !node.String?
    ensures Selected(node, at, key, inContentArray, path)
            <==> SelectedIn(at, Children(node), node.Array? && IsContentKey(key), path)
  {
    var arrayIsContent := node.Array? && IsContentKey(key);
    if Selected(node, at, key, inContentArray, path) {
      var i := SelectedChild(node, at, key, inContentArray, path);
      OneStepDown(node, at, key, inContentArray, path, i);
      hide Selected;
      assert SelectedIn(at, Children(node), arrayIsContent, path);
    }
    if SelectedIn(at, Children(node), arrayIsContent, path) {
      var i :| 0 <= i < |Children(node)|
               && Selected(Children(node)[i].1, at + [Children(node)[i].0], Some(Children(node)[i].0),
                           arrayIsContent, path);
      BelowStep(Children(node)[i].1, at, Children(node)[i].0, arrayIsContent, path);
      OneStepDown(node, at, key, inContentArray, path, i);
    }
  }

  lemma SelectedChild(node: Value, at: Path, key: Option<Step>, inContentArray: bool, path: Path) returns (i: nat)
    requires DistinctKeys(node) && !node.String? && Selected(node, at, key, inContentArray, path)
    ensures i < |Children(node)| && |at| < |path| && path[..|at|] == at && path[|at|] == Children(node)[i].0
  {
    var rest := path[|at|..];
    assert rest != [];
    ChildrenAreSteps(node, rest[0]);
    i :| 0 <= i < |Children(node)| && Children(node)[i] == (rest[0], Child(node, rest[0]).value);
  }

  lemma BelowStep(child: Value, at: Path, step: Step, inContentArray: bool, path: Path)
    requires Selected(child, at + [step], Some(step), inContentArray, path)
    ensures |at| < |path| && path[..|at|] == at && path[|at|] == step
  {
    assert path[|at|] == path[..|at| + 1][|at|];
    assert path[..|at|] == path[..|at| + 1][..|at|];
  }

  lemma OneStepDown(node: Value, at: Path, key: Option<Step>, inContentArray: bool, path: Path, i: nat)
    requires DistinctKeys(node) && i < |Children(node)|
    requires |at| < |path| && path[..|at|] == at && path[|at|] == Children(node)[i].0
    ensures var c := Children(node)[i];
            Selected(node, at, key, inContentArray, path)
            <==> Selected(c.1, at + [c.0], Some(c.0), node.Array? && IsContentKey(key), path)
  {
    var c := Children(node)[i];
    ChildrenAreSteps(node, c.0);
    var rest := path[|at|..];
    assert rest[0] == c.0 && rest[1..] == path[|at| + 1..];
    assert path[..|at| + 1] == at + [c.0];
    assert Lookup(node, rest) == Lookup(c.1, rest[1..]);
    var below := rest[1..];
    if |below| == 1 {
      assert rest[|rest| - 1] == below[0];
      ArrayStep(c.1, below[0]);
    } else if |below| >= 2 {
      assert rest[|rest| - 1] == below[|below| - 1] && rest[|rest| - 2] == below[|below| - 2];
    }
    ItemStep(node, c.0);
  }

  lemma ArrayStep(v: Value, step: Step)
    ensures Child(v, step).Some? ==> (v.Array? <==> step.Item?)
  {
  }

  lemma ItemStep(v: Value, step: Step)
    ensures Child(v, step).Some? && v.Array? ==> step.Item? && !IsContentKey(Some(step))
  {
  }

  // ----- no leaf twice -----

  ghost predicate NoDuplicates(paths: seq<Path>) {
    forall i, j :: 0 <= i < j < |paths| ==> paths[i] != paths[j]
  }

  lemma JoinDistinct(a: seq<Path>, b: seq<Path>)
    requires NoDuplicates(a) && NoDuplicates(b) && forall p :: p in a ==> p !in b
    ensures NoDuplicates(a + b)
  {
    var all := a + b;
    forall i, j | 0 <= i < j < |all|
      ensures all[i] != all[j]
    {
      if i < |a| <= j {
        assert all[i] in a && all[j] in b;
      }
    }
  }

  lemma {:induction false} CollectDistinct(node: Value, at: Path, key: Option<Step>, inContentArray: bool)
    requires DistinctKeys(node)
    ensures NoDuplicates(Collect(node, at, key, inContentArray))
    decreases node, 1
  {
    if node.String? {
      assert |Collect(node, at, key, inContentArray)| <= 1;
    } else {
      ChildrenAreSteps(node, Item(0));
      CollectAllDistinct(node, at, Children(node), node.Array? && IsContentKey(key));
    }
  }

  lemma {:induction false} CollectAllDistinct(node: Value, at: Path, children: seq<(Step, Value)>, inContentArray: bool)
    requires forall i :: 0 <= i < |children| ==> children[i].1 < node && DistinctKeys(children[i].1)
    requires forall i, j :: 0 <= i < j < |children| ==> children[i].0 != children[j].0
    ensures NoDuplicates(CollectAll(node, at, children, inContentArray))
    decreases node, 0, |children|
  {
    if children != [] {
      var c, more := children[0], children[1..];
      CollectDistinct(c.1, at + [c.0], Some(c.0), inContentArray);
      CollectAllDistinct(node, at, more, inContentArray);
      var first := Collect(c.1, at + [c.0], Some(c.0), inContentArray);
      var others := CollectAll(node, at, more, inContentArray);
      forall p | p in first
        ensures p !in others
      {
        CollectSelects(c.1, at + [c.0], Some(c.0), inContentArray, p);
        CollectAllSelects(node, at, more, inContentArray, p);
        BelowStep(c.1, at, c.0, inContentArray, p);
        OtherBranches(at, c, more, inContentArray, p);
      }
      JoinDistinct(first, others);
    }
  }

  lemma OtherBranches(at: Path, c: (Step, Value), more: seq<(Step, Value)>, inContentArray: bool, p: Path)
    requires forall i :: 0 <= i < |more| ==> more[i].0 != c.0
    requires |at| < |p| && p[|at|] == c.0
    ensures !SelectedIn(at, more, inContentArray, p)
  {
    if i :| 0 <= i < |more| && Selected(more[i].1, at + [more[i].0], Some(more[i].0), inContentArray, p) {
      BelowStep(more[i].1, at, more[i].0, inContentArray, p);
      assert false;
    }
  }

  /** The collected locations are exactly the string leaves under a content key, each once. */
  lemma CollectExactly(body: Value, path: Path)
    requires DistinctKeys(body)
    ensures path in Collect(body, [], None, false) <==> IsStringAt(body, path) && ContentPath(path)
    ensures NoDuplicates(Collect(body, [], None, false))
  {
    CollectSelects(body, [], None, false, path);
    CollectDistinct(body, [], None, false);
    assert path[..0] == [] && path[0..] == path;
  }

  // ----- extraction and rewriting -----

  /** `{ parsed, locations }`; `parsed` is null for a body that is not JSON and for the JSON literal null. */
  datatype Extracted = Extracted(parsed: Option<Value>, locations: seq<Path>)

  datatype Output = Stringified(value: Value) | Plain(text: string)

  function TopLevel(paths: seq<Path>): (r: seq<Path>)
    ensures forall p :: p in r <==> p in paths && |p| == 1
    ensures |r| <= |paths|
  {
    if paths == [] then [] else (if |paths[0]| == 1 then [paths[0]] else []) + TopLevel(paths[1..])
  }

  /** `extractScannable` on the result of `JSON.parse`, None when it throws. */
  function Extract(body: Option<Value>): Extracted {
    match body
    case None => Extracted(None, [])
    case Some(v) =>
      var all := Collect(v, [], None, false);
      var top := TopLevel(all);
      Extracted(if v.Null? then None else Some(v), if top != [] then top else all)
  }

  /** The tree with the string at `path` replaced. */
  function Update(v: Value, path: Path, s: string): Value
    requires IsStringAt(v, path)
    decreases |path|
  {
    if path == [] then String(s)
    else
      var below := Update(Child(v, path[0]).value, path[1..], s);
      match v
      case Array(items) => Array(items[path[0].index := below])
      case Object(fields) =>
        var i := FieldIndex(fields, path[0].key);
        Object(fields[i := (fields[i].0, below)])
  }

  function ApplyRedaction(e: Extracted, sanitized: string): Output
    requires |e.locations| == 1 ==> e.parsed.Some? && IsStringAt(e.parsed.value, e.locations[0])
  {
    if |e.locations| == 1 then Stringified(Update(e.parsed.value, e.locations[0], sanitized))
    else if e.parsed.Some? then Stringified(e.parsed.value)
    else Plain(sanitized)
  }

  predicate WasRedactionApplied(e: Extracted) {
    |e.locations| == 1 || e.parsed.None?
  }

  lemma {:induction false} SameFieldIndex(fields: seq<(string, Value)>, i: nat, w: Value, key: string)
    requires i < |fields|
    ensures FieldIndex(fields[i := (fields[i].0, w)], key) == FieldIndex(fields, key)
  {
    var fields' := fields[i := (fields[i].0, w)];
    if fields[0].0 != key {
      if i == 0 {
        assert fields'[1..] == fields[1..];
      } else {
        assert fields'[1..] == fields[1..][i - 1 := (fields[1..][i - 1].0, w)];
        SameFieldIndex(fields[1..], i - 1, w, key);
      }
    }
  }

  lemma ChildOfUpdate(v: Value, path: Path, s: string, step: Step)
    requires IsStringAt(v, path) && path != []
    ensures Child(Update(v, path, s), step)
            == if step == path[0] then Some(Update(Child(v, step).value, path[1..], s)) else Child(v, step)
  {
    if v.Object? && step.Member? {
      var i := FieldIndex(v.fields, path[0].key);
      SameFieldIndex(v.fields, i, Update(Child(v, path[0]).value, path[1..], s), step.key);
    }
  }

  lemma PrefixByStep(q: Path, path: Path)
    requires q != [] && path != []
    ensures q <= path <==> q[0] == path[0] && q[1..] <= path[1..]
  {
    assert q == [q[0]] + q[1..] && path == [path[0]] + path[1..];
  }

  /** An update changes the one leaf and what contains it, and nothing else: its path reads the new text;
      every path that is not on the way to it leads to what it led to before. */
  lemma {:induction false} UpdateOneLeaf(v: Value, path: Path, s: string, q: Path)
    requires IsStringAt(v, path)
    ensures Lookup(Update(v, path, s), path) == Some(String(s))
    ensures !(q <= path) ==> Lookup(Update(v, path, s), q) == Lookup(v, q)
    ensures q <= path ==> Lookup(v, q).Some? && IsStringAt(Lookup(v, q).value, path[|q|..])
                          && Lookup(Update(v, path, s), q) == Some(Update(Lookup(v, q).value, path[|q|..], s))
    decreases |path|
  {
    if path == [] {
      LeafHasNoPaths(v, q);
      LeafHasNoPaths(String(s), q);
    } else {
      var c := Child(v, path[0]).value;
      ChildOfUpdate(v, path, s, path[0]);
      if q == [] {
        UpdateOneLeaf(c, path[1..], s, []);
        assert path[0..] == path;
      } else {
        ChildOfUpdate(v, path, s, q[0]);
        UpdateOneLeaf(c, path[1..], s, q[1..]);
        PrefixByStep(q, path);
        if q <= path {
          assert path[1..][|q| - 1..] == path[|q|..];
        }
      }
    }
  }

  /** A JSON body with one location left: the rewritten body has the sanitized text at that content leaf
      and agrees with the original on every other path. */
  lemma OneLeafRewritten(body: Value, sanitized: string, q: Path)
    requires DistinctKeys(body) && |Extract(Some(body)).locations| == 1
    ensures var p := Extract(Some(body)).locations[0];
            && IsStringAt(body, p) && ContentPath(p) && Extract(Some(body)).parsed == Some(body)
            && var out := ApplyRedaction(Extract(Some(body)), sanitized);
               && out.Stringified?
               && Lookup(out.value, p) == Some(String(sanitized))
               && (!(q <= p) ==> Lookup(out.value, q) == Lookup(body, q))
  {
    var p := Extract(Some(body)).locations[0];
    LocationsAreContent(body, p);
    UpdateOneLeaf(body, p, sanitized, q);
  }

  lemma LocationsAreContent(body: Value, p: Path)
    requires DistinctKeys(body) && p in Extract(Some(body)).locations
    ensures IsStringAt(body, p) && ContentPath(p) && !body.Null?
  {
    CollectExactly(body, p);
    if body.Null? {
      LeafHasNoPaths(body, p);
    }
  }

  /** The claim shown to the user: on a JSON body, redaction counts as applied exactly when some sanitized
      text would change what is sent; otherwise the body goes out as it came in. */
  lemma AppliedIffSubstituted(body: Value)
    requires DistinctKeys(body)
    ensures |Extract(Some(body)).locations| == 1 ==>
              Extract(Some(body)).parsed.Some?
                  && IsStringAt(Extract(Some(body)).parsed.value, Extract(Some(body)).locations[0])
    ensures WasRedactionApplied(Extract(Some(body)))
            <==> exists s :: ApplyRedaction(Extract(Some(body)), s) != Stringified(body)
  {
    var e := Extract(Some(body));
    if |e.locations| == 1 {
      LocationsAreContent(body, e.locations[0]);
      var s := Lookup(body, e.locations[0]).value.s + "!";
      OneLeafRewritten(body, s, []);
      assert ApplyRedaction(e, s) != Stringified(body);
    } else if e.parsed.None? {
      assert ApplyRedaction(e, "") == Plain("");
    }
  }

  /** When a content field sits at the top level of the body, nested content fields are not touched. */
  lemma TopLevelWins(body: Value, p: Path, q: Path)
    requires DistinctKeys(body)
    requires IsStringAt(body, p) && ContentPath(p) && |p| == 1
    ensures q in Extract(Some(body)).locations <==> IsStringAt(body, q) && ContentPath(q) && |q| == 1
  {
    CollectExactly(body, p);
    CollectExactly(body, q);
  }

  // ----- single fields -----

  /** The names of content fields. */
  lemma ContentNames(name: string)
    ensures IsContentKey(Some(Member(name)))
            <==> name == "parts" || name == "prompt" || name == "text" || name == "message" || name == "query"
                 || name == "input" || name == "content"
  {
  }

  /** A body that is no JSON, or the JSON literal null, is replaced as a whole. */
  lemma NoJsonReplaced(sanitized: string)
    ensures ApplyRedaction(Extract(None), sanitized) == Plain(sanitized)
    ensures ApplyRedaction(Extract(Some(Null)), sanitized) == Plain(sanitized)
    ensures WasRedactionApplied(Extract(None)) && WasRedactionApplied(Extract(Some(Null)))
  {
  }
}

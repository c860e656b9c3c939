/**
 Parameterized queries: the static check for missing parameters (`missing_params`)
 against what rendering the mustache template looks up.
 */
module Parameters {
  import opened Text

  /** The parse tree of a template. */
  datatype Node = Literal(text: string) | Tag(key: string) | Section(key: string, children: seq<Node>)

  /** `truthy` is Python's truth value of a scalar, which decides whether a section is rendered. */
  datatype Value = Scalar(text: string, truthy: bool) | List(items: seq<string>) | Dict(entries: map<string, Value>)

  type Values = map<string, Value>

  datatype Separator = Separator(separator: string, prefix: string, suffix: string)

  const DEFAULT_SEPARATOR := Separator(",", "", "")

  // ----- names -----

  /** The keys a template mentions, at any depth. */
  function KeyNames(nodes: seq<Node>): set<string> {
    if nodes == [] then {} else NodeKeys(nodes[0]) + KeyNames(nodes[1..])
  }

  function NodeKeys(node: Node): set<string> {
    match node
    case Literal(_) => {}
    case Tag(key) => {key}
    case Section(key, children) => {key} + KeyNames(children)
  }

  /** The names a set of parameter values covers: dotted names for the entries of a dict. */
  ghost predicate Covers(values: Values, name: string) {
    (name in values && !values[name].Dict?)
    || exists key, inner :: key in values && values[key].Dict? && inner in values[key].entries
                            && name == key + "." + inner
  }

  // ----- rendering -----

  /** An entry of the context stack: a dict, or a value in which no name can be looked up. */
  datatype Frame = Scope(values: Values) | Atom(value: Value)

  function SplitDots(s: string): (parts: seq<string>)
    ensures parts != []
  {
    if s == "" then [""]
    else
      var rest := SplitDots(s[1..]);
      if s[0] == '.' then [""] + rest else [[s[0]] + rest[0]] + rest[1..]
  }

  /** The innermost frame that knows the name. */
  function LookupSimple(stack: seq<Frame>, name: string): Option<Value> {
    if stack == [] then None
    else
      var top := stack[|stack| - 1];
      if top.Scope? && name in top.values then Some(top.values[name]) else LookupSimple(stack[..|stack| - 1], name)
  }

  /** Further parts of a dotted name are looked up in the value found for the first part only. */
  function Descend(v: Value, parts: seq<string>): Option<Value> {
    if parts == [] then Some(v)
    else if v.Dict? && parts[0] in v.entries then Descend(v.entries[parts[0]], parts[1..])
    else None
  }

  /** The current item of a section, for the key `.`. */
  function TopValue(stack: seq<Frame>): Option<Value> {
    if stack == [] then None
    else if stack[|stack| - 1].Scope? then Some(Dict(stack[|stack| - 1].values))
    else Some(stack[|stack| - 1].value)
  }

  function Lookup(stack: seq<Frame>, key: string): Option<Value> {
    if key == "." then TopValue(stack)
    else
      var parts := SplitDots(key);
      match LookupSimple(stack, parts[0])
      case None => None
      case Some(v) => Descend(v, parts[1..])
  }

  function ItemFrames(items: seq<string>): (frames: seq<Frame>)
    ensures |frames| == |items|
    ensures forall i :: 0 <= i < |items| ==> frames[i] == Atom(Scalar(items[i], items[i] != ""))
  {
    if items == [] then [] else [Atom(Scalar(items[0], items[0] != ""))] + ItemFrames(items[1..])
  }

  /** The frames a section iterates over; falsy data gives none. */
  function SectionFrames(v: Value): seq<Frame> {
    match v
    case Scalar(_, truthy) => if truthy then [Atom(v)] else []
    case List(items) => ItemFrames(items)
    case Dict(entries) => if |entries| == 0 then [] else [Scope(entries)]
  }

  /**
   Rendering as mustache does it: a tag without a value renders as nothing.
   `show` is the printed form of a value.
   */
  function Render(show: Value -> string, nodes: seq<Node>, stack: seq<Frame>): string
    decreases nodes, 0
  {
    if nodes == [] then "" else RenderNode(show, nodes[0], stack) + Render(show, nodes[1..], stack)
  }

  function RenderNode(show: Value -> string, node: Node, stack: seq<Frame>): string
    decreases node, 1
  {
    match node
    case Literal(text) => text
    case Tag(key) => if Lookup(stack, key).Some? then show(Lookup(stack, key).value) else ""
    case Section(key, children) =>
      if Lookup(stack, key).Some?
      then RenderEach(show, children, stack, SectionFrames(Lookup(stack, key).value))
      else ""
  }

  function RenderEach(show: Value -> string, children: seq<Node>, stack: seq<Frame>, frames: seq<Frame>): string
    decreases children, |frames| + 1
  {
    if frames == [] then ""
    else Render(show, children, stack + [frames[0]]) + RenderEach(show, children, stack, frames[1..])
  }

  /** Two rendered pieces, if neither of them failed. */
  function Both(a: Option<string>, b: Option<string>): Option<string> {
    if a.Some? && b.Some? then Some(a.value + b.value) else None
  }

  /** Rendering that fails at the first tag or section without a value. */
  function RenderStrict(show: Value -> string, nodes: seq<Node>, stack: seq<Frame>): Option<string>
    decreases nodes, 0
  {
    if nodes == [] then Some("") else Both(StrictNode(show, nodes[0], stack), RenderStrict(show, nodes[1..], stack))
  }

  function StrictNode(show: Value -> string, node: Node, stack: seq<Frame>): Option<string>
    decreases node, 1
  {
    match node
    case Literal(text) => Some(text)
    case Tag(key) => if Lookup(stack, key).Some? then Some(show(Lookup(stack, key).value)) else None
    case Section(key, children) =>
      if Lookup(stack, key).Some?
      then StrictEach(show, children, stack, SectionFrames(Lookup(stack, key).value))
      else None
  }

  function StrictEach(show: Value -> string, children: seq<Node>, stack: seq<Frame>, frames: seq<Frame>): Option<string>
    decreases children, |frames| + 1
  {
    if frames == [] then Some("")
    else Both(RenderStrict(show, children, stack + [frames[0]]), StrictEach(show, children, stack, frames[1..]))
  }

  // ----- list values -----

  function Affix(sep: Separator, items: seq<string>): seq<string> {
    if items == [] then [] else [sep.prefix + items[0] + sep.suffix] + Affix(sep, items[1..])
  }

  /** The text a list value becomes. */
  function Joined(sep: Separator, items: seq<string>): Value {
    var text := JoinWith(sep.separator, Affix(sep, items));
    Scalar(text, text != "")
  }

  /** `join_parameter_list_values`; the schema holds the separators of multi-value parameters. */
  function JoinLists(values: Values, schema: map<string, Separator>): (r: Values)
    ensures r.Keys == values.Keys
    ensures forall k :: k in values ==>
                          !r[k].List? && (r[k].Dict? <==> values[k].Dict?) && (r[k].Dict? ==> r[k] == values[k])
  {
    map k | k in values ::
      if values[k].List?
      then Joined(if k in schema then schema[k] else DEFAULT_SEPARATOR, values[k].items)
      else values[k]
  }

  // ----- soundness -----

  predicate DotFree(s: string) {
    forall i :: 0 <= i < |s| ==> s[i] != '.'
  }

  /** Dicts whose entries are not dicts themselves. */
  predicate OneLevel(values: Values) {
    forall k :: k in values && values[k].Dict? ==> forall e :: e in values[k].entries ==> !values[k].entries[e].Dict?
  }

  /** Names without dots. */
  predicate Dotless(values: Values) {
    forall k :: k in values ==> DotFree(k) && (values[k].Dict? ==> forall e :: e in values[k].entries ==> DotFree(e))
  }

  ghost predicate IsEntry(values: Values, name: string) {
    exists k, e :: k in values && values[k].Dict? && e in values[k].entries && DotFree(k) && DotFree(e)
                   && name == k + "." + e
  }

  /** The names rendering can look up: the current item, plain names without dots, entries of dicts. */
  ghost predicate Reachable(values: Values, name: string) {
    name == "." || (name in values && DotFree(name)) || IsEntry(values, name)
  }

  /**
   What `known` counts as given is there for rendering with `values`. A plain name must be
   among the values and free of dots, or spell an entry of a dict; an entry of a dict needs
   the dict among the values and no dots. The name `.` always has a value.
   */
  ghost predicate Answered(known: Values, values: Values) {
    forall k :: k in known ==>
                  if known[k].Dict? then
                    forall e :: e in known[k].entries ==>
                      (k == "" && e == "") || (k in values && DotFree(k) && DotFree(e))
                  else Reachable(values, k)
  }

  /** `values` were given last, after those only in `known`. */
  predicate Extends(known: Values, values: Values) {
    forall k :: k in values ==> k in known && known[k] == values[k]
  }

  lemma {:induction false} SplitPlain(s: string)
    requires DotFree(s)
    ensures SplitDots(s) == [s]
  {
    if s != "" {
      SplitPlain(s[1..]);
      assert s == [s[0]] + s[1..];
    }
  }

  lemma {:induction false} SplitPair(a: string, b: string)
    requires DotFree(a) && DotFree(b)
    ensures SplitDots(a + "." + b) == [a, b]
  {
    var s := a + "." + b;
    if a == "" {
      SplitPlain(b);
      assert s[1..] == b;
    } else {
      SplitPair(a[1..], b);
      assert s[1..] == a[1..] + "." + b;
      assert a == [a[0]] + a[1..];
    }
  }

  /** A context stack as rendering builds it from flat values: `.` can only push the values again. */
  predicate BasedOn(stack: seq<Frame>, values: Values) {
    stack != [] && stack[0] == Scope(values)
    && forall i :: 0 <= i < |stack| ==> IsPlainFrame(stack[i], values)
  }

  predicate IsPlainFrame(f: Frame, values: Values) {
    if f.Scope? then f.values == values else !f.value.Dict?
  }

  lemma {:induction false} LookupReachesBase(stack: seq<Frame>, values: Values, name: string)
    requires BasedOn(stack, values)
    ensures LookupSimple(stack, name) == if name in values then Some(values[name]) else None
  {
    if |stack| > 1 {
      LookupReachesBase(stack[..|stack| - 1], values, name);
    }
  }

  lemma {:induction false} SplitJoins(s: string)
    ensures JoinWith(".", SplitDots(s)) == s
    ensures forall i :: 0 <= i < |SplitDots(s)| ==> DotFree(SplitDots(s)[i])
  {
    if s != "" {
      var rest := SplitDots(s[1..]);
      SplitJoins(s[1..]);
      assert s == [s[0]] + s[1..];
      if s[0] == '.' {
        assert ([""] + rest)[1..] == rest;
        assert JoinWith(".", [""] + rest) == "" + "." + JoinWith(".", rest);
      } else {
        var parts := [[s[0]] + rest[0]] + rest[1..];
        assert parts[1..] == rest[1..];
        assert DotFree(rest[0]);
      }
    }
  }

  lemma DescendFlat(v: Value, parts: seq<string>)
    requires v.Dict? ==> forall e :: e in v.entries ==> !v.entries[e].Dict?
    ensures Descend(v, parts).Some? <==> parts == [] || (v.Dict? && |parts| == 1 && parts[0] in v.entries)
  {
  }

  /**
   Under every such stack exactly the reachable names resolve. When no name has a dot,
   these are the names the check counts as given, the current item `.`, and the bare names
   of dicts, which the check reports as missing.
   */
  lemma ResolvesExactly(stack: seq<Frame>, values: Values, schema: map<string, Separator>, name: string)
    requires OneLevel(values) && BasedOn(stack, JoinLists(values, schema))
    ensures Lookup(stack, name).Some? <==> Reachable(values, name)
    ensures Dotless(values) ==>
              (Reachable(values, name) <==>
               Covers(values, name) || name == "." || (name in values && values[name].Dict?))
  {
    var base := JoinLists(values, schema);
    var parts := SplitDots(name);
    LookupReachesBase(stack, base, parts[0]);
    SplitJoins(name);
    if name != "." && Lookup(stack, name).Some? {
      DescendFlat(base[parts[0]], parts[1..]);
      if |parts| > 1 {
        assert JoinWith(".", parts) == parts[0] + "." + JoinWith(".", parts[1..]);
        assert IsEntry(values, parts[0] + "." + parts[1]);
      }
    }
    if name != "." && IsEntry(values, name) {
      EntryResolves(stack, values, schema, name);
    } else if name in values && DotFree(name) {
      SplitPlain(name);
    }
  }

  lemma EntryResolves(stack: seq<Frame>, values: Values, schema: map<string, Separator>, name: string)
    requires OneLevel(values) && BasedOn(stack, JoinLists(values, schema)) && IsEntry(values, name) && name != "."
    ensures Lookup(stack, name).Some? && !Lookup(stack, name).value.Dict?
  {
    var base := JoinLists(values, schema);
    var k, e :| k in values && values[k].Dict? && e in values[k].entries && DotFree(k) && DotFree(e)
                && name == k + "." + e;
    SplitPair(k, e);
    LookupReachesBase(stack, base, k);
    assert Descend(base[k], [e]) == Descend(base[k].entries[e], []);
  }

  lemma PairHasDot(k: string, e: string)
    ensures !DotFree(k + "." + e)
  {
    assert (k + "." + e)[|k|] == '.';
  }

  /** Under every such stack a covered name resolves; what it resolves to keeps the stack in shape. */
  lemma CoveredResolves(stack: seq<Frame>, known: Values, values: Values, schema: map<string, Separator>, name: string)
    requires OneLevel(values) && Extends(known, values) && Answered(known, values)
    requires Covers(known, name) && BasedOn(stack, JoinLists(values, schema))
    ensures Lookup(stack, name).Some?
    ensures Lookup(stack, name).value.Dict? ==> Lookup(stack, name).value == Dict(JoinLists(values, schema))
  {
    CoveredIsReachable(known, values, name);
    ResolvesExactly(stack, values, schema, name);
    if name == "." {
    } else if IsEntry(values, name) {
      EntryResolves(stack, values, schema, name);
    } else {
      SplitPlain(name);
      LookupReachesBase(stack, JoinLists(values, schema), name);
    }
  }

  lemma CoveredIsReachable(known: Values, values: Values, name: string)
    requires Extends(known, values) && Answered(known, values) && Covers(known, name)
    ensures Reachable(values, name)
    ensures name == "." || IsEntry(values, name) || !values[name].Dict?
  {
    if !(name in known && !known[name].Dict?) {
      var k, e :| k in known && known[k].Dict? && e in known[k].entries && name == k + "." + e;
      assert name == "." || IsEntry(values, name);
    }
  }

  /** No key of the template is left without a name. */
  ghost predicate AllCovered(keys: set<string>, values: Values) {
    forall k :: k in keys ==> Covers(values, k)
  }

  lemma {:induction false} CoveredNodes(
    show: Value -> string, nodes: seq<Node>, known: Values, values: Values, schema: map<string, Separator>,
    stack: seq<Frame>)
    requires OneLevel(values) && Extends(known, values) && Answered(known, values)
    requires AllCovered(KeyNames(nodes), known) && BasedOn(stack, JoinLists(values, schema))
    ensures RenderStrict(show, nodes, stack) == Some(Render(show, nodes, stack))
    decreases nodes, 0
  {
    if nodes != [] {
      CoveredNode(show, nodes[0], known, values, schema, stack);
      CoveredNodes(show, nodes[1..], known, values, schema, stack);
    }
  }

  lemma {:induction false} CoveredNode(
    show: Value -> string, node: Node, known: Values, values: Values, schema: map<string, Separator>, stack: seq<Frame>)
    requires OneLevel(values) && Extends(known, values) && Answered(known, values)
    requires AllCovered(NodeKeys(node), known) && BasedOn(stack, JoinLists(values, schema))
    ensures StrictNode(show, node, stack) == Some(RenderNode(show, node, stack))
    decreases node, 1
  {
    match node
    case Literal(_) =>
    case Tag(key) => CoveredResolves(stack, known, values, schema, key);
    case Section(key, children) =>
      CoveredResolves(stack, known, values, schema, key);
      CoveredEach(show, children, known, values, schema, stack, SectionFrames(Lookup(stack, key).value));
  }

  lemma {:induction false} CoveredEach(
    show: Value -> string, children: seq<Node>, known: Values, values: Values, schema: map<string, Separator>,
    stack: seq<Frame>, frames: seq<Frame>)
    requires OneLevel(values) && Extends(known, values) && Answered(known, values)
    requires AllCovered(KeyNames(children), known) && BasedOn(stack, JoinLists(values, schema))
    requires forall f :: f in frames ==> IsPlainFrame(f, JoinLists(values, schema))
    ensures StrictEach(show, children, stack, frames) == Some(RenderEach(show, children, stack, frames))
    decreases children, |frames| + 1
  {
    if frames != [] {
      assert frames[0] in frames && forall f :: f in frames[1..] ==> f in frames;
      CoveredNodes(show, children, known, values, schema, stack + [frames[0]]);
      CoveredEach(show, children, known, values, schema, stack, frames[1..]);
    }
  }

  // ----- the program -----

  method Distinct(keys: seq<string>) returns (r: seq<string>)
    ensures forall k :: k in r <==> k in keys
    ensures forall i, j :: 0 <= i < j < |r| ==> r[i] != r[j]
  {
    r := [];
    for i := 0 to |keys|
      invariant forall k :: k in r <==> k in keys[..i]
      invariant forall m, n :: 0 <= m < n < |r| ==> r[m] != r[n]
    {
      if keys[i] !in r {
        r := r + [keys[i]];
      }
    }
  }

  /** `_collect_key_names`: every key of the template once. */
  method CollectKeyNames(nodes: seq<Node>) returns (r: seq<string>)
    ensures forall k :: k in r <==> k in KeyNames(nodes)
    ensures forall i, j :: 0 <= i < j < |r| ==> r[i] != r[j]
    decreases nodes
  {
    var keys: seq<string> := [];
    for i := 0 to |nodes|
      invariant forall k :: k in keys || k in KeyNames(nodes[i..]) <==> k in KeyNames(nodes)
    {
      assert nodes[i..][0] == nodes[i] && nodes[i..][1..] == nodes[i + 1..];
      match nodes[i]
      case Literal(_) =>
      case Tag(key) => keys := keys + [key];
      case Section(key, children) =>
        var inner := CollectKeyNames(children);
        keys := keys + [key] + inner;
    }
    r := Distinct(keys);
  }

  /** `_parameter_names`: the names the given values cover. */
  method ParameterNames(values: Values) returns (names: set<string>)
    ensures forall n :: n in names <==> Covers(values, n)
  {
    names := {};
    var todo := values.Keys;
    while todo != {}
      invariant todo <= values.Keys
      invariant forall n :: n in names <==>
                              (n in values.Keys - todo && !values[n].Dict?)
                              || exists key, inner :: key in values.Keys - todo && values[key].Dict?
                                                      && inner in values[key].entries && n == key + "." + inner
    {
      var key :| key in todo;
      if values[key].Dict? {
        names := names + set inner | inner in values[key].entries :: key + "." + inner;
      } else {
        names := names + {key};
      }
      todo := todo - {key};
    }
  }

  class ParameterizedQuery {
    const template: seq<Node>
    const schema: map<string, Separator>
    const show: Value -> string
    /** `_valid`: whether a value fits its definition in the schema. */
    const valid: (string, Value) -> bool
    var parameters: Values
    var query: string

    constructor (
      template: seq<Node>, source: string, schema: map<string, Separator>, show: Value -> string,
      valid: (string, Value) -> bool)
      ensures this.template == template && this.schema == schema && this.show == show && this.valid == valid
      ensures parameters == map[] && query == source
    {
      this.template, this.schema, this.show, this.valid := template, schema, show, valid;
      parameters, query := map[], source;
    }

    ghost predicate Missing(key: string)
      reads this
    {
      key in KeyNames(template) && !Covers(parameters, key)
    }

    /** Invalid values are refused without any effect; valid ones are remembered and rendered. */
    method Apply(values: Values) returns (invalid: set<string>)
      modifies this
      ensures invalid == set k | k in values && !valid(k, values[k])
      ensures invalid != {} ==> parameters == old(parameters) && query == old(query)
      ensures invalid == {} ==>
                parameters == old(parameters) + values
                && query == Render(show, template, [Scope(JoinLists(values, schema))])
      ensures invalid == {} && OneLevel(values) && Answered(parameters, values) && (forall k :: !Missing(k)) ==>
                RenderStrict(show, template, [Scope(JoinLists(values, schema))]) == Some(query)
    {
      invalid := set k | k in values && !valid(k, values[k]);
      if invalid == {} {
        parameters := parameters + values;
        query := Render(show, template, [Scope(JoinLists(values, schema))]);
        if OneLevel(values) && Answered(parameters, values) && forall k :: !Missing(k) {
          assert forall k :: k in KeyNames(template) && !Covers(parameters, k) ==> Missing(k);
          CoveredNodes(show, template, parameters, values, schema, [Scope(JoinLists(values, schema))]);
        }
      }
    }

    method MissingParams() returns (missing: set<string>)
      ensures forall k :: k in missing <==> Missing(k)
    {
      var keys := CollectKeyNames(template);
      var names := ParameterNames(parameters);
      missing := (set k | k in keys) - names;
    }
  }

  // ----- how far the check reaches -----

  /**
   For every template: if no key is missing from `known`, rendering with `values` finds a
   value for every tag and section it meets.
   */
  ghost predicate CheckIsSound(show: Value -> string, known: Values, values: Values, schema: map<string, Separator>) {
    forall template: seq<Node> ::
      AllCovered(KeyNames(template), known) ==>
        var stack := [Scope(JoinLists(values, schema))];
        RenderStrict(show, template, stack) == Some(Render(show, template, stack))
  }

  /** The check is sound for every template exactly when everything it counts is there for rendering. */
  lemma SoundIffAnswered(show: Value -> string, known: Values, values: Values, schema: map<string, Separator>)
    requires OneLevel(values) && Extends(known, values)
    ensures CheckIsSound(show, known, values, schema) <==> Answered(known, values)
  {
    if Answered(known, values) {
      forall template: seq<Node> | AllCovered(KeyNames(template), known)
        ensures var stack := [Scope(JoinLists(values, schema))];
                RenderStrict(show, template, stack) == Some(Render(show, template, stack))
      {
        CoveredNodes(show, template, known, values, schema, [Scope(JoinLists(values, schema))]);
      }
    }
    if CheckIsSound(show, known, values, schema) {
      forall name | Covers(known, name)
        ensures Reachable(values, name)
      {
        SoundTag(show, known, values, schema, name);
      }
      ReachableIsAnswered(known, values);
    }
  }

  lemma SoundTag(show: Value -> string, known: Values, values: Values, schema: map<string, Separator>, name: string)
    requires OneLevel(values) && CheckIsSound(show, known, values, schema) && Covers(known, name)
    ensures Reachable(values, name)
  {
    var template, stack := [Tag(name)], [Scope(JoinLists(values, schema))];
    assert KeyNames(template) == NodeKeys(Tag(name)) + KeyNames([]);
    assert RenderStrict(show, template, stack) ==
      Both(StrictNode(show, Tag(name), stack), RenderStrict(show, [], stack));
    ResolvesExactly(stack, values, schema, name);
  }

  lemma ReachableIsAnswered(known: Values, values: Values)
    requires forall name :: Covers(known, name) ==> Reachable(values, name)
    ensures Answered(known, values)
  {
    forall k | k in known && !known[k].Dict?
      ensures Reachable(values, k)
    {
      assert Covers(known, k);
    }
    forall k | k in known && known[k].Dict?
      ensures forall e :: e in known[k].entries ==> (k == "" && e == "") || (k in values && DotFree(k) && DotFree(e))
    {
      forall e | e in known[k].entries
        ensures (k == "" && e == "") || (k in values && DotFree(k) && DotFree(e))
      {
        assert Covers(known, k + "." + e);
        ReachablePair(values, k, e);
      }
    }
  }

  lemma ReachablePair(values: Values, k: string, e: string)
    requires Reachable(values, k + "." + e)
    ensures (k == "" && e == "") || (k in values && DotFree(k) && DotFree(e))
  {
    PairHasDot(k, e);
    if k + "." + e == "." {
      assert |k + "." + e| == |k| + 1 + |e|;
    } else {
      var a, b :| a in values && values[a].Dict? && b in values[a].entries && DotFree(a) && DotFree(b)
                  && k + "." + e == a + "." + b;
      SameHalves(k, e, a, b);
    }
  }

  lemma SameHalves(k: string, e: string, a: string, b: string)
    requires DotFree(a) && DotFree(b) && k + "." + e == a + "." + b
    ensures k == a && e == b
  {
    var s := k + "." + e;
    assert s[|k|] == '.';
    assert forall i :: |a| < i < |s| ==> s[i] == b[i - |a| - 1];
    assert forall i :: 0 <= i < |a| ==> s[i] == a[i];
    assert k == s[..|k|] && e == s[|k| + 1..];
  }

  /**
   After a second `apply` the check still counts the values of the first, which rendering
   no longer sees. With names free of dots it stays sound for every template exactly when
   each key that was only given earlier counts for nothing: it holds a dict without
   entries (an entry that spells the current item `.` aside).
   */
  lemma SecondApplySound(show: Value -> string, before: Values, values: Values, schema: map<string, Separator>)
    requires OneLevel(values) && Dotless(before) && Dotless(values)
    ensures CheckIsSound(show, before + values, values, schema)
            <==> forall k :: k in before && k !in values ==>
                               before[k].Dict? && before[k].entries.Keys <= (if k == "" then {""} else {})
  {
    SoundIffAnswered(show, before + values, values, schema);
    var known := before + values;
    forall k | k in before && k !in values && !before[k].Dict?
      ensures !Reachable(values, k)
    {
      assert DotFree(k) && !DotFree(".") by {
        assert "."[0] == '.';
      }
      if IsEntry(values, k) {
        var a, b :| a in values && values[a].Dict? && b in values[a].entries && DotFree(a) && DotFree(b)
                    && k == a + "." + b;
        PairHasDot(a, b);
      }
    }
    if Answered(known, values) {
      forall k | k in before && k !in values
        ensures before[k].Dict? && before[k].entries.Keys <= (if k == "" then {""} else {})
      {
        assert k in known && known[k] == before[k];
      }
    }
  }

  /**
   On a fresh object only dots in names stand between the check and rendering: it is sound
   for every template exactly when dicts with entries and their entries have no dots, and
   every other dotted name spells an entry of a dict.
   */
  lemma FirstApplySound(show: Value -> string, values: Values, schema: map<string, Separator>)
    requires OneLevel(values)
    ensures CheckIsSound(show, values, values, schema)
            <==> forall k :: k in values ==>
                               if values[k].Dict? then forall e :: e in values[k].entries ==> DotFree(k) && DotFree(e)
                               else DotFree(k) || k == "." || IsEntry(values, k)
  {
    SoundIffAnswered(show, values, values, schema);
  }
}

/**
 What rendering a parameterized query prints: list values, plain text, tags and sections.
 */
module RenderingLaws {
  import opened Text
  import opened Parameters

  // ----- list values -----

  function ItemsText(sep: Separator, items: seq<string>): string {
    JoinWith(sep.separator, Affix(sep, items))
  }

  lemma {:induction false} AffixConcat(sep: Separator, a: seq<string>, b: seq<string>)
    ensures Affix(sep, a + b) == Affix(sep, a) + Affix(sep, b) && |Affix(sep, a)| == |a|
  {
    if a == [] {
      assert a + b == b;
    } else {
      AffixConcat(sep, a[1..], b);
      assert (a + b)[1..] == a[1..] + b;
    }
  }

  /**
   A list value becomes the text of its items in order, each between prefix and suffix, with
   the separator between neighbours: the laws determine the text of every list.
   */
  lemma JoinedText(sep: Separator, x: string, a: seq<string>, b: seq<string>)
    ensures Joined(sep, []) == Scalar("", false)
    ensures Joined(sep, a).Scalar? && (Joined(sep, a).truthy <==> Joined(sep, a).text != "")
    ensures Joined(sep, [x]).text == sep.prefix + x + sep.suffix
    ensures a != [] && b != [] ==>
              Joined(sep, a + b).text == Joined(sep, a).text + sep.separator + Joined(sep, b).text
  {
    assert Affix(sep, [x]) == [sep.prefix + x + sep.suffix];
    AffixConcat(sep, a, b);
    if a != [] && b != [] {
      AffixConcat(sep, b, []);
      JoinConcat(sep.separator, Affix(sep, a), Affix(sep, b));
    }
  }

  /** Only list values are changed, with the separators of their definition or a comma without prefix and suffix. */
  lemma JoinedLists(values: Values, schema: map<string, Separator>, k: string)
    requires k in values
    ensures JoinLists(values, schema).Keys == values.Keys
    ensures JoinLists(values, schema)[k] ==
            if !values[k].List? then values[k]
            else Joined(if k in schema then schema[k] else Separator(",", "", ""), values[k].items)
  {
  }

  // ----- rendering -----

  lemma {:induction false} RenderConcat(show: Value -> string, a: seq<Node>, b: seq<Node>, stack: seq<Frame>)
    ensures Render(show, a + b, stack) == Render(show, a, stack) + Render(show, b, stack)
  {
    if a == [] {
      assert a + b == b;
    } else {
      RenderConcat(show, a[1..], b, stack);
      assert (a + b)[1..] == a[1..] + b && (a + b)[0] == a[0];
      RenderCons(show, a, stack);
      RenderCons(show, a + b, stack);
      Associative(RenderNode(show, a[0], stack), Render(show, a[1..], stack), Render(show, b, stack));
    }
  }

  lemma RenderCons(show: Value -> string, nodes: seq<Node>, stack: seq<Frame>)
    requires nodes != []
    ensures Render(show, nodes, stack) == RenderNode(show, nodes[0], stack) + Render(show, nodes[1..], stack)
  {
  }

  /** Plain text is copied. */
  lemma RenderLiteral(show: Value -> string, text: string, stack: seq<Frame>)
    ensures Render(show, [Literal(text)], stack) == text
  {
    assert Render(show, [Literal(text)], stack) == text + Render(show, [], stack);
  }

  /** At the top a tag prints the plain value of its name, the value of its entry, or nothing. */
  lemma RenderTag(show: Value -> string, key: string, values: Values)
    requires OneLevel(values) && key != "."
    ensures var text := Render(show, [Tag(key)], [Scope(values)]);
            if key in values && DotFree(key) then text == show(values[key])
            else !Reachable(values, key) ==> text == ""
  {
    var stack := [Scope(values)];
    assert Render(show, [Tag(key)], stack) == RenderNode(show, Tag(key), stack) + Render(show, [], stack);
    LookupReachesBase(stack, values, SplitDots(key)[0]);
    if key in values && DotFree(key) {
      SplitPlain(key);
    } else if !Reachable(values, key) {
      Unreachable(stack, values, key);
    }
  }

  lemma Unreachable(stack: seq<Frame>, values: Values, key: string)
    requires OneLevel(values) && stack == [Scope(values)] && !Reachable(values, key)
    ensures Lookup(stack, key).None?
  {
    var parts := SplitDots(key);
    SplitJoins(key);
    LookupReachesBase(stack, values, parts[0]);
    if Lookup(stack, key).Some? {
      DescendFlat(values[parts[0]], parts[1..]);
      if |parts| > 1 {
        assert JoinWith(".", parts) == parts[0] + "." + JoinWith(".", parts[1..]);
        assert IsEntry(values, parts[0] + "." + parts[1]);
      }
    }
  }

  /** A dotted tag prints the entry of the dict. */
  lemma RenderEntry(show: Value -> string, k: string, e: string, values: Values)
    requires DotFree(k) && DotFree(e) && k + "." + e != "."
    requires k in values && values[k].Dict? && e in values[k].entries
    ensures Render(show, [Tag(k + "." + e)], [Scope(values)]) == show(values[k].entries[e])
  {
    var key, stack := k + "." + e, [Scope(values)];
    SplitPair(k, e);
    LookupReachesBase(stack, values, k);
    assert Descend(values[k], [e]) == Descend(values[k].entries[e], []);
    assert Render(show, [Tag(key)], stack) == RenderNode(show, Tag(key), stack) + Render(show, [], stack);
  }

  /** How often a section prints its content for a value. */
  function Rounds(v: Value): nat {
    match v
    case Scalar(_, truthy) => if truthy then 1 else 0
    case List(items) => |items|
    case Dict(entries) => if |entries| == 0 then 0 else 1
  }

  function Times(n: nat, text: string): string {
    if n == 0 then "" else text + Times(n - 1, text)
  }

  lemma {:induction false} RenderEachText(show: Value -> string, text: string, stack: seq<Frame>, frames: seq<Frame>)
    ensures RenderEach(show, [Literal(text)], stack, frames) == Times(|frames|, text)
  {
    if frames != [] {
      RenderEachText(show, text, stack, frames[1..]);
      RenderLiteral(show, text, stack + [frames[0]]);
    }
  }

  /** A section over plain text prints it once for each item, once for any other true value, and else not at all. */
  lemma RenderSection(show: Value -> string, key: string, text: string, stack: seq<Frame>)
    ensures Render(show, [Section(key, [Literal(text)])], stack) ==
            match Lookup(stack, key)
            case None => ""
            case Some(v) => Times(Rounds(v), text)
  {
    var node := Section(key, [Literal(text)]);
    assert Render(show, [node], stack) == RenderNode(show, node, stack) + Render(show, [], stack);
    if Lookup(stack, key).Some? {
      RenderEachText(show, text, stack, SectionFrames(Lookup(stack, key).value));
    }
  }

  function ShownItems(show: Value -> string, items: seq<string>): string {
    if items == [] then "" else show(Scalar(items[0], items[0] != "")) + ShownItems(show, items[1..])
  }

  lemma {:induction false} RenderItemFrames(show: Value -> string, items: seq<string>, stack: seq<Frame>)
    ensures RenderEach(show, [Tag(".")], stack, ItemFrames(items)) == ShownItems(show, items)
  {
    if items != [] {
      RenderItemFrames(show, items[1..], stack);
      var frame := Atom(Scalar(items[0], items[0] != ""));
      assert ItemFrames(items)[0] == frame && ItemFrames(items)[1..] == ItemFrames(items[1..]);
      RenderCons(show, [Tag(".")], stack + [frame]);
      assert Lookup(stack + [frame], ".") == Some(frame.value);
    }
  }

  /** In a section over a list the tag `.` prints the items one after the other. */
  lemma RenderItems(show: Value -> string, key: string, items: seq<string>, stack: seq<Frame>)
    requires Lookup(stack, key) == Some(List(items))
    ensures Render(show, [Section(key, [Tag(".")])], stack) == ShownItems(show, items)
  {
    RenderCons(show, [Section(key, [Tag(".")])], stack);
    RenderItemFrames(show, items, stack);
  }

  // ----- the keys of a template -----

  /** The keys are those of the tags and sections, at any depth, and no others. */
  lemma {:induction false} KeysExactly(a: seq<Node>, b: seq<Node>, key: string, text: string)
    ensures KeyNames([]) == {} && KeyNames([Literal(text)]) == {} && KeyNames([Tag(key)]) == {key}
    ensures KeyNames([Section(key, a)]) == {key} + KeyNames(a)
    ensures KeyNames(a + b) == KeyNames(a) + KeyNames(b)
  {
    OneKeyNode(Literal(text));
    OneKeyNode(Tag(key));
    OneKeyNode(Section(key, a));
    KeysConcat(a, b);
  }

  lemma OneKeyNode(node: Node)
    ensures KeyNames([node]) == NodeKeys(node)
  {
    assert KeyNames([node]) == NodeKeys(node) + KeyNames([]);
  }

  lemma {:induction false} KeysConcat(a: seq<Node>, b: seq<Node>)
    ensures KeyNames(a + b) == KeyNames(a) + KeyNames(b)
  {
    if a == [] {
      assert a + b == b;
    } else {
      KeysConcat(a[1..], b);
      assert (a + b)[1..] == a[1..] + b;
    }
  }

  // ----- sections over dicts -----

  /** Inside a section over a dict its entries hide the names around it. */
  lemma RenderInDict(show: Value -> string, d: string, k: string, values: Values)
    requires DotFree(d) && DotFree(k) && d in values && values[d].Dict? && values[d].entries != map[]
    ensures Render(show, [Section(d, [Tag(k)])], [Scope(values)]) ==
            if k in values[d].entries then show(values[d].entries[k])
            else if k in values then show(values[k]) else ""
  {
    var stack, inner := [Scope(values)], [Scope(values), Scope(values[d].entries)];
    var node := Section(d, [Tag(k)]);
    SplitPlain(d);
    SplitPlain(k);
    DotIsNotFree();
    LookupReachesBase(stack, values, d);
    LookupReachesBase(stack, values, k);
    assert Lookup(stack, d) == Some(values[d]);
    assert Render(show, [node], stack) == RenderNode(show, node, stack) + Render(show, [], stack);
    assert values[d].entries.Keys != {};
    assert |values[d].entries| == |values[d].entries.Keys| != 0;
    assert stack + [Scope(values[d].entries)] == inner && inner[..1] == stack;
    assert LookupSimple(inner, k) ==
           if k in values[d].entries then Some(values[d].entries[k]) else LookupSimple(stack, k);
    assert Render(show, [Tag(k)], inner) == RenderNode(show, Tag(k), inner) + Render(show, [], inner);
    RenderOnce(show, [Tag(k)], stack, Scope(values[d].entries));
  }

  lemma DotIsNotFree()
    ensures !DotFree(".")
  {
    assert "."[0] == '.';
  }

  lemma RenderOnce(show: Value -> string, children: seq<Node>, stack: seq<Frame>, frame: Frame)
    ensures RenderEach(show, children, stack, [frame]) == Render(show, children, stack + [frame])
  {
    assert RenderEach(show, children, stack, [frame]) ==
           Render(show, children, stack + [frame]) + RenderEach(show, children, stack, []);
  }
}

/** How deep a text may nest, in brackets: 513 arrays or objects inside each other, the outermost at depth 0
    (cpp/src/json.cpp:93-94). */
module JsonDepth {
  import opened Json
  import opened JsonGrammar

  /** So many arrays, each the only item of the one around it; or objects, each under the empty name. */
  function Nest(objects: bool, k: nat): Node
    requires k > 0
  {
    if objects then ObjectNode("", if k == 1 then [] else [InObject(Nest(objects, k - 1))])
    else ArrayNode("", if k == 1 then [] else [InArray(Nest(objects, k - 1))])
  }

  function InArray(n: Node): Item { Item("", n, "") }

  function InObject(n: Node): Field { Field("", [], "", "", n, "") }

  function Opening(objects: bool, k: nat): string
    requires k > 0
  {
    if k == 1 then (if objects then "{" else "[")
    else (if objects then "{\"\":" else "[") + Opening(objects, k - 1)
  }

  function Closing(objects: bool, k: nat): string {
    if k == 0 then "" else Closing(objects, k - 1) + (if objects then "}" else "]")
  }

  lemma {:induction false} ArrayOn(n: Node, rest: string)
    ensures NodeOn(ArrayNode("", [InArray(n)]), rest) == "[" + NodeOn(n, "]" + rest)
  {
    var items := [InArray(n)];
    assert items[0] == InArray(n) && AfterItem(items, rest) == "]" + rest;
    Nothing("]" + rest);
    Nothing(NodeOn(n, "]" + rest));
    assert ItemsOn(items, rest) == NodeOn(n, "]" + rest);
  }

  lemma {:induction false} ObjectOn(n: Node, rest: string)
    ensures NodeOn(ObjectNode("", [InObject(n)]), rest) == "{\"\":" + NodeOn(n, "}" + rest)
  {
    var fields, value := [InObject(n)], NodeOn(n, "}" + rest);
    assert fields[0] == InObject(n) && AfterField(fields, rest) == "}" + rest;
    Nothing("}" + rest);
    Nothing(value);
    Nothing(":" + value);
    Nothing(StringOn([], ":" + value));
    assert StringOn([], ":" + value) == "\"" + ("\"" + (":" + value));
    assert FieldsOn(fields, rest) == StringOn([], ":" + value);
    EmptyName(value);
  }

  lemma Nothing(s: string)
    ensures "" + s == s
  {
  }

  lemma EmptyName(value: string)
    ensures "{" + ("\"" + ("\"" + (":" + value))) == "{\"\":" + value
  {
  }

  lemma Around(open: string, inner: string, outer: string, close: string, rest: string)
    ensures open + (inner + (outer + (close + rest))) == (open + inner) + ((outer + close) + rest)
  {
  }

  lemma {:induction false} NestIs(objects: bool, k: nat, rest: string, depth: nat, limit: nat)
    requires k > 0
    ensures IsNode(Nest(objects, k)) && (Shallow(Nest(objects, k), depth, limit) <==> depth + k - 1 <= limit)
    ensures NodeOn(Nest(objects, k), rest) == Opening(objects, k) + (Closing(objects, k) + rest)
  {
    if k > 1 {
      var n := Nest(objects, k - 1);
      if objects {
        NestIs(objects, k - 1, "}" + rest, depth + 1, limit);
        ObjectOn(n, rest);
        Around("{\"\":", Opening(objects, k - 1), Closing(objects, k - 1), "}", rest);
      } else {
        NestIs(objects, k - 1, "]" + rest, depth + 1, limit);
        ArrayOn(n, rest);
        Around("[", Opening(objects, k - 1), Closing(objects, k - 1), "]", rest);
      }
    } else {
      assert "" + ((if objects then "}" else "]") + rest) == Closing(objects, 1) + rest;
    }
  }

  /** 513 brackets inside each other are parsed, and 514 are not. */
  lemma {:induction false} BracketsParse(objects: bool, k: nat)
    requires k > 0
    ensures ParseDocument(Opening(objects, k) + Closing(objects, k), 512).Got? <==> k <= 513
  {
    var t := Opening(objects, k) + Closing(objects, k);
    NestIs(objects, k, "", 0, 512);
    assert Closing(objects, k) + "" == Closing(objects, k);
    ParseNode(Nest(objects, k), "", 0, 512);
    NodeBegins(Nest(objects, k), "");
    NoMark("", Nest(objects, k), "");
    Skips("", t);
    assert "" + t == t;
  }
}

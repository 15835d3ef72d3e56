/**
 * The extraction pass of the generator: one walk over the children of the registry's
 * root that fills the constant map from the `API Constants` group, appends one enum group
 * per other named `enums` node and collects the handles declared under `types`.
 *
 * The walk itself is the method `Extract`. The functions before it are its reference
 * definition, written as three independent collections: the constants are the result of
 * applying every child of every `API Constants` group, in document order, to an empty map;
 * the enum groups and the handles are filters over the root's children.
 */
module Extract {
  import opened Wrappers
  import opened Tree
  import opened Literals
  import opened Entities
  import opened Folds

  /** The `name` of the one `enums` group that holds flat constants. */
  const ApiConstantsName: string := "API Constants"

  type Constants = map<string, ApiConstant>

  // ---------------------------------------------------------------------------
  // The API Constants group

  /** A constants child with `type`, `value` and `name`: a constant given directly. */
  predicate IsDirect(a: map<string, string>) {
    "type" in a && "value" in a && "name" in a
  }

  /** A constants child with `name` and `alias`: a constant defined as another one. */
  predicate IsAlias(a: map<string, string>) {
    "name" in a && "alias" in a
  }

  /** One child of the `API Constants` group applied to the constants gathered so far. */
  function ConstantStep(m: Constants, child: Node): (r: Result<Constants, BuildError>)
    ensures r.Err? <==>
      child.Element? && !IsDirect(child.attributes)
      && (IsAlias(child.attributes) ==> child.attributes["alias"] !in m)
    ensures r.Ok? && child.Element? ==>
      var name := child.attributes["name"];
      name in r.value && r.value == m[name := r.value[name]] && r.value[name].name == name
    ensures r.Ok? && !child.Element? ==> r.value == m
  {
    if !child.Element? then Ok(m)
    else
      var a := child.attributes;
      if IsDirect(a) then
        Ok(m[a["name"] := ApiConstant(a["type"], a["value"], a["name"])])
      else if IsAlias(a) then
        if a["alias"] in m then
          var target := m[a["alias"]];
          Ok(m[a["name"] := ApiConstant(target.variableType, target.value, a["name"])])
        else
          Err(UnresolvedAlias(a["name"], a["alias"]))
      else
        Err(UnrecognizedConstantShape(a))
  }

  /** The children applied in order to `m`; the first failing child stops the fold. */
  function ConstantsFold(m: Constants, children: seq<Node>): Result<Constants, BuildError>
    decreases |children|
  {
    if children == [] then Ok(m)
    else
      match ConstantsFold(m, children[..|children| - 1])
      case Err(e) => Err(e)
      case Ok(m') => ConstantStep(m', children[|children| - 1])
  }

  // ---------------------------------------------------------------------------
  // Enum groups

  /** The member a child of an enum group contributes: its name and its i32 value. */
  function Member(child: Node): Option<(string, int)> {
    if child.Element? && "value" in child.attributes && "name" in child.attributes
       && ParseI32(child.attributes["value"]).Some?
    then Some((child.attributes["name"], ParseI32(child.attributes["value"]).value))
    else None
  }

  /** A group's member map: its children's members inserted in document order. */
  function MemberValues(children: seq<Node>): map<string, int> {
    Insert(Map(Member, children))
  }

  // ---------------------------------------------------------------------------
  // Handles

  function TypeText(n: Node): Option<string> {
    TagText(n, "type")
  }

  function NameText(n: Node): Option<string> {
    TagText(n, "name")
  }

  predicate IsHandleNode(n: Node) {
    n.Element? && "category" in n.attributes && n.attributes["category"] == "handle"
  }

  /**
   * The handle a `category="handle"` node declares: the text of its last `type` child and
   * of its last `name` child whose first child is text, if both exist.
   */
  function HandleOf(n: Node): Option<Handle>
    requires n.Element?
  {
    var kind := LastPresent(Map(TypeText, n.children));
    var name := LastPresent(Map(NameText, n.children));
    if kind.Some? && name.Some? then Some(Handle(kind.value, name.value)) else None
  }

  /** The handle a child of a `types` node contributes, if any. */
  function HandleIn(n: Node): Option<Handle> {
    if IsHandleNode(n) then HandleOf(n) else None
  }

  /** The handles declared by the children of one `types` node, in order. */
  function TypesHandles(types: seq<Node>): seq<Handle> {
    Present(Map(HandleIn, types))
  }

  // ---------------------------------------------------------------------------
  // The root's children

  predicate IsNamedEnums(n: Node) {
    n.Element? && n.name == "enums" && "name" in n.attributes
  }

  predicate IsApiConstants(n: Node) {
    IsNamedEnums(n) && n.attributes["name"] == ApiConstantsName
  }

  predicate IsEnumGroup(n: Node) {
    IsNamedEnums(n) && n.attributes["name"] != ApiConstantsName
  }

  predicate IsTypes(n: Node) {
    n.Element? && n.name == "types"
  }

  function GroupOf(n: Node): VulkanEnum
    requires IsEnumGroup(n)
  {
    VulkanEnum(n.attributes["name"], MemberValues(n.children))
  }

  /** What one root child contributes to each collection. */
  function ApiPart(n: Node): seq<Node> {
    if IsApiConstants(n) then n.children else []
  }

  function GroupIn(n: Node): Option<VulkanEnum> {
    if IsEnumGroup(n) then Some(GroupOf(n)) else None
  }

  function TypesPart(n: Node): seq<Handle> {
    if IsTypes(n) then TypesHandles(n.children) else []
  }

  /** The children of every `API Constants` group, concatenated in document order. */
  function ApiChildren(nodes: seq<Node>): seq<Node> {
    Flatten(Map(ApiPart, nodes))
  }

  function EnumGroups(nodes: seq<Node>): seq<VulkanEnum> {
    Present(Map(GroupIn, nodes))
  }

  function Handles(nodes: seq<Node>): seq<Handle> {
    Flatten(Map(TypesPart, nodes))
  }

  /** What the extraction pass produces for a parsed registry. */
  function ExtractSpec(root: Node): Result<Registry, BuildError>
    requires root.Element?
  {
    match ConstantsFold(map[], ApiChildren(root.children))
    case Err(e) => Err(e)
    case Ok(constants) => Ok(Registry(constants, EnumGroups(root.children), Handles(root.children)))
  }

  // ---------------------------------------------------------------------------
  // Folding over concatenations

  lemma {:induction false} ConstantsFoldAppend(m: Constants, a: seq<Node>, b: seq<Node>)
    ensures ConstantsFold(m, a + b) ==
      match ConstantsFold(m, a)
      case Err(e) => Err(e)
      case Ok(m') => ConstantsFold(m', b)
    decreases |b|
  {
    if b == [] {
      assert a + b == a;
    } else {
      var b' := b[..|b| - 1];
      assert (a + b)[..|a + b| - 1] == a + b';
      assert (a + b)[|a + b| - 1] == b[|b| - 1];
      ConstantsFoldAppend(m, a, b');
    }
  }

  lemma ApiChildrenAppend(a: seq<Node>, b: seq<Node>)
    ensures ApiChildren(a + b) == ApiChildren(a) + ApiChildren(b)
  {
    MapAppend(ApiPart, a, b);
    FlattenAppend(Map(ApiPart, a), Map(ApiPart, b));
  }

  /** One more root child extends each collection by what that child contributes. */
  lemma RootStep(nodes: seq<Node>, i: nat)
    requires i < |nodes|
    ensures ApiChildren(nodes[..i + 1]) == ApiChildren(nodes[..i]) + ApiPart(nodes[i])
    ensures EnumGroups(nodes[..i + 1]) ==
      EnumGroups(nodes[..i]) + (if IsEnumGroup(nodes[i]) then [GroupOf(nodes[i])] else [])
    ensures Handles(nodes[..i + 1]) == Handles(nodes[..i]) + TypesPart(nodes[i])
  {
    MapSnoc(ApiPart, nodes, i);
    FlattenSnoc(Map(ApiPart, nodes[..i]), ApiPart(nodes[i]));
    MapSnoc(GroupIn, nodes, i);
    PresentSnoc(Map(GroupIn, nodes[..i]), GroupIn(nodes[i]));
    MapSnoc(TypesPart, nodes, i);
    FlattenSnoc(Map(TypesPart, nodes[..i]), TypesPart(nodes[i]));
  }

  /** A failure inside the `API Constants` group of root child `i` fails the whole pass. */
  lemma FailureStopsExtraction(root: Node, i: nat)
    requires root.Element? && i < |root.children|
    requires ConstantsFold(map[], ApiChildren(root.children[..i + 1])).Err?
    ensures ExtractSpec(root) == Err(ConstantsFold(map[], ApiChildren(root.children[..i + 1])).error)
  {
    var nodes := root.children;
    assert nodes == nodes[..i + 1] + nodes[i + 1..];
    ApiChildrenAppend(nodes[..i + 1], nodes[i + 1..]);
    ConstantsFoldAppend(map[], ApiChildren(nodes[..i + 1]), ApiChildren(nodes[i + 1..]));
  }

  // ---------------------------------------------------------------------------
  // The pass itself

  /**
   * The loop over the children of an `API Constants` group: each child is a direct
   * constant, inserted under its name, or an alias, which copies the type and value of a
   * constant already present; an alias to a missing constant and a child of neither shape
   * stop the build.
   */
  method AddConstants(constants: Constants, elems: seq<Node>) returns (r: Result<Constants, BuildError>)
    ensures r == ConstantsFold(constants, elems)
  {
    var apiConstants := constants;
    for j := 0 to |elems|
      invariant ConstantsFold(constants, elems[..j]) == Ok(apiConstants)
    {
      assert elems[..j + 1][..j] == elems[..j];
      var elem := elems[j];
      if elem.Element? {
        var a := elem.attributes;
        if "type" in a && "value" in a && "name" in a {
          apiConstants := apiConstants[a["name"] := ApiConstant(a["type"], a["value"], a["name"])];
        } else if "name" in a && "alias" in a {
          if a["alias"] in apiConstants {
            var target := apiConstants[a["alias"]];
            apiConstants := apiConstants[a["name"] := ApiConstant(target.variableType, target.value, a["name"])];
          } else {
            r := Err(UnresolvedAlias(a["name"], a["alias"]));
            assert elems == elems[..j + 1] + elems[j + 1..];
            ConstantsFoldAppend(constants, elems[..j + 1], elems[j + 1..]);
            return;
          }
        } else {
          r := Err(UnrecognizedConstantShape(a));
          assert elems == elems[..j + 1] + elems[j + 1..];
          ConstantsFoldAppend(constants, elems[..j + 1], elems[j + 1..]);
          return;
        }
      }
    }
    assert elems[..|elems|] == elems;
    r := Ok(apiConstants);
  }

  /** The loop over the children of an enum group: members with an i32 `value` and a `name`. */
  method ReadEnum(name: string, elems: seq<Node>) returns (g: VulkanEnum)
    ensures g == VulkanEnum(name, MemberValues(elems))
  {
    var values: map<string, int> := map[];
    for j := 0 to |elems|
      invariant values == MemberValues(elems[..j])
    {
      MapSnoc(Member, elems, j);
      InsertSnoc(Map(Member, elems[..j]), Member(elems[j]));
      var elem := elems[j];
      if elem.Element? && "value" in elem.attributes && "name" in elem.attributes {
        var parsed := ParseI32(elem.attributes["value"]);
        if parsed.Some? {
          values := values[elem.attributes["name"] := parsed.value];
        }
      }
    }
    assert elems[..|elems|] == elems;
    g := VulkanEnum(name, values);
  }

  /**
   * The loop over the children of a `category="handle"` node: the last `type` child and
   * the last `name` child whose first child is text give the handle's kind and name.
   */
  method ReadHandle(node: Node) returns (h: Option<Handle>)
    requires node.Element?
    ensures h == HandleOf(node)
  {
    var handleType: Option<string> := None;
    var handleName: Option<string> := None;
    var parts := node.children;
    for k := 0 to |parts|
      invariant handleType == LastPresent(Map(TypeText, parts[..k]))
      invariant handleName == LastPresent(Map(NameText, parts[..k]))
    {
      MapSnoc(TypeText, parts, k);
      LastPresentSnoc(Map(TypeText, parts[..k]), TypeText(parts[k]));
      MapSnoc(NameText, parts, k);
      LastPresentSnoc(Map(NameText, parts[..k]), NameText(parts[k]));
      var part := parts[k];
      if part.Element? {
        if part.name == "type" {
          if |part.children| > 0 && part.children[0].Text? {
            handleType := Some(part.children[0].text);
          }
        } else if part.name == "name" {
          if |part.children| > 0 && part.children[0].Text? {
            handleName := Some(part.children[0].text);
          }
        }
      }
    }
    assert parts[..|parts|] == parts;
    if handleType.Some? && handleName.Some? {
      h := Some(Handle(handleType.value, handleName.value));
    } else {
      h := None;
    }
  }

  /** The loop over the children of a `types` node; only `category="handle"` contributes. */
  method ReadTypes(types: seq<Node>) returns (hs: seq<Handle>)
    ensures hs == TypesHandles(types)
  {
    hs := [];
    for j := 0 to |types|
      invariant hs == TypesHandles(types[..j])
    {
      MapSnoc(HandleIn, types, j);
      PresentSnoc(Map(HandleIn, types[..j]), HandleIn(types[j]));
      var vktype := types[j];
      if vktype.Element? && "category" in vktype.attributes
         && vktype.attributes["category"] == "handle"
      {
        var h := ReadHandle(vktype);
        if h.Some? {
          hs := hs + [h.value];
        }
      }
    }
    assert types[..|types|] == types;
  }

  /**
   * The extraction loop of the build script: one pass over the root's children in
   * document order, stopping at the first alias whose target is not yet defined and at
   * the first constants child of neither shape.
   */
  method Extract(root: Node) returns (r: Result<Registry, BuildError>)
    requires root.Element?
    ensures r == ExtractSpec(root)
  {
    var apiConstants: Constants := map[];
    var enums: seq<VulkanEnum> := [];
    var handles: seq<Handle> := [];
    var nodes := root.children;
    for i := 0 to |nodes|
      invariant ConstantsFold(map[], ApiChildren(nodes[..i])) == Ok(apiConstants)
      invariant enums == EnumGroups(nodes[..i])
      invariant handles == Handles(nodes[..i])
    {
      var child := nodes[i];
      RootStep(nodes, i);
      assert !IsApiConstants(child) ==> ApiChildren(nodes[..i + 1]) == ApiChildren(nodes[..i]);
      if child.Element? {
        if child.name == "enums" {
          if "name" in child.attributes {
            var name := child.attributes["name"];
            if name == ApiConstantsName {
              ConstantsFoldAppend(map[], ApiChildren(nodes[..i]), child.children);
              var added := AddConstants(apiConstants, child.children);
              if added.Err? {
                r := Err(added.error);
                FailureStopsExtraction(root, i);
                return;
              }
              apiConstants := added.value;
            } else {
              var group := ReadEnum(name, child.children);
              enums := enums + [group];
            }
          }
        } else if child.name == "types" {
          var found := ReadTypes(child.children);
          handles := handles + found;
        }
      }
    }
    assert nodes[..|nodes|] == nodes;
    r := Ok(Registry(apiConstants, enums, handles));
  }
}

/**
 * What the extraction pass guarantees, stated about its reference definition: which
 * names the constant map holds and what each one is bound to, exactly when the pass
 * fails and with which error, which members an enum group keeps, where each group lands,
 * and which handles are collected.
 */
module ExtractFacts {
  import opened Wrappers
  import opened Tree
  import opened Literals
  import opened Entities
  import opened Extract
  import opened Folds

  // ---------------------------------------------------------------------------
  // The constant map

  /** Child `c` declares the name `n` (both constant shapes carry `name`). */
  predicate Declares(c: Node, n: string) {
    c.Element? && "name" in c.attributes && c.attributes["name"] == n
  }

  /** Before the children `seen` have been applied to `m0`, is `n` defined? */
  predicate Known(m0: Constants, seen: seq<Node>, n: string) {
    n in m0 || exists j :: 0 <= j < |seen| && Declares(seen[j], n)
  }

  /** Child `i` stops the fold: neither a direct constant nor an alias to a known name. */
  predicate RejectedAt(m0: Constants, cs: seq<Node>, i: int)
    requires 0 <= i < |cs|
  {
    var c := cs[i];
    c.Element? && !IsDirect(c.attributes)
    && (IsAlias(c.attributes) ==> !Known(m0, cs[..i], c.attributes["alias"]))
  }

  /** The error a rejected child produces. */
  function RejectionOf(c: Node): BuildError
    requires c.Element?
  {
    var a := c.attributes;
    if IsAlias(a) then UnresolvedAlias(a["name"], a["alias"]) else UnrecognizedConstantShape(a)
  }

  /** After a successful fold, the map holds exactly the names of `m0` and of the children. */
  lemma {:induction false} ConstantsFoldKeys(m0: Constants, cs: seq<Node>)
    requires ConstantsFold(m0, cs).Ok?
    ensures forall n :: n in ConstantsFold(m0, cs).value <==> Known(m0, cs, n)
    decreases |cs|
  {
    if cs != [] {
      var p := cs[..|cs| - 1];
      var c := cs[|cs| - 1];
      ConstantsFoldKeys(m0, p);
      forall n ensures n in ConstantsFold(m0, cs).value <==> Known(m0, cs, n) {
        if Known(m0, p, n) && n !in m0 {
          var j :| 0 <= j < |p| && Declares(p[j], n);
          assert cs[j] == p[j];
        }
        if Known(m0, cs, n) && n !in m0 && !Declares(c, n) {
          var j :| 0 <= j < |cs| && Declares(cs[j], n);
          assert j < |p| && p[j] == cs[j];
        }
      }
    }
  }

  /** Every entry is filed under its own name, as long as the starting map's were. */
  lemma {:induction false} ConstantsFoldNames(m0: Constants, cs: seq<Node>)
    requires forall k :: k in m0 ==> m0[k].name == k
    requires ConstantsFold(m0, cs).Ok?
    ensures forall k :: k in ConstantsFold(m0, cs).value ==> ConstantsFold(m0, cs).value[k].name == k
    decreases |cs|
  {
    if cs != [] {
      ConstantsFoldNames(m0, cs[..|cs| - 1]);
    }
  }

  /** A name no child declares keeps its entry from `m0`, or stays absent. */
  lemma {:induction false} ConstantsFoldUndeclared(m0: Constants, cs: seq<Node>, n: string)
    requires ConstantsFold(m0, cs).Ok?
    requires forall i :: 0 <= i < |cs| ==> !Declares(cs[i], n)
    ensures n in ConstantsFold(m0, cs).value <==> n in m0
    ensures n in m0 ==> ConstantsFold(m0, cs).value[n] == m0[n]
    decreases |cs|
  {
    if cs != [] {
      var p := cs[..|cs| - 1];
      assert forall i :: 0 <= i < |p| ==> p[i] == cs[i];
      ConstantsFoldUndeclared(m0, p, n);
    }
  }

  /**
   * The last child declaring `n` decides its entry: a direct constant binds `n` to its own
   * type and value (replacing any earlier entry), an alias binds `n` to the type and value
   * its target had when the alias was read.
   */
  lemma {:induction false} ConstantsFoldLastWins(m0: Constants, cs: seq<Node>, i: nat, n: string)
    requires ConstantsFold(m0, cs).Ok?
    requires i < |cs| && Declares(cs[i], n)
    requires forall j :: i < j < |cs| ==> !Declares(cs[j], n)
    ensures n in ConstantsFold(m0, cs).value
    ensures IsDirect(cs[i].attributes) ==>
      var a := cs[i].attributes;
      ConstantsFold(m0, cs).value[n] == ApiConstant(a["type"], a["value"], n)
    ensures !IsDirect(cs[i].attributes) ==>
      var a := cs[i].attributes;
      var before := ConstantsFold(m0, cs[..i]);
      IsAlias(a) && before.Ok? && a["alias"] in before.value
      && ConstantsFold(m0, cs).value[n] ==
           ApiConstant(before.value[a["alias"]].variableType, before.value[a["alias"]].value, n)
    decreases |cs|
  {
    var p := cs[..|cs| - 1];
    if i < |cs| - 1 {
      assert forall j :: 0 <= j < |p| ==> p[j] == cs[j];
      assert p[..i] == cs[..i];
      ConstantsFoldLastWins(m0, p, i, n);
    } else {
      assert cs[..i] == p;
    }
  }

  /**
   * The fold fails exactly when some child is rejected, and then with the error of the
   * first rejected child: an alias to a name not defined before it, or a child of neither
   * shape. There is no second pass for aliases that point forward.
   */
  lemma {:induction false} ConstantsFoldOutcome(m0: Constants, cs: seq<Node>)
    ensures ConstantsFold(m0, cs).Ok? <==> forall i :: 0 <= i < |cs| ==> !RejectedAt(m0, cs, i)
    ensures ConstantsFold(m0, cs).Err? ==>
      exists i :: 0 <= i < |cs| && RejectedAt(m0, cs, i)
        && (forall j :: 0 <= j < i ==> !RejectedAt(m0, cs, j))
        && ConstantsFold(m0, cs).error == RejectionOf(cs[i])
    decreases |cs|
  {
    if cs != [] {
      var last := |cs| - 1;
      var p := cs[..last];
      var c := cs[last];
      ConstantsFoldOutcome(m0, p);
      assert forall i :: 0 <= i < last ==> cs[..i] == p[..i] && cs[i] == p[i];
      assert forall i :: 0 <= i < last ==> (RejectedAt(m0, cs, i) <==> RejectedAt(m0, p, i));
      assert cs[..last] == p;
      match ConstantsFold(m0, p)
      case Err(e) =>
        var i :| 0 <= i < |p| && RejectedAt(m0, p, i)
          && (forall j :: 0 <= j < i ==> !RejectedAt(m0, p, j))
          && e == RejectionOf(p[i]);
        assert RejectedAt(m0, cs, i);
      case Ok(m') =>
        ConstantsFoldKeys(m0, p);
        if c.Element? && IsAlias(c.attributes) {
          assert c.attributes["alias"] in m' <==> Known(m0, p, c.attributes["alias"]);
        }
        assert ConstantsFold(m0, cs).Err? <==> RejectedAt(m0, cs, last);
    }
  }

  // ---------------------------------------------------------------------------
  // Enum groups

  /**
   * Child `c` of an enum group is an element whose `name` is `k` and whose `value` parses
   * as an i32: the script inserts it into the group's map.
   */
  predicate DeclaresMember(c: Node, k: string) {
    c.Element? && "value" in c.attributes && "name" in c.attributes
    && c.attributes["name"] == k && ParseI32(c.attributes["value"]).Some?
  }

  /** A group keeps a name iff some child declares a member with that name. */
  lemma MemberValuesKeys(cs: seq<Node>, k: string)
    ensures k in MemberValues(cs) <==> exists i :: 0 <= i < |cs| && DeclaresMember(cs[i], k)
  {
    var ms := Map(Member, cs);
    InsertKeys(ms, k);
    assert forall i :: 0 <= i < |cs| ==> ms[i] == Member(cs[i]);
    assert forall i :: 0 <= i < |cs| ==> (HasKey(ms[i], k) <==> DeclaresMember(cs[i], k));
  }

  /**
   * A name none of whose children has a value `parse::<i32>` accepts is dropped, even
   * though the children exist.
   */
  lemma MemberValuesSkipsUnparsed(cs: seq<Node>, k: string)
    requires forall i ::
               0 <= i < |cs| && cs[i].Element? && "name" in cs[i].attributes
               && cs[i].attributes["name"] == k && "value" in cs[i].attributes
               ==> ParseI32(cs[i].attributes["value"]).None?
    ensures k !in MemberValues(cs)
  {
    MemberValuesKeys(cs, k);
  }

  /**
   * A kept name is bound to the value parsed from the last child that declares it; later
   * children with that name whose value does not parse leave it alone.
   */
  lemma MemberValuesLastWins(cs: seq<Node>, k: string)
    requires k in MemberValues(cs)
    ensures exists i :: (0 <= i < |cs| && DeclaresMember(cs[i], k)
                         && ParseI32(cs[i].attributes["value"]) == Some(MemberValues(cs)[k])
                         && forall j :: i < j < |cs| ==> !DeclaresMember(cs[j], k))
  {
    var ms := Map(Member, cs);
    InsertLastWins(ms, k);
    var i :| 0 <= i < |ms| && ms[i] == Some((k, Insert(ms)[k]))
      && (forall j :: i < j < |ms| ==> !HasKey(ms[j], k));
    assert Member(cs[i]) == ms[i];
    assert forall j :: i < j < |cs| ==> ms[j] == Member(cs[j]);
    assert forall j :: i < j < |cs| ==> (HasKey(ms[j], k) <==> DeclaresMember(cs[j], k));
  }

  /** Every member value fits in an i32, as the script parses it with `parse::<i32>`. */
  lemma MemberValuesInRange(cs: seq<Node>, k: string)
    requires k in MemberValues(cs)
    ensures I32Min <= MemberValues(cs)[k] <= I32Max
  {
    MemberValuesLastWins(cs, k);
  }

  /** The number of root children before position `i` that are enum groups. */
  function GroupsBefore(nodes: seq<Node>, i: nat): nat
    requires i <= |nodes|
  {
    CountPresent(Map(GroupIn, nodes[..i]))
  }

  /**
   * One group per named non-constants `enums` node, in document order: the node at root
   * position `i` yields the group at position "number of such nodes before `i`", and there
   * are no other groups.
   */
  lemma EnumGroupsSpec(nodes: seq<Node>)
    ensures |EnumGroups(nodes)| == GroupsBefore(nodes, |nodes|)
    ensures forall i :: 0 <= i < |nodes| && IsEnumGroup(nodes[i]) ==>
      GroupsBefore(nodes, i) < |EnumGroups(nodes)| && EnumGroups(nodes)[GroupsBefore(nodes, i)] == GroupOf(nodes[i])
  {
    var gs := Map(GroupIn, nodes);
    PresentPositions(gs);
    assert nodes[..|nodes|] == nodes;
    forall i | 0 <= i < |nodes| && IsEnumGroup(nodes[i])
      ensures GroupsBefore(nodes, i) < |EnumGroups(nodes)|
      ensures EnumGroups(nodes)[GroupsBefore(nodes, i)] == GroupOf(nodes[i])
    {
      MapPrefix(GroupIn, nodes, i);
      assert gs[i] == GroupIn(nodes[i]);
    }
  }

  // ---------------------------------------------------------------------------
  // Handles

  /**
   * A handle is recorded iff both a `type` and a `name` child have text first; its kind
   * and name are the texts of the last such children.
   */
  lemma HandleOfSpec(n: Node)
    requires n.Element?
    ensures HandleOf(n).Some? <==>
      (exists i :: 0 <= i < |n.children| && TagText(n.children[i], "type").Some?)
      && (exists i :: 0 <= i < |n.children| && TagText(n.children[i], "name").Some?)
    ensures HandleOf(n).Some? ==>
      var cs := n.children;
      var h := HandleOf(n).value;
      (exists i :: 0 <= i < |cs| && TagText(cs[i], "type") == Some(h.kind)
                   && forall j :: i < j < |cs| ==> TagText(cs[j], "type").None?) &&
      (exists i :: 0 <= i < |cs| && TagText(cs[i], "name") == Some(h.name)
                   && forall j :: i < j < |cs| ==> TagText(cs[j], "name").None?)
  {
    var cs := n.children;
    var kinds, names := Map(TypeText, cs), Map(NameText, cs);
    forall i | 0 <= i < |cs| ensures kinds[i] == TagText(cs[i], "type") && names[i] == TagText(cs[i], "name") {
      assert kinds[i] == TypeText(cs[i]) && names[i] == NameText(cs[i]);
    }
    LastTextSpec(cs, "type", kinds);
    LastTextSpec(cs, "name", names);
  }

  lemma LastTextSpec(cs: seq<Node>, tag: string, texts: seq<Option<string>>)
    requires |texts| == |cs| && forall i :: 0 <= i < |cs| ==> texts[i] == TagText(cs[i], tag)
    ensures LastPresent(texts).Some? <==> exists i :: 0 <= i < |cs| && TagText(cs[i], tag).Some?
    ensures LastPresent(texts).Some? ==>
      exists i :: 0 <= i < |cs| && TagText(cs[i], tag) == LastPresent(texts)
        && forall j :: i < j < |cs| ==> TagText(cs[j], tag).None?
  {
    LastPresentSpec(texts);
  }

  /** A `types` node contributes h iff one of its `category="handle"` children declares h. */
  lemma TypesHandlesSpec(types: seq<Node>, h: Handle)
    ensures h in TypesHandles(types) <==>
      exists j :: 0 <= j < |types| && IsHandleNode(types[j]) && HandleOf(types[j]) == Some(h)
  {
    var hs := Map(HandleIn, types);
    PresentMembership(hs, h);
    assert forall j :: 0 <= j < |types| ==> hs[j] == HandleIn(types[j]);
  }

  /**
   * The handle list holds h iff some `category="handle"` child of some `types` node
   * declares h; nodes lacking `type` or `name` text, and all other categories, add nothing.
   */
  lemma HandlesSpec(nodes: seq<Node>, h: Handle)
    ensures h in Handles(nodes) <==>
      exists i :: 0 <= i < |nodes| && IsTypes(nodes[i]) && h in TypesHandles(nodes[i].children)
  {
    var parts := Map(TypesPart, nodes);
    FlattenMembership(parts, h);
    assert forall i :: 0 <= i < |nodes| ==> parts[i] == TypesPart(nodes[i]);
  }

  /** The number of children before position `j` of a `types` node that declare a handle. */
  function HandlesBefore(types: seq<Node>, j: nat): nat
    requires j <= |types|
  {
    CountPresent(Map(HandleIn, types[..j]))
  }

  /**
   * One handle per `handle`-category child that has both texts, in document order: the
   * child at position `j` yields the handle at position "number of such children before
   * `j`", and there are no other handles.
   */
  lemma TypesHandlesOrder(types: seq<Node>)
    ensures |TypesHandles(types)| == HandlesBefore(types, |types|)
    ensures forall j :: 0 <= j < |types| && IsHandleNode(types[j]) && HandleOf(types[j]).Some? ==>
      HandlesBefore(types, j) < |TypesHandles(types)|
      && TypesHandles(types)[HandlesBefore(types, j)] == HandleOf(types[j]).value
  {
    var hs := Map(HandleIn, types);
    PresentPositions(hs);
    assert types[..|types|] == types;
    forall j | 0 <= j < |types| && IsHandleNode(types[j]) && HandleOf(types[j]).Some?
      ensures HandlesBefore(types, j) < |TypesHandles(types)|
      ensures TypesHandles(types)[HandlesBefore(types, j)] == HandleOf(types[j]).value
    {
      MapPrefix(HandleIn, types, j);
      assert hs[j] == HandleIn(types[j]);
    }
  }

  /**
   * The handle list is, in document order, the handles of the root children before `i`,
   * those of child `i` (when it is a `types` node), then those of the children after it.
   */
  lemma HandlesSplit(nodes: seq<Node>, i: nat)
    requires i < |nodes|
    ensures Handles(nodes) ==
      Handles(nodes[..i]) + (if IsTypes(nodes[i]) then TypesHandles(nodes[i].children) else [])
        + Handles(nodes[i + 1..])
  {
    assert nodes == nodes[..i + 1] + nodes[i + 1..];
    MapAppend(TypesPart, nodes[..i + 1], nodes[i + 1..]);
    FlattenAppend(Map(TypesPart, nodes[..i + 1]), Map(TypesPart, nodes[i + 1..]));
    RootStep(nodes, i);
  }
}

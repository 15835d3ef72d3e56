/**
 * The emitter of the build script: it turns the extracted handles, constants and enum
 * groups into the lines of the generated bindings file. Every piece the script appends
 * to its output string ends in a newline, so the file is these lines, each followed by
 * "\n".
 *
 * The script walks its two hash maps (the constants, and each group's members) in the
 * maps' own iteration order, which Rust leaves unspecified. The model makes that order
 * explicit: `Emit` reports the key order it used in an `Ordering`, and the reference
 * definition `Output` is stated for any ordering that lists every key exactly once.
 */
module Emit {
  import opened Wrappers
  import opened Literals
  import opened Entities
  import opened Folds

  const DispatchableTag: string := "VK_DEFINE_HANDLE"
  const NonDispatchableTag: string := "VK_DEFINE_NON_DISPATCHABLE_HANDLE"

  datatype HandleKind = Dispatchable | NonDispatchable

  function KindTag(k: HandleKind): string {
    match k
    case Dispatchable => DispatchableTag
    case NonDispatchable => NonDispatchableTag
  }

  /** The handle kind a `type` text names; any other text names none. */
  function KindOf(text: string): Option<HandleKind>
  {
    if text == DispatchableTag then Some(Dispatchable)
    else if text == NonDispatchableTag then Some(NonDispatchable)
    else None
  }

  /**
   * The two recognised kind texts and the two kinds correspond one to one; every other
   * text names no kind.
   */
  lemma KindsOneToOne(text: string, k: HandleKind)
    ensures KindOf(KindTag(k)) == Some(k)
    ensures KindOf(text).Some? <==> text == DispatchableTag || text == NonDispatchableTag
    ensures KindOf(text).Some? ==> KindTag(KindOf(text).value) == text
  {
  }

  // ---------------------------------------------------------------------------
  // Lines

  /**
   * The three lines one handle contributes, or the error for an unknown kind. The comment
   * line is "// " followed by the kind's tag: "// VK_DEFINE_HANDLE" or
   * "// VK_DEFINE_NON_DISPATCHABLE_HANDLE".
   */
  function HandleDecl(h: Handle): Result<seq<string>, BuildError> {
    match KindOf(h.kind)
    case None => Err(UnknownHandleKind(h.kind, h.name))
    case Some(k) => Ok(["// " + KindTag(k), "pub type " + h.name + " = *mut libc::c_void;", ""])
  }

  /** The lines of a sequence of per-item results, in order; the first error stops it. */
  function Collect(rs: seq<Result<seq<string>, BuildError>>): Result<seq<string>, BuildError> {
    if rs == [] then Ok([])
    else
      match Collect(rs[..|rs| - 1])
      case Err(e) => Err(e)
      case Ok(lines) =>
        match rs[|rs| - 1]
        case Err(e) => Err(e)
        case Ok(more) => Ok(lines + more)
  }

  /** The result of each handle, in extraction order. */
  function HandleDecls(hs: seq<Handle>): (r: seq<Result<seq<string>, BuildError>>)
    ensures |r| == |hs|
  {
    seq(|hs|, i requires 0 <= i < |hs| => HandleDecl(hs[i]))
  }

  /** The handle section after its header; the first unknown kind stops the build. */
  function HandleLines(hs: seq<Handle>): Result<seq<string>, BuildError> {
    Collect(HandleDecls(hs))
  }

  /** The line a constant contributes: only a `uint32_t` whose value parses as u32. */
  function ConstantDecl(c: ApiConstant): (r: Option<string>)
    ensures r.Some? <==> c.variableType == "uint32_t" && ParseU32(c.value).Some?
  {
    if c.variableType == "uint32_t" && ParseU32(c.value).Some? then
      Some("pub const " + UpperAscii(c.name) + ": u32 = " + NatToDecimal(ParseU32(c.value).value) + ";")
    else
      None
  }

  /** The line, if any, of each constant, visiting the keys in `order`. */
  function ConstantDecls(constants: map<string, ApiConstant>, order: seq<string>): (r: seq<Option<string>>)
    requires forall k :: k in order ==> k in constants
    ensures |r| == |order|
  {
    seq(|order|, i requires 0 <= i < |order| => ConstantDecl(constants[order[i]]))
  }

  /** The constants section after its header. */
  function ConstantLines(constants: map<string, ApiConstant>, order: seq<string>): seq<string>
    requires forall k :: k in order ==> k in constants
  {
    Present(ConstantDecls(constants, order))
  }

  function MemberLine(name: string, v: int): string {
    "pub const " + name + ": i32 = " + IntToDecimal(v) + ";"
  }

  /**
   * The member lines of one group, visiting its keys in `order`. A map walk only yields
   * keys of the map; a name outside it would contribute no line.
   */
  function MemberLines(values: map<string, int>, order: seq<string>): seq<string> {
    if order == [] then []
    else
      var k := order[|order| - 1];
      MemberLines(values, order[..|order| - 1]) + (if k in values then [MemberLine(k, values[k])] else [])
  }

  function EnumHeader(g: VulkanEnum): string {
    "// Vulkan Enum - " + g.name + " "
  }

  function EnumBlock(g: VulkanEnum, order: seq<string>): seq<string> {
    [EnumHeader(g)] + MemberLines(g.values, order) + [""]
  }

  /** The block of each group, group `i` walked in `orders[i]`. */
  function Blocks(enums: seq<VulkanEnum>, orders: seq<seq<string>>): (r: seq<seq<string>>)
    requires |orders| == |enums|
    ensures |r| == |enums|
  {
    seq(|enums|, i requires 0 <= i < |enums| => EnumBlock(enums[i], orders[i]))
  }

  /** The enum section: the groups' blocks in extraction order. */
  function EnumLines(enums: seq<VulkanEnum>, orders: seq<seq<string>>): seq<string>
    requires |orders| == |enums|
  {
    Flatten(Blocks(enums, orders))
  }

  // ---------------------------------------------------------------------------
  // Orderings

  predicate Distinct(s: seq<string>) {
    forall i, j :: 0 <= i < j < |s| ==> s[i] != s[j]
  }

  /** `s` lists every key of `keys` exactly once, as a map iteration does. */
  predicate Enumerates(s: seq<string>, keys: set<string>) {
    Distinct(s) && (forall k :: k in s ==> k in keys) && (forall k :: k in keys ==> k in s)
  }

  /** The key order of the constant map and of each group's member map. */
  datatype Ordering = Ordering(constants: seq<string>, members: seq<seq<string>>)

  predicate ValidOrdering(reg: Registry, o: Ordering) {
    Enumerates(o.constants, reg.constants.Keys)
    && |o.members| == |reg.enums|
    && forall i :: 0 <= i < |reg.enums| ==> Enumerates(o.members[i], reg.enums[i].values.Keys)
  }

  /**
   * The generated file: the handle header and handles, the constants header and the
   * `uint32_t` constants, a blank line, then one block per enum group in extraction order.
   */
  function Output(reg: Registry, o: Ordering): seq<string>
    requires HandleLines(reg.handles).Ok? && ValidOrdering(reg, o)
  {
    ["// Vulkan Handles"] + HandleLines(reg.handles).value
      + ["// Vulkan Constants"] + ConstantLines(reg.constants, o.constants)
      + [""] + EnumLines(reg.enums, o.members)
  }

  /** What emitting `reg` may yield: the first unknown handle kind, or the file's lines. */
  predicate Emits(reg: Registry, r: Result<seq<string>, BuildError>, o: Ordering) {
    match HandleLines(reg.handles)
    case Err(e) => r == Err(e)
    case Ok(_) => ValidOrdering(reg, o) && r == Ok(Output(reg, o))
  }

  // ---------------------------------------------------------------------------
  // The emitter itself

  lemma {:induction false} CollectErrSticky(rs: seq<Result<seq<string>, BuildError>>, i: nat)
    requires i <= |rs| && Collect(rs[..i]).Err?
    ensures Collect(rs) == Collect(rs[..i])
    decreases |rs| - i
  {
    if i < |rs| {
      assert rs[..i + 1][..i] == rs[..i];
      CollectErrSticky(rs, i + 1);
    } else {
      assert rs[..i] == rs;
    }
  }

  lemma HandleDeclsPrefix(hs: seq<Handle>, i: nat)
    requires i <= |hs|
    ensures HandleDecls(hs)[..i] == HandleDecls(hs[..i])
  {
  }

  /** One more handle: its lines follow, or its error ends the section. */
  lemma HandleLinesSnoc(hs: seq<Handle>, i: nat)
    requires i < |hs| && HandleLines(hs[..i]).Ok?
    ensures HandleDecl(hs[i]).Ok? ==>
      HandleLines(hs[..i + 1]) == Ok(HandleLines(hs[..i]).value + HandleDecl(hs[i]).value)
    ensures HandleDecl(hs[i]).Err? ==> HandleLines(hs) == HandleDecl(hs[i])
  {
    var rs := HandleDecls(hs);
    HandleDeclsPrefix(hs, i);
    HandleDeclsPrefix(hs, i + 1);
    assert rs[..i + 1][..i] == rs[..i];
    if HandleDecl(hs[i]).Err? {
      CollectErrSticky(rs, i + 1);
    }
  }

  lemma ConstantLinesSnoc(constants: map<string, ApiConstant>, order: seq<string>, name: string)
    requires forall k :: k in order ==> k in constants
    requires name in constants
    ensures ConstantLines(constants, order + [name]) ==
      ConstantLines(constants, order) + match ConstantDecl(constants[name]) case None => [] case Some(line) => [line]
  {
    var before := ConstantDecls(constants, order);
    var after := ConstantDecls(constants, order + [name]);
    assert after == before + [ConstantDecl(constants[name])];
    assert after[..|order|] == before;
  }

  /** The loop over the constant map, in the map's iteration order. */
  method EmitConstants(constants: map<string, ApiConstant>) returns (lines: seq<string>, order: seq<string>)
    ensures Enumerates(order, constants.Keys)
    ensures lines == ConstantLines(constants, order)
  {
    lines, order := [], [];
    var remaining := constants.Keys;
    while remaining != {}
      invariant forall k :: k in remaining <==> k in constants && k !in order
      invariant Distinct(order) && forall k :: k in order ==> k in constants
      invariant lines == ConstantLines(constants, order)
      decreases remaining
    {
      var name :| name in remaining;
      ConstantLinesSnoc(constants, order, name);
      var c := constants[name];
      if c.variableType == "uint32_t" {
        var parsed := ParseU32(c.value);
        if parsed.Some? {
          lines := lines + ["pub const " + UpperAscii(c.name) + ": u32 = " + NatToDecimal(parsed.value) + ";"];
        }
      }
      order := order + [name];
      remaining := remaining - {name};
    }
  }

  /** The loop over one group's member map, in the map's iteration order. */
  method EmitMembers(values: map<string, int>) returns (lines: seq<string>, order: seq<string>)
    ensures Enumerates(order, values.Keys)
    ensures lines == MemberLines(values, order)
  {
    lines, order := [], [];
    var remaining := values.Keys;
    while remaining != {}
      invariant forall k :: k in remaining <==> k in values && k !in order
      invariant Distinct(order) && forall k :: k in order ==> k in values
      invariant lines == MemberLines(values, order)
      decreases remaining
    {
      var name :| name in remaining;
      lines := lines + ["pub const " + name + ": i32 = " + IntToDecimal(values[name]) + ";"];
      assert (order + [name])[..|order|] == order;
      order := order + [name];
      remaining := remaining - {name};
    }
  }

  /** The loop over the handles; the first unknown kind stops the build. */
  method EmitHandles(hs: seq<Handle>) returns (r: Result<seq<string>, BuildError>)
    ensures r == HandleLines(hs)
  {
    var lines: seq<string> := [];
    for i := 0 to |hs|
      invariant HandleLines(hs[..i]) == Ok(lines)
    {
      HandleLinesSnoc(hs, i);
      var h := hs[i];
      if h.kind == DispatchableTag {
        lines := lines + ["// " + DispatchableTag, "pub type " + h.name + " = *mut libc::c_void;", ""];
      } else if h.kind == NonDispatchableTag {
        lines := lines + ["// " + NonDispatchableTag, "pub type " + h.name + " = *mut libc::c_void;", ""];
      } else {
        r := Err(UnknownHandleKind(h.kind, h.name));
        return;
      }
    }
    assert hs[..|hs|] == hs;
    r := Ok(lines);
  }

  /** One more group extends the enum section by that group's block. */
  lemma EnumLinesSnoc(enums: seq<VulkanEnum>, orders: seq<seq<string>>, g: nat, order: seq<string>)
    requires g < |enums| && |orders| == g
    ensures EnumLines(enums[..g + 1], orders + [order]) == EnumLines(enums[..g], orders) + EnumBlock(enums[g], order)
  {
    var before := Blocks(enums[..g], orders);
    var after := Blocks(enums[..g + 1], orders + [order]);
    assert after == before + [EnumBlock(enums[g], order)];
    assert after[..g] == before;
  }

  /** The loop over the enum groups, each a header, its members and a blank line. */
  method EmitGroups(enums: seq<VulkanEnum>) returns (lines: seq<string>, orders: seq<seq<string>>)
    ensures |orders| == |enums|
    ensures forall i :: 0 <= i < |enums| ==> Enumerates(orders[i], enums[i].values.Keys)
    ensures lines == EnumLines(enums, orders)
  {
    lines, orders := [], [];
    for g := 0 to |enums|
      invariant |orders| == g
      invariant forall i :: 0 <= i < g ==> Enumerates(orders[i], enums[i].values.Keys)
      invariant lines == EnumLines(enums[..g], orders)
    {
      var group := enums[g];
      var memberLines, memberOrder := EmitMembers(group.values);
      EnumLinesSnoc(enums, orders, g, memberOrder);
      lines := lines + ["// Vulkan Enum - " + group.name + " "] + memberLines + [""];
      orders := orders + [memberOrder];
    }
    assert enums[..|enums|] == enums;
  }

  /**
   * The content-building part of the build script: handles first (an unknown kind stops
   * the build before anything is written), then the constants, then the enum groups.
   */
  method Emit(reg: Registry) returns (r: Result<seq<string>, BuildError>, o: Ordering)
    ensures Emits(reg, r, o)
  {
    var content: seq<string> := ["// Vulkan Handles"];
    var handleLines := EmitHandles(reg.handles);
    if handleLines.Err? {
      r := Err(handleLines.error);
      o := Ordering([], []);
      return;
    }
    content := content + handleLines.value;
    content := content + ["// Vulkan Constants"];
    var constantLines, constantOrder := EmitConstants(reg.constants);
    content := content + constantLines;
    content := content + [""];
    var groupLines, memberOrders := EmitGroups(reg.enums);
    content := content + groupLines;
    o := Ordering(constantOrder, memberOrders);
    r := Ok(content);
  }
}

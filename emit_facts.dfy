/**
 * What the emitter guarantees: which handle kinds are accepted and what each handle
 * becomes, which constants and members get a line and what that line says, and that the
 * enum blocks follow the extraction order.
 */
module EmitFacts {
  import opened Wrappers
  import opened Literals
  import opened Entities
  import opened Emit
  import opened Folds

  /** A known kind gives a comment naming it, the opaque pointer alias and a blank line. */
  lemma HandleDeclSpec(h: Handle)
    ensures HandleDecl(h).Ok? <==> h.kind == DispatchableTag || h.kind == NonDispatchableTag
    ensures HandleDecl(h).Ok? ==>
      HandleDecl(h).value == ["// " + h.kind, "pub type " + h.name + " = *mut libc::c_void;", ""]
    ensures HandleDecl(h).Err? ==> HandleDecl(h).error == UnknownHandleKind(h.kind, h.name)
  {
    KindsOneToOne(h.kind, Dispatchable);
  }

  /** A collection succeeds iff every item does. */
  lemma {:induction false} CollectOk(rs: seq<Result<seq<string>, BuildError>>)
    ensures Collect(rs).Ok? <==> forall i :: 0 <= i < |rs| ==> rs[i].Ok?
    decreases |rs|
  {
    if rs != [] {
      var last := |rs| - 1;
      var p := rs[..last];
      CollectOk(p);
      if Collect(p).Err? {
        var i :| 0 <= i < |p| && p[i].Err?;
        assert rs[i].Err?;
      } else {
        assert forall i :: 0 <= i < last ==> rs[i] == p[i];
      }
    }
  }

  /** Items of three lines each make three lines per item. */
  lemma {:induction false} CollectLength(rs: seq<Result<seq<string>, BuildError>>)
    requires Collect(rs).Ok?
    requires forall i :: 0 <= i < |rs| && rs[i].Ok? ==> |rs[i].value| == 3
    ensures |Collect(rs).value| == 3 * |rs|
    decreases |rs|
  {
    if rs != [] {
      var p := rs[..|rs| - 1];
      assert forall i :: 0 <= i < |p| ==> p[i] == rs[i];
      CollectLength(p);
    }
  }

  lemma SliceOfPrefix(a: seq<string>, b: seq<string>, lo: nat, hi: nat)
    requires lo <= hi <= |a|
    ensures (a + b)[lo..hi] == a[lo..hi]
  {
  }

  /** With three lines per item, item `i` owns lines `3i .. 3i+3` of a successful collection. */
  lemma {:induction false} CollectAt(rs: seq<Result<seq<string>, BuildError>>, i: nat)
    requires Collect(rs).Ok? && i < |rs|
    requires forall j :: 0 <= j < |rs| && rs[j].Ok? ==> |rs[j].value| == 3
    ensures rs[i].Ok? && 3 * i + 3 <= |Collect(rs).value|
    ensures Collect(rs).value[3 * i..3 * i + 3] == rs[i].value
    decreases |rs|
  {
    var last := |rs| - 1;
    var p := rs[..last];
    assert forall j :: 0 <= j < |p| ==> p[j] == rs[j];
    assert Collect(p).Ok? && rs[last].Ok?;
    CollectLength(p);
    var pl := Collect(p).value;
    var d := rs[last].value;
    assert Collect(rs).value == pl + d;
    if i < last {
      CollectAt(p, i);
      SliceOfPrefix(pl, d, 3 * i, 3 * i + 3);
    } else {
      assert (pl + d)[|pl|..] == d;
    }
  }

  /** A failed collection reports the error of the first failing item. */
  lemma {:induction false} CollectFirstError(rs: seq<Result<seq<string>, BuildError>>)
    requires Collect(rs).Err?
    ensures exists i :: (0 <= i < |rs| && rs[i].Err?
                         && (forall j :: 0 <= j < i ==> rs[j].Ok?)
                         && Collect(rs).error == rs[i].error)
    decreases |rs|
  {
    var last := |rs| - 1;
    var p := rs[..last];
    assert forall i :: 0 <= i < last ==> rs[i] == p[i];
    if Collect(p).Err? {
      CollectFirstError(p);
      var i :| 0 <= i < |p| && p[i].Err?
        && (forall j :: 0 <= j < i ==> p[j].Ok?)
        && Collect(p).error == p[i].error;
      assert rs[i].Err?;
    } else {
      CollectOk(p);
    }
  }

  /** The handle section succeeds iff every handle's kind is known. */
  lemma HandleLinesOk(hs: seq<Handle>)
    ensures HandleLines(hs).Ok? <==> forall i :: 0 <= i < |hs| ==> HandleDecl(hs[i]).Ok?
  {
    var rs := HandleDecls(hs);
    CollectOk(rs);
    assert forall i :: 0 <= i < |hs| ==> rs[i] == HandleDecl(hs[i]);
  }

  /** In a successful handle section, handle `i` owns lines `3i .. 3i+3`. */
  lemma HandleLinesAt(hs: seq<Handle>, i: nat)
    requires HandleLines(hs).Ok? && i < |hs|
    ensures HandleDecl(hs[i]).Ok?
    ensures 3 * i + 3 <= |HandleLines(hs).value|
    ensures HandleLines(hs).value[3 * i..3 * i + 3] == HandleDecl(hs[i]).value
  {
    CollectAt(HandleDecls(hs), i);
  }

  /** A successful handle section has three lines per handle. */
  lemma HandleLinesLength(hs: seq<Handle>)
    requires HandleLines(hs).Ok?
    ensures |HandleLines(hs).value| == 3 * |hs|
  {
    CollectLength(HandleDecls(hs));
  }

  /** A failed handle section reports the first handle whose kind is unknown. */
  lemma HandleLinesFirstError(hs: seq<Handle>)
    requires HandleLines(hs).Err?
    ensures exists i :: (0 <= i < |hs| && HandleDecl(hs[i]).Err?
                         && (forall j :: 0 <= j < i ==> HandleDecl(hs[j]).Ok?)
                         && HandleLines(hs).error == UnknownHandleKind(hs[i].kind, hs[i].name))
  {
    var rs := HandleDecls(hs);
    CollectFirstError(rs);
    var i :| 0 <= i < |rs| && rs[i].Err? && (forall j :: 0 <= j < i ==> rs[j].Ok?)
      && Collect(rs).error == rs[i].error;
    assert forall j :: 0 <= j < i ==> rs[j] == HandleDecl(hs[j]);
    assert rs[i] == HandleDecl(hs[i]);
    assert HandleDecl(hs[i]).error == UnknownHandleKind(hs[i].kind, hs[i].name);
  }

  /** The line of a constant spells its upper-cased name and a decimal that reads back as its value. */
  lemma ConstantDeclSpec(c: ApiConstant)
    requires ConstantDecl(c).Some?
    ensures var v := ParseU32(c.value).value;
      ConstantDecl(c).value == "pub const " + UpperAscii(c.name) + ": u32 = " + NatToDecimal(v) + ";"
      && ParseU32(NatToDecimal(v)) == ParseU32(c.value)
  {
    ParseU32Canonical(c.value);
  }

  lemma ConstantLinesMembership(constants: map<string, ApiConstant>, order: seq<string>, l: string)
    requires forall k :: k in order ==> k in constants
    ensures l in ConstantLines(constants, order) <==>
      exists k :: k in order && ConstantDecl(constants[k]) == Some(l)
  {
    var opts := ConstantDecls(constants, order);
    PresentMembership(opts, l);
    if exists k :: k in order && ConstantDecl(constants[k]) == Some(l) {
      var k :| k in order && ConstantDecl(constants[k]) == Some(l);
      var i :| 0 <= i < |order| && order[i] == k;
      assert opts[i] == Some(l);
    }
  }

  /**
   * Whatever order the map is walked in, a line is in the constants section iff some
   * constant is a `uint32_t` whose value parses as u32 and that line is its declaration.
   */
  lemma ConstantLinesSpec(constants: map<string, ApiConstant>, order: seq<string>)
    requires Enumerates(order, constants.Keys)
    ensures forall l :: l in ConstantLines(constants, order) <==>
      exists k :: k in constants && ConstantDecl(constants[k]) == Some(l)
  {
    forall l ensures l in ConstantLines(constants, order) <==>
      exists k :: k in constants && ConstantDecl(constants[k]) == Some(l)
    {
      ConstantLinesMembership(constants, order, l);
    }
  }

  lemma {:induction false} MemberLinesMembership(values: map<string, int>, order: seq<string>)
    requires forall k :: k in order ==> k in values
    ensures forall l :: l in MemberLines(values, order) <==>
      exists k :: k in order && l == MemberLine(k, values[k])
    decreases |order|
  {
    if order != [] {
      var p := order[..|order| - 1];
      MemberLinesMembership(values, p);
      forall l | exists k :: k in order && l == MemberLine(k, values[k])
        ensures l in MemberLines(values, order)
      {
        var k :| k in order && l == MemberLine(k, values[k]);
        if k != order[|order| - 1] {
          assert k in p;
        }
      }
    }
  }

  /**
   * Whatever order a group's map is walked in, its block holds one line per member,
   * `pub const NAME: i32 = VALUE;`, and no other member line.
   */
  lemma MemberLinesSpec(values: map<string, int>, order: seq<string>)
    requires Enumerates(order, values.Keys)
    ensures |MemberLines(values, order)| == |values|
    ensures forall l :: l in MemberLines(values, order) <==>
      exists k :: k in values && l == MemberLine(k, values[k])
  {
    MemberLinesMembership(values, order);
    MemberLinesLength(values, order);
    EnumerationSize(order, values.Keys);
  }

  lemma {:induction false} MemberLinesLength(values: map<string, int>, order: seq<string>)
    requires forall k :: k in order ==> k in values
    ensures |MemberLines(values, order)| == |order|
    decreases |order|
  {
    if order != [] {
      MemberLinesLength(values, order[..|order| - 1]);
    }
  }

  /** A list that enumerates a set has as many entries as the set has elements. */
  lemma {:induction false} EnumerationSize(s: seq<string>, keys: set<string>)
    requires Enumerates(s, keys)
    ensures |s| == |keys|
    decreases |s|
  {
    if s != [] {
      var last := s[|s| - 1];
      var p := s[..|s| - 1];
      assert forall k :: k in p ==> k != last by {
        forall k | k in p ensures k != last {
          var i :| 0 <= i < |p| && p[i] == k;
          assert s[i] == k;
        }
      }
      assert forall k :: k in p <==> k in keys - {last} by {
        forall k ensures k in p <==> k in keys - {last} {
          if k in keys - {last} {
            var i :| 0 <= i < |s| && s[i] == k;
            assert i < |s| - 1 && p[i] == k;
          }
        }
      }
      EnumerationSize(p, keys - {last});
    } else {
      assert keys == {};
    }
  }

  lemma BlocksPrefix(enums: seq<VulkanEnum>, orders: seq<seq<string>>, g: nat)
    requires |orders| == |enums| && g <= |enums|
    ensures Blocks(enums, orders)[..g] == Blocks(enums[..g], orders[..g])
  {
  }

  lemma BlocksSuffix(enums: seq<VulkanEnum>, orders: seq<seq<string>>, g: nat)
    requires |orders| == |enums| && g <= |enums|
    ensures Blocks(enums, orders)[g..] == Blocks(enums[g..], orders[g..])
  {
  }

  /**
   * The enum section is, in extraction order, the blocks of the groups before `g`, the
   * block of group `g` (its header, its members, a blank line), then those after it.
   */
  lemma EnumLinesSplit(enums: seq<VulkanEnum>, orders: seq<seq<string>>, g: nat)
    requires |orders| == |enums| && g < |enums|
    ensures EnumLines(enums, orders) ==
      EnumLines(enums[..g], orders[..g]) + EnumBlock(enums[g], orders[g])
        + EnumLines(enums[g + 1..], orders[g + 1..])
  {
    var bs := Blocks(enums, orders);
    BlocksPrefix(enums, orders, g);
    BlocksSuffix(enums, orders, g + 1);
    var head := bs[..g] + [bs[g]];
    assert bs == head + bs[g + 1..];
    FlattenAppend(head, bs[g + 1..]);
    assert head[..|head| - 1] == bs[..g];
    assert Flatten(head) == Flatten(bs[..g]) + bs[g];
  }
}

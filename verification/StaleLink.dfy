/** Why the diff refinement needs its side condition: the link a diffing update compares against is read
    before the nested object is created, so an object recurring below itself can make it stale. */
module StaleLink {
  import opened Wrappers
  import opened Schema
  import opened Tables
  import opened ObjectAccessor
  import opened Frame
  import opened Invariants
  import opened Reuse
  import opened DiffRefinement

  const ID := Property("id", IntType, false, false, "", true)
  const NEXT := Property("next", ObjectType, true, false, "Node", false)
  const NODES: Classes := map["Node" := ObjectSchema("id", [ID, NEXT])]

  function NodeRow(next: Option<nat>): Row {
    map["id" := One(Scalar(Some(PInt(1)))), "next" := One(Link(next))]
  }

  /** One node, linking to itself. */
  const BEFORE: Group := map["Node" := [NodeRow(Some(0))]]

  const INNER := Dict(map["id" := Boxed(PInt(1)), "next" := Null])
  const OUTER := Dict(map["id" := Boxed(PInt(1)), "next" := INNER])

  lemma NodesValid()
    ensures ValidSchema(NODES) && PrimaryKey(NODES, "Node") == Some(ID)
    ensures Props(NODES, "Node") == [ID, NEXT]
    ensures Invariant(NODES, BEFORE, false)
  {
    var os := NODES["Node"];
    assert os.properties[0] == ID && os.properties[1] == NEXT;
    assert PropertyForName(os.properties, "id") == Some(ID);
    assert ValidProperty(NODES, os, ID) && ValidProperty(NODES, os, NEXT);
    assert ValidObjectSchema(NODES, os);
    forall cls, row: nat | cls in NODES && row < Size(BEFORE, cls)
      ensures RowOk(NODES, BEFORE, cls, RowAt(BEFORE, cls, row))
    {
      assert cls == "Node" && row == 0 && RowAt(BEFORE, cls, row) == NodeRow(Some(0));
    }
    assert CellOk(BEFORE, ID, CellIn(NodeRow(Some(0)), "id")) && CellOk(BEFORE, NEXT, CellIn(NodeRow(Some(0)), "next"));
  }

  /** Creating an existing node is populating its link property. */
  lemma CreateIs(st: Store, next: Option<nat>, v: Value, m: Mode, current: Option<nat>)
    requires st.tables == map["Node" := [NodeRow(next)]] && m.update
    requires v == INNER || v == OUTER
    ensures var update := SetProperty(NODES, st, "Node", 0, NEXT, v.fields["next"], m);
            Create(NODES, st, "Node", v, m, current) == if update.Done? then Done(0, update.st)
              else Threw(update.error, update.st)
  {
    NodesValid();
    var target := Target(0, false, true);
    assert KeyOf(ID, v) == KeyOk(Some(PInt(1)));
    assert FindFirst(st.tables, "Node", "id", Some(PInt(1))) == Some(0);
    assert Locate(NODES, st, "Node", v, m, current) == Done(target, st);
    assert PopulateOne(NODES, st, "Node", target, v, m, ID) == Done((), st);
    var one := PopulateOne(NODES, st, "Node", target, v, m, NEXT);
    assert one == SetProperty(NODES, st, "Node", 0, NEXT, v.fields["next"], m);
    if one.Done? {
      assert Populate(NODES, one.st, "Node", target, v, m, 2) == one;
    }
    assert Populate(NODES, st, "Node", target, v, m, 1) == one;
    assert Populate(NODES, st, "Node", target, v, m, 0) == one;
  }

  lemma LinkWritten(st: Store, before: Option<nat>, after: Option<nat>, i: Write)
    requires st.tables == map["Node" := [NodeRow(before)]]
    ensures Written(st, "Node", 0, "next", One(Link(after)), i).tables == map["Node" := [NodeRow(after)]]
  {
    assert NodeRow(before)["next" := One(Link(after))] == NodeRow(after);
    assert [NodeRow(before)][0 := NodeRow(after)] == [NodeRow(after)];
  }

  /** A node whose value contains itself: overwriting ends with the self link, diffing with none. */
  lemma RecursionBreaksDiff()
    ensures ValidSchema(NODES) && Invariant(NODES, BEFORE, false)
    ensures AddsOnly(NODES, BEFORE, "Node", OUTER) && Separate(NODES, "Node", OUTER)
    ensures !NoRecursion(NODES, "Node", OUTER)
    ensures var st := Store(BEFORE, []);
            var f := Create(NODES, st, "Node", OUTER, Mode(true, false, false), None);
            var d := Create(NODES, st, "Node", OUTER, Mode(true, true, false), None);
            && f.Done? && CellAt(f.st.tables, "Node", 0, "next") == One(Link(Some(0)))
            && d.Done? && CellAt(d.st.tables, "Node", 0, "next") == One(Link(None))
  {
    NodesValid();
    OuterRecurs();
    assert KeyedValue(NODES, "Node", OUTER);
    KeyedAddsOnly(NODES, BEFORE, "Node", OUTER);
    OuterEnds(false);
    OuterEnds(true);
  }

  lemma OuterEnds(diff: bool)
    ensures var r := Create(NODES, Store(BEFORE, []), "Node", OUTER, Mode(true, diff, false), None);
            r.Done? && CellAt(r.st.tables, "Node", 0, "next") == One(Link(if diff then None else Some(0)))
  {
    var st, m := Store(BEFORE, []), Mode(true, diff, false);
    NodesValid();
    CreateIs(st, Some(0), OUTER, m, None);
    InnerUnlinks(m);
    var cleared := Written(st, "Node", 0, "next", One(Link(None)), SetCell("Node", 0, "next"));
    LinkWritten(st, Some(0), None, SetCell("Node", 0, "next"));
    LinkWritten(cleared, None, Some(0), SetCell("Node", 0, "next"));
    var u := Unbox(NODES, st, NEXT, INNER, m, Some(0));
    assert u == Done(RowValue("Node", 0), cleared);
    assert Update(NODES, st, "Node", 0, NEXT, INNER, m) ==
           StoreIfDifferent(cleared, "Node", 0, NEXT, One(Link(Some(0))), u.value, m);
    assert SetProperty(NODES, st, "Node", 0, NEXT, INNER, m) == Update(NODES, st, "Node", 0, NEXT, INNER, m);
  }

  /** The inner node is the same row and clears its link. */
  lemma InnerUnlinks(m: Mode)
    requires m.update && !m.migration
    ensures var st := Store(BEFORE, []);
            Create(NODES, st, "Node", INNER, m, Some(0)) ==
            Done(0, Written(st, "Node", 0, "next", One(Link(None)), SetCell("Node", 0, "next")))
  {
    CreateIs(Store(BEFORE, []), Some(0), INNER, m, Some(0));
  }

  lemma OuterRecurs()
    ensures !NoRecursion(NODES, "Node", OUTER)
  {
    NodesValid();
    var touch := ("Node", Some(PInt(1)), "next");
    assert KeyOf(ID, OUTER) == KeyOk(Some(PInt(1))) == KeyOf(ID, INNER);
    assert NEXT in Props(NODES, "Node");
    assert "next" in OwnColumns(NODES, "Node", INNER);
    assert touch in OwnTouches(NODES, "Node", INNER);
    assert touch in TouchesProperty(NODES, NEXT, INNER);
  }

  /** Linking a node to itself by its key alone is not such a recursion: both modes agree on it. */
  lemma SelfLinkAgrees(st: Store, update: bool)
    requires Invariant(NODES, st.tables, false)
    ensures var v := Dict(map["id" := Boxed(PInt(1)), "next" := Dict(map["id" := Boxed(PInt(1))])]);
            Agree(Create(NODES, st, "Node", v, Mode(update, false, false), None),
                  Create(NODES, st, "Node", v, Mode(update, true, false), None))
  {
    NodesValid();
    var inner := Dict(map["id" := Boxed(PInt(1))]);
    var v := Dict(map["id" := Boxed(PInt(1)), "next" := inner]);
    assert OwnColumns(NODES, "Node", inner) == {};
    assert TouchesAt(NODES, inner, ID) == {};
    assert TouchesFrom(NODES, "Node", inner, 1) == {};
    assert Touches(NODES, "Node", inner) == {};
    assert NoRecursion(NODES, "Node", v);
    assert KeyedValue(NODES, "Node", v);
    KeyedAddsOnly(NODES, st.tables, "Node", v);
    DiffRefinesOverwrite(NODES, st, "Node", v, update, false);
  }
}

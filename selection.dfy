/** What one handler call of the edit-page chart does to the pair
    (`selectedNodes`, `currentNode`), as a function of the state the handler
    reads. React applies the handler's queued updates together once it returns;
    the class in module EditPageChart carries out that batching step by step
    and is proved to end in the values given here. */
module Selection {
  import opened Nodes

  /** The selection the diagram highlights and the node the description panel shows. */
  datatype View = View(selected: seq<Node>, current: Option<Node>)

  /** The state when the edit page mounts. */
  const Empty: View := View([], None)

  predicate AllOfKind(s: seq<Node>, k: Kind) {
    forall i :: 0 <= i < |s| ==> s[i].kind == k
  }

  /** Unique ids, and either skills only or one single module. */
  predicate WellFormed(s: seq<Node>) {
    NoDupIds(s) && (AllOfKind(s, Skill) || (|s| == 1 && s[0].kind == Module))
  }

  /** The invariant every reachable state keeps: a well-formed selection, and no
      current node while nothing is selected. */
  predicate Inv(v: View) {
    WellFormed(v.selected) && (v.selected == [] ==> v.current == None)
  }

  predicate SameKind(s: seq<Node>) {
    forall i :: 0 <= i < |s| ==> s[i].kind == s[0].kind
  }

  predicate AtMostOneModule(s: seq<Node>) {
    forall i, j :: 0 <= i < j < |s| ==> s[i].kind != Module || s[j].kind != Module
  }

  /** `toggleSelectModuleNode`: deselect everything when the module is already
      selected, otherwise select it alone. */
  function ToggleModule(v: View, target: Node): View {
    if target in v.selected then View([], None) else View([target], Some(target))
  }

  /** `toggleSelectSkillNode`: a module in front is discarded, an absent skill is
      appended, a present one is filtered out by id. */
  function ToggleSkill(v: View, target: Node): View {
    if |v.selected| > 0 && v.selected[0].kind == Module then View([target], Some(target))
    else if target !in v.selected then View(v.selected + [target], Some(target))
    else View(RemoveId(v.selected, target.id), None)
  }

  /** `selectOneSkillNodeAtATime`. */
  function SelectOneSkill(v: View, target: Node): View {
    if |v.selected| == 0 then ToggleSkill(v, target)
    else if |v.selected| == 1 then
      if target == v.selected[0] then ToggleSkill(v, target) else View([target], Some(target))
    else View([target], v.current)
  }

  /** `handleSkillNodeClick`: ctrl extends the selection, a plain click picks one. */
  function SkillClick(v: View, target: Node, ctrlKey: bool): View {
    if ctrlKey then ToggleSkill(v, target) else SelectOneSkill(v, target)
  }

  /** `handleNodeClick`: dispatch on the node's type; other types are ignored. */
  function NodeClick(v: View, node: Node, ctrlKey: bool): View {
    if node.kind == Module then ToggleModule(v, node)
    else if node.kind == Skill then SkillClick(v, node, ctrlKey)
    else v
  }

  /** The callback a long touch fires: skills always take the multi-select toggle. */
  function LongPress(v: View, node: Node): View {
    if node.kind == Skill then ToggleSkill(v, node)
    else if node.kind == Module then ToggleModule(v, node)
    else v
  }

  // ---------------------------------------------------------------------------
  // The invariant

  /** A well-formed selection has the three properties the design names:
      unique ids, one kind throughout, at most one module; and nothing in it
      is of another type. */
  lemma WellFormedProperties(s: seq<Node>)
    requires WellFormed(s)
    ensures NoDupIds(s) && SameKind(s) && AtMostOneModule(s)
    ensures forall i :: 0 <= i < |s| ==> s[i].kind == Module || s[i].kind == Skill
  {
  }

  /** Under the invariant, a module is in the selection exactly when it is the
      whole selection, so the `includes` test at line 84 is the design's
      "already the sole element" test. */
  lemma ModuleInSelectionIsSole(v: View, m: Node)
    requires Inv(v) && m.kind == Module
    ensures m in v.selected <==> v.selected == [m]
  {
  }

  /** A selection with no module in front holds skills only. */
  lemma SkillsBehindNonModule(v: View)
    requires Inv(v)
    requires !(|v.selected| > 0 && v.selected[0].kind == Module)
    ensures AllOfKind(v.selected, Skill)
  {
  }

  /** Appending a skill that is not selected keeps ids unique: a selected skill
      with its id would be the same node. */
  lemma AppendSkillKeepsWellFormed(s: seq<Node>, t: Node)
    requires AllOfKind(s, Skill) && NoDupIds(s)
    requires t.kind == Skill && t !in s
    ensures WellFormed(s + [t])
  {
  }

  lemma {:induction false} ToggleSkillKeepsInv(v: View, t: Node)
    requires Inv(v) && t.kind == Skill
    ensures Inv(ToggleSkill(v, t))
  {
    if !(|v.selected| > 0 && v.selected[0].kind == Module) {
      SkillsBehindNonModule(v);
      if t !in v.selected {
        AppendSkillKeepsWellFormed(v.selected, t);
      } else {
        var r := RemoveId(v.selected, t.id);
        RemoveIdKeepsNoDupIds(v.selected, t.id);
        forall i | 0 <= i < |r| ensures r[i].kind == Skill {
          assert r[i] in v.selected;
        }
      }
    }
  }

  /** Every click keeps the invariant. */
  lemma {:induction false} NodeClickKeepsInv(v: View, node: Node, ctrlKey: bool)
    requires Inv(v)
    ensures Inv(NodeClick(v, node, ctrlKey))
  {
    if node.kind == Skill {
      ToggleSkillKeepsInv(v, node);
    }
  }

  /** Every fired long press keeps the invariant. */
  lemma {:induction false} LongPressKeepsInv(v: View, node: Node)
    requires Inv(v)
    ensures Inv(LongPress(v, node))
  {
    if node.kind == Skill {
      ToggleSkillKeepsInv(v, node);
    }
  }

  // ---------------------------------------------------------------------------
  // The rules of each handler

  /** Module toggle: an already selected module empties the selection and the
      panel; any other module becomes the whole selection and the current node,
      whatever was there before. */
  lemma ModuleToggle(v: View, m: Node)
    ensures m in v.selected ==> ToggleModule(v, m) == Empty
    ensures m !in v.selected ==> ToggleModule(v, m) == View([m], Some(m))
  {
  }

  /** Toggling a module twice from a state that does not hold it ends empty. */
  lemma ModuleToggleTwice(v: View, m: Node)
    requires m !in v.selected
    ensures ToggleModule(ToggleModule(v, m), m) == Empty
  {
  }

  /** Skill toggle over a selected module: the module is dropped and the skill
      is selected alone. */
  lemma ToggleSkillOverModule(v: View, t: Node)
    requires |v.selected| > 0 && v.selected[0].kind == Module
    ensures ToggleSkill(v, t) == View([t], Some(t))
  {
  }

  /** Skill toggle on an absent skill: appended last, the earlier elements kept
      in order, and it becomes current. */
  lemma ToggleSkillAppends(v: View, t: Node)
    requires !(|v.selected| > 0 && v.selected[0].kind == Module) && t !in v.selected
    ensures var r := ToggleSkill(v, t);
      |r.selected| == |v.selected| + 1 && r.selected[..|v.selected|] == v.selected
      && r.selected[|v.selected|] == t && r.current == Some(t)
  {
  }

  /** Skill toggle on a present skill: exactly that element leaves, the others
      keep their order, and the panel is cleared. */
  lemma ToggleSkillRemoves(v: View, k: nat)
    requires NoDupIds(v.selected) && k < |v.selected|
    requires v.selected[0].kind != Module
    ensures var r := ToggleSkill(v, v.selected[k]);
      r.selected == v.selected[..k] + v.selected[k + 1..] && r.current == None
  {
    RemoveIdAt(v.selected, k);
  }

  /** Two multi-select toggles of the same absent skill restore the selection
      (and leave no current node). */
  lemma ToggleSkillTwice(v: View, t: Node)
    requires Inv(v) && t.kind == Skill && t !in v.selected
    requires !(|v.selected| > 0 && v.selected[0].kind == Module)
    ensures ToggleSkill(ToggleSkill(v, t), t) == View(v.selected, None)
  {
    SkillsBehindNonModule(v);
    var s := v.selected;
    forall i | 0 <= i < |s| ensures s[i].id != t.id {
      assert s[i].kind == Skill;
    }
    AppendSkillKeepsWellFormed(s, t);
    assert (s + [t])[|s|] == t;
    RemoveIdAt(s + [t], |s|);
    assert (s + [t])[..|s|] == s;
  }

  /** One-at-a-time selection: from empty the target is selected alone; from
      exactly the target the selection empties; from exactly another node
      (skill or module) the target replaces it. */
  lemma SelectOneSkillSmall(v: View, t: Node)
    requires t.kind == Skill
    ensures v.selected == [] ==> SelectOneSkill(v, t) == View([t], Some(t))
    ensures v.selected == [t] ==> SelectOneSkill(v, t) == Empty
    ensures |v.selected| == 1 && v.selected[0] != t ==> SelectOneSkill(v, t) == View([t], Some(t))
  {
  }

  /** One-at-a-time selection over several nodes collapses them to the target
      but leaves `currentNode` as it was (line 58 sets only the selection). */
  lemma SelectOneSkillCollapse(v: View, t: Node)
    requires |v.selected| > 1
    ensures SelectOneSkill(v, t) == View([t], v.current)
  {
  }

  /** Click dispatch by type. */
  lemma NodeClickDispatch(v: View, n: Node, ctrlKey: bool)
    ensures n.kind == Module ==> NodeClick(v, n, ctrlKey) == ToggleModule(v, n)
    ensures n.kind == Skill && ctrlKey ==> NodeClick(v, n, ctrlKey) == ToggleSkill(v, n)
    ensures n.kind == Skill && !ctrlKey ==> NodeClick(v, n, ctrlKey) == SelectOneSkill(v, n)
    ensures n.kind != Module && n.kind != Skill ==> NodeClick(v, n, ctrlKey) == v
  {
  }

  // ---------------------------------------------------------------------------
  // Where the code departs from the design

  /** After the collapse of line 58 the panel can show a node that is no longer
      selected: ctrl-select s2 and s3, then click s4. */
  lemma CollapseLeavesStaleCurrent()
    ensures var s3 := Node("s3", Skill);
      var v := View([Node("s2", Skill), s3], Some(s3));
      var r := SelectOneSkill(v, Node("s4", Skill));
      Inv(v) && r.current == Some(s3) && s3 !in r.selected
  {
  }

  /** Deselecting one of several skills (line 77) clears the panel although
      other skills stay selected. */
  lemma ToggleOffClearsCurrentWithOthersSelected()
    ensures var s2 := Node("s2", Skill);
      var s3 := Node("s3", Skill);
      var r := ToggleSkill(View([s2, s3], Some(s3)), s3);
      r.selected == [s2] && r.current == None
  {
  }
}

/** The edit-page chart component: its node handlers, the React state they
    update (`selectedNodes`, `currentNode`, owned by the edit page) and the
    long-touch `timer` variable.

    The setter calls are applied as one batch per event. During one event
    every handler reads the state as it was when the event began
    (`selectedNodes`, `currentNode`); each setter call writes the queued value
    (`queuedNodes`, `queuedCurrent`): a plain value replaces it, an updater
    function is applied to it; once the event's handlers return, the queued
    values become the state. Whether React batches updates from these DOM
    listeners depends on its version; without batching the final pair is the
    same, since the handlers read their closure's state, a plain set replaces
    the latest value and an updater applies to it. */
module EditPageChart {
  import opened Nodes
  import opened Selection
  import Gesture

  class Chart {
    var selectedNodes: seq<Node>
    var currentNode: Option<Node>
    var queuedNodes: seq<Node>
    var queuedCurrent: Option<Node>
    /** The host's scheduled timers started by this component, by handle. */
    var timers: map<nat, Node>
    /** `let timer`: the handle of the last timer started. */
    var timer: Option<nat>
    /** The handle the host gives the next `setTimeout`. */
    var nextHandle: nat

    /** The state an observer of the page sees. */
    function State(): Gesture.State
      reads this
    {
      Gesture.State(View(selectedNodes, currentNode), timers, timer, nextHandle)
    }

    ghost predicate Valid()
      reads this
    {
      Gesture.Inv(State())
    }

    /** The page mounts with nothing selected and no timer. */
    constructor ()
      ensures Valid() && State() == Gesture.Init
    {
      selectedNodes, currentNode := [], None;
      queuedNodes, queuedCurrent := [], None;
      timers, timer, nextHandle := map[], None, 1;
    }

    /** `selectedNodeIds`, handed to the diagram to highlight: the ids of the
        selection in order, all different. */
    function SelectedNodeIds(): (ids: seq<string>)
      reads this
      ensures |ids| == |selectedNodes|
      ensures forall i :: 0 <= i < |ids| ==> ids[i] == selectedNodes[i].id
      ensures Valid() ==> forall i, j :: 0 <= i < j < |ids| ==> ids[i] != ids[j]
    {
      Ids(selectedNodes)
    }

    // -------------------------------------------------------------------------
    // React's state hooks

    /** An event begins: the queue holds the current state. */
    method BeginEvent()
      modifies this`queuedNodes, this`queuedCurrent
      ensures queuedNodes == selectedNodes && queuedCurrent == currentNode
    {
      queuedNodes, queuedCurrent := selectedNodes, currentNode;
    }

    /** The event's handlers have returned: the queued values become the state. */
    method CommitEvent()
      modifies this`selectedNodes, this`currentNode
      ensures selectedNodes == queuedNodes && currentNode == queuedCurrent
    {
      selectedNodes, currentNode := queuedNodes, queuedCurrent;
    }

    /** `setSelectedNodes(nodes)` */
    method SetSelectedNodes(nodes: seq<Node>)
      modifies this`queuedNodes
      ensures queuedNodes == nodes
    {
      queuedNodes := nodes;
    }

    /** `setSelectedNodes` with an updater that appends `node` to the queued array. */
    method AppendSelectedNode(node: Node)
      modifies this`queuedNodes
      ensures queuedNodes == old(queuedNodes) + [node]
    {
      queuedNodes := queuedNodes + [node];
    }

    /** `setSelectedNodes` with an updater that drops the elements with id `id`. */
    method FilterOutSelectedId(id: string)
      modifies this`queuedNodes
      ensures queuedNodes == RemoveId(old(queuedNodes), id)
    {
      queuedNodes := RemoveId(queuedNodes, id);
    }

    /** `setCurrentNode(node)`, `null` being `None`. */
    method SetCurrentNode(node: Option<Node>)
      modifies this`queuedCurrent
      ensures queuedCurrent == node
    {
      queuedCurrent := node;
    }

    // -------------------------------------------------------------------------
    // The host's timers

    /** `setTimeout`: schedules the long-touch callback for `subject`. */
    method SetTimeout(subject: Node) returns (h: nat)
      modifies this`timers, this`nextHandle
      ensures h == old(nextHandle) && nextHandle == h + 1
      ensures timers == old(timers)[h := subject]
    {
      h := nextHandle;
      timers := timers[h := subject];
      nextHandle := nextHandle + 1;
    }

    /** `clearTimeout`: a timer that already ran or was cleared is left alone. */
    method ClearTimeout(h: nat)
      modifies this`timers
      ensures timers == old(timers) - {h}
    {
      timers := timers - {h};
    }

    // -------------------------------------------------------------------------
    // The handlers, each run inside an event

    /** `toggleSelectModuleNode` */
    method ToggleSelectModuleNode(target: Node)
      modifies this`queuedNodes, this`queuedCurrent
      ensures View(queuedNodes, queuedCurrent) == ToggleModule(View(selectedNodes, currentNode), target)
    {
      if target in selectedNodes {
        SetSelectedNodes([]);
        SetCurrentNode(None);
      } else {
        SetSelectedNodes([target]);
        SetCurrentNode(Some(target));
      }
    }

    /** `toggleSelectSkillNode`. Its tests read the state as of the event's
        start, while the append and the filter apply to whatever is queued. */
    method ToggleSelectSkillNode(target: Node)
      modifies this`queuedNodes, this`queuedCurrent
      ensures |selectedNodes| > 0 && selectedNodes[0].kind == Module ==>
        queuedNodes == [target] && queuedCurrent == Some(target)
      ensures !(|selectedNodes| > 0 && selectedNodes[0].kind == Module) && target !in selectedNodes ==>
        queuedNodes == old(queuedNodes) + [target] && queuedCurrent == Some(target)
      ensures !(|selectedNodes| > 0 && selectedNodes[0].kind == Module) && target in selectedNodes ==>
        queuedNodes == RemoveId(old(queuedNodes), target.id) && queuedCurrent == None
    {
      if |selectedNodes| > 0 && selectedNodes[0].kind == Module {
        SetCurrentNode(Some(target));
        SetSelectedNodes([target]);
      } else if target !in selectedNodes {
        SetCurrentNode(Some(target));
        AppendSelectedNode(target);
      } else {
        FilterOutSelectedId(target.id);
        SetCurrentNode(None);
      }
    }

    /** `selectOneSkillNodeAtATime`, called on an event's fresh queue. When one
        other node is selected it queues an empty selection and then toggles;
        the toggle's test still sees that node, its append sees the empty
        queue, so the target ends alone. */
    method SelectOneSkillNodeAtATime(target: Node)
      requires queuedNodes == selectedNodes && queuedCurrent == currentNode
      modifies this`queuedNodes, this`queuedCurrent
      ensures View(queuedNodes, queuedCurrent) == SelectOneSkill(View(selectedNodes, currentNode), target)
    {
      if |selectedNodes| == 0 {
        ToggleSelectSkillNode(target);
      } else if |selectedNodes| == 1 {
        if target == selectedNodes[0] {
          ToggleSelectSkillNode(target);
        } else {
          SetSelectedNodes([]);
          ToggleSelectSkillNode(target);
        }
      } else {
        SetSelectedNodes([target]);
      }
    }

    /** `handleSkillNodeClick` */
    method HandleSkillNodeClick(target: Node, ctrlKey: bool)
      requires queuedNodes == selectedNodes && queuedCurrent == currentNode
      modifies this`queuedNodes, this`queuedCurrent
      ensures View(queuedNodes, queuedCurrent) == SkillClick(View(selectedNodes, currentNode), target, ctrlKey)
    {
      if ctrlKey {
        ToggleSelectSkillNode(target);
      } else {
        SelectOneSkillNodeAtATime(target);
      }
    }

    // -------------------------------------------------------------------------
    // The events the diagram delivers

    /** `handleNodeClick`, as one event. */
    method HandleNodeClick(node: Node, ctrlKey: bool)
      requires Valid()
      modifies this`selectedNodes, this`currentNode, this`queuedNodes, this`queuedCurrent
      ensures Valid()
      ensures State() == Gesture.Step(old(State()), Gesture.Click(node, ctrlKey))
    {
      BeginEvent();
      if node.kind == Module {
        ToggleSelectModuleNode(node);
      } else if node.kind == Skill {
        HandleSkillNodeClick(node, ctrlKey);
      }
      CommitEvent();
      Gesture.StepKeepsInv(old(State()), Gesture.Click(node, ctrlKey));
    }

    /** `handleNodeTouchStart`; `coarse` is the answer of the pointer media query. */
    method HandleNodeTouchStart(node: Node, coarse: bool)
      requires Valid()
      modifies this`timers, this`timer, this`nextHandle
      ensures Valid()
      ensures State() == Gesture.Step(old(State()), Gesture.TouchStart(node, coarse))
    {
      if coarse {
        var h := SetTimeout(node);
        timer := Some(h);
      }
    }

    /** `handleNodeTouchEnd` */
    method HandleNodeTouchEnd()
      requires Valid()
      modifies this`timers
      ensures Valid()
      ensures State() == Gesture.Step(old(State()), Gesture.TouchEnd)
    {
      if timer.Some? {
        ClearTimeout(timer.value);
      }
    }

    /** The host runs timer `h`, if it is still scheduled: the callback set up
        by `handleNodeTouchStart`, as one event. */
    method FireTimer(h: nat)
      requires Valid()
      modifies this`selectedNodes, this`currentNode, this`queuedNodes, this`queuedCurrent, this`timers
      ensures Valid()
      ensures State() == Gesture.Step(old(State()), Gesture.Fire(h))
    {
      if h in timers {
        var subject := timers[h];
        timers := timers - {h};
        BeginEvent();
        if subject.kind == Skill {
          ToggleSelectSkillNode(subject);
        } else if subject.kind == Module {
          ToggleSelectModuleNode(subject);
        }
        CommitEvent();
      }
      Gesture.StepKeepsInv(old(State()), Gesture.Fire(h));
    }
  }
}

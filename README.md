# Node selection on the skill-tree edit page

This project models the selection logic of the skill-tree editor's edit page
in Dafny and proves properties of it.

The edit page draws a tree of `module` and `skill` nodes. Clicks, ctrl-clicks
and long touches on those nodes change two pieces of React state:

- `selectedNodes`, the ordered selection that the diagram highlights;
- `currentNode`, the node the description panel shows and that the update and
  delete buttons act on.

The component file src/components/EditPageChart.jsx is split into three
pure modules (`Nodes`, `Selection`, `Gesture`) and one class
(`EditPageChart`). The pure modules state the rules and prove them; the class
follows the component's code:

- `Nodes` (nodes.dfy): a node reduced to its `id` and `type`. It also holds the
  two sequence operations the chart uses: the id map handed to the diagram, and
  the filter that drops one id.
- `Selection` (selection.dfy): each handler as a function from the state it
  reads to the state React holds once the event is over. It also holds the
  selection invariant and the lemmas about each handler.
- `Gesture` (gesture.dfy): the events the diagram delivers (click, touch start,
  touch end, and a timer firing) and the long-touch timers. It holds `Step`,
  `Run` and the invariant over any sequence of events.
- `EditPageChart` (edit_page_chart.dfy): the component as a class. Its handler
  methods issue the same setter calls in the same order as the component.
  The way React applies those calls is written out as one batch per event:
  - During one event every read sees the state as it was when the event began.
  - `setSelectedNodes(value)` replaces the queued value.
  - `setSelectedNodes(fn)` applies `fn` to the queued value.
  - When the handlers return, the queued values become the state.

  The diagram's handlers are DOM listeners, and whether React batches their
  updates depends on its version. The final pair is the same either way:
  - the reads come from the closure, so they see the state the event began
    with;
  - a plain set replaces the latest value;
  - an updater applies to the latest value.

  Each event method is proved to end in `Gesture.Step` of the old state and to
  keep the invariant.
- `EditPage` (edit_page.dfy): `getNodesById`, with a model of `split(",")`
  proved to be the inverse of `join(",")`.

## Code and design

In the places below, the design description of the editor and the code
disagree. The model follows the code, and a lemma states what the code does.

- When more than one node is selected, a plain click on a skill replaces the
  selection with that skill (line 58). It does not set `currentNode`, so the
  panel can show a node that is no longer selected:
  `Selection.SelectOneSkillCollapse`, `Selection.CollapseLeavesStaleCurrent`,
  `Gesture.ClickSession`. The design gives the clicked skill as the current
  node there, and its example session ends with `s4` current. In the code it
  ends with `s3`.
- The module toggle tests `selectedNodes.includes(target)` (line 84). The
  design tests "the module is the sole element". Under the invariant the two
  tests agree: `Selection.ModuleInSelectionIsSole`.
- The design says a module gesture twice in a row empties any selection. That
  holds only when the module was not selected before:
  `Selection.ModuleToggleTwice`.
- The design says a new touch cancels a pending timer. The code overwrites
  `timer` without clearing it (line 26), so the earlier timer still fires:
  `Gesture.SecondTouchLeavesFirstArmed`.

The design agrees with the code on one more point but leaves it as an open
question. Deselecting one skill among several clears `currentNode` (line 77)
although other skills stay selected:
`Selection.ToggleOffClearsCurrentWithOthersSelected`.

Several lemmas state one branch of the function they name:
- `Selection.ModuleToggle`
- `Selection.ToggleSkillOverModule`
- `Selection.ToggleSkillAppends`
- `Selection.SelectOneSkillCollapse`
- `Selection.NodeClickDispatch`
- `Gesture.FinePointerArmsNothing`
- `Gesture.FireOfClearedTimer`

They state the rules in readable form but add no evidence of their own. The
evidence is in three places:
- the `ensures` of the `EditPageChart.Chart` methods, which tie each handler's
  setter calls to these functions;
- the invariant lemmas;
- the lemmas whose proofs need induction.

## Model

| member | source | states |
|---|---|---|
| `Nodes.Ids` | src/components/EditPageChart.jsx:102 | the ids handed to the diagram are the selection's ids, position by position |
| `Nodes.RemoveId` | src/components/EditPageChart.jsx:74-76 | the filter keeps exactly the elements whose id differs from the target's |
| `Nodes.RemoveIdKeepsNoDupIds` | src/components/EditPageChart.jsx:74-76 | filtering keeps ids unique |
| `Nodes.RemoveAbsentId` | src/components/EditPageChart.jsx:74-76 | filtering out an id that no element carries changes nothing |
| `Nodes.RemoveIdAt` | src/components/EditPageChart.jsx:74-76 | when ids are unique, filtering out the id at position k removes only that element and keeps the rest in order |
| `Selection.ToggleModule` | src/components/EditPageChart.jsx:83-92 | no contract (it computes the module toggle); its rules are stated by `Selection.ModuleToggle`, `Selection.ModuleToggleTwice` and `Selection.ModuleInSelectionIsSole` |
| `Selection.ToggleSkill` | src/components/EditPageChart.jsx:64-79 | no contract (it computes the skill toggle); its rules are stated by `Selection.ToggleSkillOverModule`, `Selection.ToggleSkillAppends`, `Selection.ToggleSkillRemoves`, `Selection.ToggleSkillTwice` and `Selection.ToggleSkillKeepsInv` |
| `Selection.SelectOneSkill` | src/components/EditPageChart.jsx:47-60 | no contract (it computes the one-at-a-time rule); its rules are stated by `Selection.SelectOneSkillSmall` and `Selection.SelectOneSkillCollapse` |
| `Selection.SkillClick` | src/components/EditPageChart.jsx:38-45 | no contract (ctrl picks the skill toggle, otherwise one-at-a-time); stated by `Selection.NodeClickDispatch` |
| `Selection.NodeClick` | src/components/EditPageChart.jsx:14-20 | no contract (dispatch on the node's type); stated by `Selection.NodeClickDispatch` and `Selection.NodeClickKeepsInv` |
| `Selection.LongPress` | src/components/EditPageChart.jsx:26-29 | no contract (the timer callback's dispatch); stated by `Gesture.LongPressOnSkill`, `Gesture.LongPressOnModule` and `Selection.LongPressKeepsInv` |
| `Selection.WellFormedProperties` | src/components/EditPageChart.jsx:62-92 | a well-formed selection has unique ids, a single kind and at most one module |
| `Selection.ModuleInSelectionIsSole` | src/components/EditPageChart.jsx:84 | under the invariant, a selected module is the whole selection |
| `Selection.AppendSkillKeepsWellFormed` | src/components/EditPageChart.jsx:68-71 | appending an unselected skill to skills keeps ids unique |
| `Selection.ToggleSkillKeepsInv` | src/components/EditPageChart.jsx:64-79 | the skill toggle keeps the invariant |
| `Selection.NodeClickKeepsInv` | src/components/EditPageChart.jsx:14-20 | every click keeps the invariant |
| `Selection.LongPressKeepsInv` | src/components/EditPageChart.jsx:26-29 | every fired long press keeps the invariant |
| `Selection.ModuleToggle` | src/components/EditPageChart.jsx:83-92 | a selected module empties selection and panel; any other module becomes the only selected node and the current node, whatever was selected before |
| `Selection.ModuleToggleTwice` | src/components/EditPageChart.jsx:83-92 | toggling an unselected module twice ends with nothing selected |
| `Selection.ToggleSkillOverModule` | src/components/EditPageChart.jsx:65-67 | when a module is first, the skill toggle discards it and selects the skill alone as current |
| `Selection.ToggleSkillAppends` | src/components/EditPageChart.jsx:68-71 | an absent skill is appended last, earlier elements are kept in order, and it becomes current |
| `Selection.ToggleSkillRemoves` | src/components/EditPageChart.jsx:72-77 | a present skill leaves, the rest keep their order, and the panel is cleared |
| `Selection.ToggleSkillTwice` | src/components/EditPageChart.jsx:64-79 | two multi-select toggles of one absent skill restore the selection, with no current node |
| `Selection.SelectOneSkillSmall` | src/components/EditPageChart.jsx:47-56 | from empty: [target] and current; from [target]: empty; from [other]: [target] and current |
| `Selection.SelectOneSkillCollapse` | src/components/EditPageChart.jsx:57-58 | over more than one node the selection becomes [target] and the current node is unchanged |
| `Selection.NodeClickDispatch` | src/components/EditPageChart.jsx:14-20 | modules go to the module toggle; skills go to the multi-select toggle with ctrl and to one-at-a-time without; any other type changes nothing |
| `Selection.CollapseLeavesStaleCurrent` | src/components/EditPageChart.jsx:57-58 | after a collapse the current node can be a node outside the selection |
| `Selection.ToggleOffClearsCurrentWithOthersSelected` | src/components/EditPageChart.jsx:77 | deselecting one of two skills clears the panel while the other stays selected |
| `Gesture.Step` | src/components/EditPageChart.jsx:14-36 | no contract (one event: a click, a touch start, a touch end, or a timer firing); stated by `Gesture.StepKeepsInv` and the touch lemmas, and tied to the component by the `EditPageChart.Chart` event methods |
| `Gesture.Run` | src/components/EditPageChart.jsx:14-36 | no contract (events in order); stated by `Gesture.RunKeepsInv`, `Gesture.ReachableSelection`, `Gesture.ClearedStaysCleared` and `Gesture.ClickSession` |
| `Gesture.StepKeepsInv` | src/components/EditPageChart.jsx:14-92 | every event keeps the selection invariant, and every timer handle stays below the next one handed out |
| `Gesture.RunKeepsInv` | src/components/EditPageChart.jsx:14-92 | any sequence of events keeps the invariant |
| `Gesture.ReachableSelection` | src/pages/Edit.jsx:47-48 | from the mounted state, after any events: ids are unique, there is one kind, at most one module, and no current node while nothing is selected |
| `Gesture.FinePointerArmsNothing` | src/components/EditPageChart.jsx:24 | without a coarse pointer a touch start changes nothing |
| `Gesture.ShortTouchChangesNothing` | src/components/EditPageChart.jsx:33-36 | a touch ending before its timer fires leaves the selection unchanged and removes the timer it armed |
| `Gesture.FireOfClearedTimer` | src/components/EditPageChart.jsx:35 | firing a handle that is not scheduled changes nothing; `Gesture.ClearedStaysCleared` keeps it that way under later events |
| `Gesture.ClearedStaysCleared` | src/components/EditPageChart.jsx:35 | once a handle is issued and unscheduled, it stays unscheduled under any later events |
| `Gesture.ShortTouchNeverFires` | src/components/EditPageChart.jsx:33-36 | after a touch ends before its timer fires, firing that timer changes nothing, whatever events came in between |
| `Gesture.LongPressOnSkill` | src/components/EditPageChart.jsx:26-27 | a fired long press on a skill is the multi-select toggle |
| `Gesture.LongPressOnModule` | src/components/EditPageChart.jsx:28 | a fired long press on a module is the module toggle |
| `Gesture.SecondTouchLeavesFirstArmed` | src/components/EditPageChart.jsx:26 | a second touch start overwrites `timer`, so a touch end clears only the second timer and the first still fires |
| `Gesture.ClickSession` | src/components/EditPageChart.jsx:14-92 | a six-click session, state by state, ending with [s4] selected and s3 current |
| `EditPageChart.Chart.constructor` | src/pages/Edit.jsx:47-48 | the page mounts with nothing selected and no timer (the state the edit page passes down to the chart) |
| `EditPageChart.Chart.SelectedNodeIds` | src/components/EditPageChart.jsx:102 | the highlighted ids are the selection's ids in order, all different |
| `EditPageChart.Chart.SetSelectedNodes` | src/components/EditPageChart.jsx:54 | a plain `setSelectedNodes` call replaces the queued selection with the given value (also lines 58, 67, 85 and 89) |
| `EditPageChart.Chart.AppendSelectedNode` | src/components/EditPageChart.jsx:71 | the updater form appends the node to the latest queued selection |
| `EditPageChart.Chart.FilterOutSelectedId` | src/components/EditPageChart.jsx:74-76 | the updater form filters the latest queued selection by id |
| `EditPageChart.Chart.SetCurrentNode` | src/components/EditPageChart.jsx:66 | `setCurrentNode` replaces the queued current node, `null` being `None` (also lines 70, 77, 86 and 90) |
| `EditPageChart.Chart.SetTimeout` | src/components/EditPageChart.jsx:26 | `setTimeout` schedules the callback for the node under a fresh handle and returns that handle |
| `EditPageChart.Chart.ClearTimeout` | src/components/EditPageChart.jsx:35 | `clearTimeout` unschedules the handle, and does nothing if the timer has already run or been cleared |
| `EditPageChart.Chart.ToggleSelectModuleNode` | src/components/EditPageChart.jsx:83-92 | the queued pair is the module toggle of the state the event began with |
| `EditPageChart.Chart.ToggleSelectSkillNode` | src/components/EditPageChart.jsx:64-79 | the tests read the state the event began with; the append and the filter apply to the queued selection; the plain set replaces it |
| `EditPageChart.Chart.SelectOneSkillNodeAtATime` | src/components/EditPageChart.jsx:47-60 | on a fresh queue the result is the one-at-a-time rule; the empty set at line 54 followed by the append at line 71 yields [target] |
| `EditPageChart.Chart.HandleSkillNodeClick` | src/components/EditPageChart.jsx:38-45 | ctrl selects the multi-select toggle, otherwise one-at-a-time |
| `EditPageChart.Chart.HandleNodeClick` | src/components/EditPageChart.jsx:14-20 | one click event ends in `Gesture.Step` of the old state and keeps the invariant |
| `EditPageChart.Chart.HandleNodeTouchStart` | src/components/EditPageChart.jsx:23-31 | on a coarse pointer a new timer is scheduled for the node and its handle is stored in `timer`; otherwise nothing changes |
| `EditPageChart.Chart.HandleNodeTouchEnd` | src/components/EditPageChart.jsx:33-36 | the timer whose handle is in `timer` is cleared |
| `EditPageChart.Chart.FireTimer` | src/components/EditPageChart.jsx:26-29 | a scheduled timer runs once: skill toggle or module toggle on its node, then it is gone |
| `EditPage.Split` | src/pages/Edit.jsx:203 | `split(",")` gives at least one piece, and no piece contains a comma |
| `EditPage.JoinSplit` | src/pages/Edit.jsx:203 | joining the pieces with commas gives back the string |
| `EditPage.SplitJoin` | src/pages/Edit.jsx:203 | splitting comma-free pieces joined with commas gives back the pieces |
| `EditPage.FilterById` | src/pages/Edit.jsx:204 | the filter keeps exactly the nodes whose id is listed |
| `EditPage.FilterIsSubsequence` | src/pages/Edit.jsx:204 | the filter keeps the nodes in their original order |
| `EditPage.FilterKeepsNoDupIds` | src/pages/Edit.jsx:204 | filtering a tree with unique ids gives nodes with unique ids |
| `EditPage.FilterDependsOnIdSet` | src/pages/Edit.jsx:204 | only which ids are listed matters, not their order or repetition |
| `EditPage.GetNodesById` | src/pages/Edit.jsx:200-207 | "blank" gives no nodes; links are always empty; otherwise a node is returned exactly when it is in the tree and its id is one of the pieces |
| `EditPage.GetNodesByIdInTreeOrder` | src/pages/Edit.jsx:204 | the result is a subsequence of the tree's nodes, with no duplicate when the tree's ids are unique |
| `EditPage.GetNodesByIdIgnoresOrderAndRepeats` | src/pages/Edit.jsx:203-204 | two id strings listing the same ids, in any order or repetition, select the same nodes |

## Left out

- src/pages/Edit.jsx:23 imports `../components/edit/EditPageChart`. The
  model takes it to be this src/components/EditPageChart.jsx, with the state
  declared at src/pages/Edit.jsx:47-48.
- Rendering is left out: JSX, styled-components, the CSS modules and the
  `D3Chart` diagram (src/components/EditPageChart.jsx:94-105,
  src/pages/Edit.jsx:92-196). It is user interface only. D3Chart.jsx is not
  part of this model.
- Real time and feature detection are left out: `setTimeout`'s 500 ms, and
  `window.matchMedia("(pointer: coarse)")`. The media query's answer is the
  `coarse` input of a touch start. The timer running out is the separate
  `Fire(h)` event.
- Each render of the component re-creates `let timer` and the handler
  closures, and a timer callback reads the `selectedNodes` of the render in
  which its touch started. The model keeps one `timer` variable across events,
  and a fired callback reads the state at the time it fires. The two agree
  when no other event changes the selection while the touch is held. Which
  closures the diagram calls depends on D3Chart.jsx.
- Nodes are compared by value, on `id` and `type`. The JavaScript compares
  object references (`includes` at lines 68 and 84, `===` at line 51). The two
  agree only while there is one node object per id for as long as it is
  selected. src/pages/Edit.jsx does not reset `selectedNodes` when it replaces
  `currentTree` with new node objects: it does so for a fetched draft
  (src/pages/Edit.jsx:63-68) and for a refetched universal tree
  (src/pages/Edit.jsx:71). After such a replacement, a selected object and the
  new object with the same id differ for `includes` and `===`:
  - a ctrl-click appends the id a second time;
  - a plain click on the single selected node selects it again instead of
    clearing it.
  The model does not represent this. The other node fields (title,
  description) are left out, because the selection logic does not read them.
- `Gesture.ReachableSelection`: its unique-ids result holds only while there
  is one node object per id for as long as it is selected (see the previous
  item). So do `Selection.ToggleSkillRemoves` and `Selection.ToggleSkillTwice`,
  which rely on a present skill being found and filtered out as one element.
- Ids are strings. `includes` in `getNodesById` compares with `===`, so a
  numeric id in the tree would never match a piece of the route string. The
  model does not represent non-string ids.
- In src/pages/Edit.jsx, the draft loading in `useEffect`
  (`getNodesByIdsArray`, `getLinksByIdsArray`), `handleSubmit`, `mergeTree`
  and `navigate` are left out. They are network, persistence and routing.
  `handleDeleteClick` is an empty function. The modal flags and the
  `console.log` calls are user-interface plumbing.
- src/pages/Profile.jsx (a fetch and a listing) and src/components/Header.jsx
  (navigation and logout) have no selection logic and are left out.

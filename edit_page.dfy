/** `getNodesById` of the edit page: the nodes of a tree whose ids appear in a
    comma-separated id string taken from the page's route. */
module EditPage {
  import opened Nodes

  /** JavaScript's split on ",": the pieces between commas, empty ones included; never
      an empty list, and no piece holds a comma. */
  function Split(s: string): (pieces: seq<string>)
    ensures |pieces| >= 1
    ensures forall p :: p in pieces ==> ',' !in p
    decreases |s|
  {
    if s == [] then [""]
    else
      var rest := Split(s[1..]);
      if s[0] == ',' then [""] + rest
      else [[s[0]] + rest[0]] + rest[1..]
  }

  /** The pieces joined with commas between them, the inverse of `Split`. */
  function Join(pieces: seq<string>): string
    requires |pieces| >= 1
    decreases |pieces|
  {
    if |pieces| == 1 then pieces[0] else pieces[0] + "," + Join(pieces[1..])
  }

  lemma {:induction false} JoinSplit(s: string)
    ensures Join(Split(s)) == s
    decreases |s|
  {
    if s != [] {
      var rest := Split(s[1..]);
      JoinSplit(s[1..]);
      if s[0] == ',' {
        assert ([""] + rest)[1..] == rest;
      } else {
        var ps := [[s[0]] + rest[0]] + rest[1..];
        if |rest| == 1 {
          assert rest == [rest[0]];
        } else {
          assert ps[1..] == rest[1..];
          assert Join(rest) == rest[0] + "," + Join(rest[1..]);
        }
      }
    }
  }

  /** Text without a comma in front of `t` joins `t`'s first piece. */
  lemma {:induction false} SplitPrefix(p: string, t: string)
    requires ',' !in p
    ensures Split(p + t) == [p + Split(t)[0]] + Split(t)[1..]
    decreases |p|
  {
    if p != [] {
      assert (p + t)[1..] == p[1..] + t;
      SplitPrefix(p[1..], t);
      assert [p[0]] + (p[1..] + Split(t)[0]) == p + Split(t)[0];
    } else {
      var ps := Split(t);
      assert p + t == t && p + ps[0] == ps[0];
      assert ps == [ps[0]] + ps[1..];
    }
  }

  lemma {:induction false} SplitJoin(pieces: seq<string>)
    requires |pieces| >= 1
    requires forall p :: p in pieces ==> ',' !in p
    ensures Split(Join(pieces)) == pieces
    decreases |pieces|
  {
    if |pieces| == 1 {
      SplitPrefix(pieces[0], "");
      assert pieces[0] + "" == pieces[0];
    } else {
      var tail := Join(pieces[1..]);
      SplitJoin(pieces[1..]);
      assert "," + tail == [','] + tail;
      assert Split("," + tail) == [""] + pieces[1..] by {
        assert ("," + tail)[1..] == tail;
      }
      assert pieces[0] + "," + tail == pieces[0] + ("," + tail);
      SplitPrefix(pieces[0], "," + tail);
      assert pieces[0] + "" == pieces[0];
    }
  }

  /** The filter of line 204 of Edit.jsx: exactly the nodes whose
      id is among `ids`. */
  function FilterById(nodes: seq<Node>, ids: seq<string>): (r: seq<Node>)
    ensures |r| <= |nodes|
    ensures forall n :: n in r <==> n in nodes && n.id in ids
    decreases |nodes|
  {
    if nodes == [] then []
    else if nodes[0].id in ids then [nodes[0]] + FilterById(nodes[1..], ids)
    else FilterById(nodes[1..], ids)
  }

  /** `r` is `s` with some elements left out, the rest in their order. */
  predicate IsSubsequence(r: seq<Node>, s: seq<Node>)
    decreases |s|
  {
    if r == [] then true
    else if s == [] then false
    else (r[0] == s[0] && IsSubsequence(r[1..], s[1..])) || IsSubsequence(r, s[1..])
  }

  lemma {:induction false} FilterIsSubsequence(nodes: seq<Node>, ids: seq<string>)
    ensures IsSubsequence(FilterById(nodes, ids), nodes)
    decreases |nodes|
  {
    if nodes != [] {
      FilterIsSubsequence(nodes[1..], ids);
      var r := FilterById(nodes, ids);
      if nodes[0].id in ids {
        assert r[0] == nodes[0] && r[1..] == FilterById(nodes[1..], ids);
      }
    }
  }

  lemma {:induction false} FilterKeepsNoDupIds(nodes: seq<Node>, ids: seq<string>)
    requires NoDupIds(nodes)
    ensures NoDupIds(FilterById(nodes, ids))
    decreases |nodes|
  {
    if nodes != [] {
      TailNoDupIds(nodes);
      FilterKeepsNoDupIds(nodes[1..], ids);
      if nodes[0].id in ids {
        ConsNoDupIds(nodes[0], FilterById(nodes[1..], ids));
      }
    }
  }

  /** Only which ids are listed matters, not their order or repetition. */
  lemma {:induction false} FilterDependsOnIdSet(nodes: seq<Node>, a: seq<string>, b: seq<string>)
    requires forall x :: x in a <==> x in b
    ensures FilterById(nodes, a) == FilterById(nodes, b)
    decreases |nodes|
  {
    if nodes != [] {
      FilterDependsOnIdSet(nodes[1..], a, b);
    }
  }

  /** `getNodesById`: "blank" gives the empty tree; any other string gives the
      tree's nodes whose id is one of its comma-separated pieces, and no links. */
  function GetNodesById(nodeIdString: string, tree: Tree): (r: Tree)
    ensures r.links == []
    ensures nodeIdString == "blank" ==> r.nodes == []
    ensures nodeIdString != "blank" ==>
      forall n :: n in r.nodes <==> n in tree.nodes && n.id in Split(nodeIdString)
  {
    if nodeIdString == "blank" then Tree([], [])
    else Tree(FilterById(tree.nodes, Split(nodeIdString)), [])
  }

  /** The nodes come back in the tree's order, each at most once when the
      tree's ids are unique. */
  lemma GetNodesByIdInTreeOrder(nodeIdString: string, tree: Tree)
    ensures IsSubsequence(GetNodesById(nodeIdString, tree).nodes, tree.nodes)
    ensures NoDupIds(tree.nodes) ==> NoDupIds(GetNodesById(nodeIdString, tree).nodes)
  {
    FilterIsSubsequence(tree.nodes, Split(nodeIdString));
    if NoDupIds(tree.nodes) {
      FilterKeepsNoDupIds(tree.nodes, Split(nodeIdString));
    }
  }

  /** Two id strings (neither "blank") that list the same ids, in any order and
      with any repetition, select the same nodes. */
  lemma GetNodesByIdIgnoresOrderAndRepeats(a: string, b: string, tree: Tree)
    requires a != "blank" && b != "blank"
    requires forall x :: x in Split(a) <==> x in Split(b)
    ensures GetNodesById(a, tree) == GetNodesById(b, tree)
  {
    FilterDependsOnIdSet(tree.nodes, Split(a), Split(b));
  }
}

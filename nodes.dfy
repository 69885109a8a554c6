/** Tree nodes as the selection logic sees them, and the two sequence
    operations the chart applies to the selection: the id map handed to the
    diagram and the filter that drops one id. */
module Nodes {

  datatype Option<T> = None | Some(value: T)

  /** The `type` field of a tree node; anything but "module" and "skill" is `Other`. */
  datatype Kind = Module | Skill | Other(name: string)

  /** A tree node reduced to the two fields the selection logic reads. Nodes
      are compared by value; this stands for comparing the objects the diagram
      hands back as long as each id has one object while it is selected. */
  datatype Node = Node(id: string, kind: Kind)

  datatype Link = Link(source: string, target: string)

  datatype Tree = Tree(nodes: seq<Node>, links: seq<Link>)

  predicate NoDupIds(s: seq<Node>) {
    forall i, j :: 0 <= i < j < |s| ==> s[i].id != s[j].id
  }

  /** The id of each element of `s`, position by position. */
  function Ids(s: seq<Node>): (r: seq<string>)
    ensures |r| == |s|
    ensures forall i :: 0 <= i < |s| ==> r[i] == s[i].id
  {
    if s == [] then [] else [s[0].id] + Ids(s[1..])
  }

  /** Filtering by id: exactly the elements whose id is not `id`, in order. */
  function RemoveId(s: seq<Node>, id: string): (r: seq<Node>)
    ensures |r| <= |s|
    ensures forall x :: x in r <==> x in s && x.id != id
  {
    if s == [] then []
    else if s[0].id != id then [s[0]] + RemoveId(s[1..], id)
    else RemoveId(s[1..], id)
  }

  /** The tail of a sequence with unique ids has unique ids, and none of them
      is the head's. */
  lemma TailNoDupIds(s: seq<Node>)
    requires NoDupIds(s) && s != []
    ensures NoDupIds(s[1..])
    ensures forall y :: y in s[1..] ==> y.id != s[0].id
  {
  }

  /** Putting a node in front of a sequence keeps ids unique when its id is new. */
  lemma ConsNoDupIds(x: Node, t: seq<Node>)
    requires NoDupIds(t)
    requires forall y :: y in t ==> y.id != x.id
    ensures NoDupIds([x] + t)
  {
  }

  /** Filtering keeps ids unique. */
  lemma {:induction false} RemoveIdKeepsNoDupIds(s: seq<Node>, id: string)
    requires NoDupIds(s)
    ensures NoDupIds(RemoveId(s, id))
  {
    if s != [] {
      TailNoDupIds(s);
      RemoveIdKeepsNoDupIds(s[1..], id);
      if s[0].id != id {
        ConsNoDupIds(s[0], RemoveId(s[1..], id));
      }
    }
  }

  /** Filtering out an id no element carries changes nothing. */
  lemma {:induction false} RemoveAbsentId(s: seq<Node>, id: string)
    requires forall i :: 0 <= i < |s| ==> s[i].id != id
    ensures RemoveId(s, id) == s
  {
    if s != [] {
      RemoveAbsentId(s[1..], id);
      assert [s[0]] + s[1..] == s;
    }
  }

  /** With unique ids, filtering out the id at position `k` removes exactly that
      element and keeps the others in their order. */
  lemma {:induction false} RemoveIdAt(s: seq<Node>, k: nat)
    requires NoDupIds(s) && k < |s|
    ensures RemoveId(s, s[k].id) == s[..k] + s[k + 1..]
  {
    var id := s[k].id;
    var t := s[1..];
    TailNoDupIds(s);
    if k == 0 {
      forall i | 0 <= i < |t| ensures t[i].id != id {
        assert t[i] == s[i + 1];
      }
      RemoveAbsentId(t, id);
    } else {
      assert t[k - 1] == s[k];
      RemoveIdAt(t, k - 1);
      assert s[0].id != id;
      assert RemoveId(s, id) == [s[0]] + RemoveId(t, id);
      DropAtCons(s, k);
    }
  }

  /** Dropping position `k > 0` commutes with taking off the head. */
  lemma DropAtCons(s: seq<Node>, k: nat)
    requires 0 < k < |s|
    ensures [s[0]] + (s[1..][..k - 1] + s[1..][k..]) == s[..k] + s[k + 1..]
  {
  }
}

/** A genealogy of viruses: removing one removes all descendants that have no other line of ancestors. */
module VirusGenealogy {
  import opened Basics

  type Id = nat

  datatype Outcome = Done | VirusNotFound | VirusAlreadyCreated | TriedToRemoveStemVirus

  /** The viruses that exist, and for each node the sets of its parents and children. */
  datatype Graph = Graph(viruses: set<Id>, parents: map<Id, set<Id>>, children: map<Id, set<Id>>) {
    predicate Total() {
      viruses <= parents.Keys && viruses <= children.Keys
    }

    /** All links of `x` to its children are there on both sides, and lead down. */
    ghost predicate Intact(x: Id, rank: Id -> nat)
      requires Total() && x in viruses
    {
      && (forall d :: d in children[x] ==> d in viruses && x in parents[d] && rank(x) < rank(d))
      && (forall d :: d in viruses && x in parents[d] ==> d in children[x])
    }

    /** Parent and child sets are inverse, there are no cycles, and all but the stem have a parent. */
    ghost predicate Valid(stem: Id, rank: Id -> nat) {
      && Total() && stem in viruses && parents[stem] == {}
      && (forall x :: x in viruses ==> Intact(x, rank) && parents[x] <= viruses)
      && (forall x :: x in viruses && x != stem ==> parents[x] != {})
    }

    /** A line of descent. */
    ghost predicate IsLine(p: seq<Id>)
      requires Total()
    {
      p != [] && p[|p| - 1] in viruses
      && (|p| == 1 || (IsLine(p[..|p| - 1]) && p[|p| - 1] in children[p[|p| - 2]]))
    }

    /** `b` is `a` or descends from it. */
    ghost predicate Below(a: Id, b: Id)
      requires Total()
    {
      exists p :: IsLine(p) && p[0] == a && p[|p| - 1] == b
    }

    /** The graph with a line of descent from `parent` to `child`. */
    function Connected(child: Id, parent: Id): (g: Graph)
      requires Total() && child in viruses && parent in viruses
      ensures g.Total()
    {
      Graph(viruses, parents[child := parents[child] + {parent}], children[parent := children[parent] + {child}])
    }

    /** `v` descends from the stem without `id`. */
    ghost predicate ReachedWithout(stem: Id, v: Id, id: Id)
      requires Total()
    {
      exists p :: IsLine(p) && p[0] == stem && p[|p| - 1] == v && id !in p
    }
  }

  // ----- what a removal does -----

  /** Removing `id` from `g` removes all of `gone` and leaves `h`. */
  ghost predicate Cascade(g: Graph, h: Graph, id: Id, gone: set<Id>, rank: Id -> nat)
    requires g.Total() && h.Total()
  {
    && h.viruses == g.viruses - gone && id in gone && gone <= g.viruses && id in g.viruses
    && (forall v :: v in h.viruses ==> h.parents[v] == g.parents[v] - gone)
    && (forall v :: v in gone && v != id ==> g.parents[v] != {} && g.parents[v] <= gone && rank(id) < rank(v))
    && (forall v :: v in h.viruses && g.parents[v] != {} ==> h.parents[v] != {})
    && (forall v :: v in h.viruses ==> h.children[v] == if v in g.parents[id] then g.children[v] - {id} else g.children[v])
  }

  lemma {:induction false} IntactAfter(g: Graph, h: Graph, id: Id, gone: set<Id>, rank: Id -> nat, x: Id)
    requires g.Total() && h.Total() && Cascade(g, h, id, gone, rank) && x in h.viruses && g.Intact(x, rank)
    ensures h.Intact(x, rank)
  {
    forall d | d in h.children[x]
      ensures d in h.viruses && x in h.parents[d]
    {
      assert d in g.children[x] && x in g.parents[d];
    }
  }

  /** What is left is a genealogy again. */
  lemma {:induction false} CascadeKeepsValid(g: Graph, h: Graph, stem: Id, id: Id, gone: set<Id>, rank: Id -> nat)
    requires g.Valid(stem, rank) && h.Total() && Cascade(g, h, id, gone, rank) && id != stem
    ensures h.Valid(stem, rank)
  {
    hide Graph.Intact;
    forall x | x in h.viruses
      ensures h.Intact(x, rank)
    {
      assert g.Intact(x, rank);
      IntactAfter(g, h, id, gone, rank, x);
    }
  }

  lemma IsChild(g: Graph, stem: Id, rank: Id -> nat, x: Id, d: Id)
    requires g.Valid(stem, rank) && x in g.viruses && d in g.viruses
    ensures d in g.children[x] <==> x in g.parents[d]
    ensures d in g.children[x] ==> rank(x) < rank(d)
  {
    assert g.Intact(x, rank);
  }

  /** The removed viruses are those all of whose lines from the stem go through `id`. */
  lemma {:induction false} GoneAreDominated(g: Graph, h: Graph, stem: Id, id: Id, gone: set<Id>, rank: Id -> nat, v: Id)
    requires g.Valid(stem, rank) && h.Total() && Cascade(g, h, id, gone, rank) && id != stem && v in g.viruses
    ensures v in gone <==> !g.ReachedWithout(stem, v, id)
  {
    if v in gone {
      forall p | g.IsLine(p) && p[0] == stem && p[|p| - 1] == v ensures id in p {
        MeetsId(g, h, stem, id, gone, rank, p);
      }
    } else {
      var p := LineTo(g, h, stem, id, gone, rank, v);
    }
  }

  lemma {:induction false} MeetsId(g: Graph, h: Graph, stem: Id, id: Id, gone: set<Id>, rank: Id -> nat, p: seq<Id>)
    requires g.Valid(stem, rank) && h.Total() && Cascade(g, h, id, gone, rank) && id != stem
    requires g.IsLine(p) && p[0] == stem && p[|p| - 1] in gone
    ensures id in p
  {
    hide Graph.Intact;
    var v := p[|p| - 1];
    if v != id {
      assert g.parents[v] != {} && g.parents[v] <= gone && v in g.viruses;
      hide Cascade, Graph.Valid;
      var (u, q) := (p[|p| - 2], p[..|p| - 1]);
      IsChild(g, stem, rank, u, v);
      MeetsId(g, h, stem, id, gone, rank, q);
    }
  }

  lemma {:induction false} ParentLeft(g: Graph, h: Graph, stem: Id, id: Id, gone: set<Id>, rank: Id -> nat, v: Id) returns (u: Id)
    requires g.Valid(stem, rank) && h.Total() && Cascade(g, h, id, gone, rank) && v in h.viruses && v != stem
    ensures u in h.viruses && v in g.children[u] && rank(u) < rank(v)
  {
    hide Graph.Intact;
    u :| u in h.parents[v];
    IsChild(g, stem, rank, u, v);
  }

  /** A virus that is left has a line from the stem in what is left. */
  lemma {:induction false} LineTo(g: Graph, h: Graph, stem: Id, id: Id, gone: set<Id>, rank: Id -> nat, v: Id) returns (p: seq<Id>)
    requires g.Valid(stem, rank) && h.Total() && Cascade(g, h, id, gone, rank) && id != stem && v in h.viruses
    ensures g.IsLine(p) && p[0] == stem && p[|p| - 1] == v && id !in p
    decreases rank(v)
  {
    assert v in g.viruses && v != id;
    hide Graph.Valid, Graph.Intact, Cascade;
    if v == stem {
      p := [stem];
    } else {
      var u := ParentLeft(g, h, stem, id, gone, rank, v);
      var q := LineTo(g, h, stem, id, gone, rank, u);
      p := q + [v];
      assert p[..|p| - 1] == q;
    }
  }

  class Genealogy {
    const stemId: Id
    var viruses: set<Id>
    var parents: map<Id, set<Id>>
    var children: map<Id, set<Id>>

    function State(): Graph
      reads this
    {
      Graph(viruses, parents, children)
    }

    constructor (stemId: Id)
      ensures this.stemId == stemId && viruses == {stemId} && State().Valid(stemId, _ => 0)
    {
      this.stemId := stemId;
      viruses, parents, children := {stemId}, map[stemId := {}], map[stemId := {}];
    }

    predicate Exists(id: Id)
      reads this
    {
      id in viruses
    }

    /** A new virus with the given parents. */
    method Create(id: Id, parentIds: seq<Id>, ghost rank: Id -> nat) returns (outcome: Outcome, ghost rank': Id -> nat)
      requires State().Valid(stemId, rank)
      modifies `viruses, `parents, `children
      ensures State().Valid(stemId, rank')
      ensures outcome == if old(id in viruses) then VirusAlreadyCreated
                         else if parentIds == [] || exists p :: p in parentIds && p !in old(viruses) then VirusNotFound else Done
      ensures outcome != Done ==> State() == old(State())
      ensures outcome == Done ==> viruses == old(viruses) + {id} && parents[id] == Members(parentIds) && children[id] == {}
      ensures outcome == Done ==> forall v :: v in old(viruses) ==>
        parents[v] == old(parents[v]) && children[v] == old(children[v]) + if v in parentIds then {id} else {}
    {
      hide Graph.Intact;
      rank' := rank;
      if id in viruses {
        return VirusAlreadyCreated, rank;
      }
      if parentIds == [] {
        return VirusNotFound, rank;
      }
      for i := 0 to |parentIds|
        invariant forall j :: 0 <= j < i ==> parentIds[j] in viruses
      {
        if !Exists(parentIds[i]) {
          return VirusNotFound, rank;
        }
      }
      ghost var g := State();
      rank' := Above(rank, id, viruses);
      viruses := viruses + {id};
      parents, children := parents[id := {}], children[id := {}];
      ConnectAll(id, parentIds, g);
      assert parentIds[0] in parentIds;
      NewIsValid(g, State(), stemId, rank, rank', id, Members(parentIds));
      outcome := Done;
    }

    method ConnectAll(id: Id, parentIds: seq<Id>, ghost g: Graph)
      requires State().Total() && g.Total() && id !in g.viruses && viruses == g.viruses + {id} && parents[id] == {} && children[id] == {}
      requires forall p :: p in parentIds ==> p in g.viruses
      requires forall v :: v in g.viruses ==> parents[v] == g.parents[v] && children[v] == g.children[v]
      modifies `parents, `children
      ensures State().Total() && parents[id] == Members(parentIds) && children[id] == {}
      ensures forall v :: v in g.viruses ==>
        parents[v] == g.parents[v] && children[v] == g.children[v] + if v in parentIds then {id} else {}
    {
      for i := 0 to |parentIds|
        invariant State().Total()
        invariant parents[id] == Members(parentIds[..i]) && children[id] == {}
        invariant forall v :: v in g.viruses ==>
          parents[v] == g.parents[v] && children[v] == g.children[v] + if v in parentIds[..i] then {id} else {}
      {
        assert parentIds[..i + 1] == parentIds[..i] + [parentIds[i]];
        assert parentIds[i] in parentIds;
        var connected, _ := Connect(id, parentIds[i], _ => 0);
      }
      assert parentIds[..|parentIds|] == parentIds;
    }

    /** A new line of descent. It keeps a genealogy exactly when it makes no cycle and gives the stem no parent. */
    method Connect(childId: Id, parentId: Id, ghost rank: Id -> nat) returns (outcome: Outcome, ghost rank': Id -> nat)
      requires State().Total()
      modifies `parents, `children
      ensures outcome == if parentId in viruses && childId in viruses then Done else VirusNotFound
      ensures State() == if outcome == Done then old(State()).Connected(childId, parentId) else old(State())
      ensures old(State()).Valid(stemId, rank) ==>
        (State().Valid(stemId, rank') <==> outcome == Done ==> childId != stemId && !old(State()).Below(childId, parentId))
    {
      rank' := rank;
      if !Exists(parentId) || !Exists(childId) {
        return VirusNotFound, rank;
      }
      ghost var g := State();
      var parentChildren, childParents := children[parentId] + {childId}, parents[childId] + {parentId};
      children := children[parentId := parentChildren];
      parents := parents[childId := childParents];
      outcome := Done;
      rank' := Lowered(g, rank, childId, parentId);
      if childId == stemId || g.Below(childId, parentId) {
        ConnectSpoils(g, stemId, rank', childId, parentId);
      } else if g.Valid(stemId, rank) {
        ConnectKeepsValid(g, stemId, rank, childId, parentId);
      }
    }

    /** Removes a virus and all that are left without parents. */
    method Remove(id: Id, ghost rank: Id -> nat) returns (outcome: Outcome, ghost gone: set<Id>)
      requires State().Valid(stemId, rank)
      modifies `viruses, `parents, `children
      ensures State().Valid(stemId, rank)
      ensures outcome == if id !in old(viruses) then VirusNotFound else if id == stemId then TriedToRemoveStemVirus else Done
      ensures outcome != Done ==> State() == old(State()) && gone == {}
      ensures viruses == old(viruses) - gone
      ensures outcome == Done ==> Cascade(old(State()), State(), id, gone, rank)
      ensures outcome == Done ==> forall v :: v in old(viruses) ==> (v in gone <==> !old(State()).ReachedWithout(stemId, v, id))
    {
      gone := {};
      if !Exists(id) {
        return VirusNotFound, {};
      }
      if id == stemId {
        return TriedToRemoveStemVirus, {};
      }
      ghost var g := State();
      gone := RemoveNode(id, rank, MaxRank(rank, viruses) + 1);
      CascadeKeepsValid(g, State(), stemId, id, gone, rank);
      forall v | v in g.viruses
        ensures v in gone <==> !g.ReachedWithout(stemId, v, id)
      {
        GoneAreDominated(g, State(), stemId, id, gone, rank, v);
      }
      outcome := Done;
    }

    /** The recursive removal. The nodes above `id` may be half removed; those below are untouched. */
    method RemoveNode(id: Id, ghost rank: Id -> nat, ghost bound: nat) returns (ghost gone: set<Id>)
      requires State().Total() && id in viruses && parents[id] <= children.Keys
      requires forall x :: x in viruses && rank(x) >= rank(id) ==> State().Intact(x, rank)
      requires forall x :: x in viruses ==> rank(x) < bound
      modifies `viruses, `parents, `children
      ensures State().Total() && Cascade(old(State()), State(), id, gone, rank) && children.Keys == old(children.Keys)
      decreases bound - rank(id), 1
    {
      hide Graph.Intact, Removing, Cascade;
      ghost var g := State();
      NotOwnParent(g, id, rank);
      UnlinkFromParents(id);
      var todo := children[id];
      gone := {};
      RemovingStarts(g, State(), id, todo, rank);
      while todo != {}
        invariant State().Total() && todo <= g.children[id] && Removing(g, State(), id, gone, todo, rank)
        invariant children.Keys == g.children.Keys && Unlinked(g, State(), id)
        decreases |todo|
      {
        var child :| child in todo;
        gone := DropLink(id, child, rank, bound, g, gone, todo);
        todo := todo - {child};
      }
      ghost var h := State();
      RemovingHasId(g, h, id, gone, rank);
      viruses := viruses - {id};
      RemovingEnds(g, h, State(), id, gone, rank);
      gone := gone + {id};
    }

    /** The virus is no parent of its child any more; the child goes if it was the last one. */
    method DropLink(id: Id, child: Id, ghost rank: Id -> nat, ghost bound: nat, ghost g: Graph, ghost gone: set<Id>, ghost todo: set<Id>)
      returns (ghost gone': set<Id>)
      requires State().Total() && g.Total() && id in g.viruses && child in todo && Removing(g, State(), id, gone, todo, rank)
      requires children.Keys == g.children.Keys && Unlinked(g, State(), id)
      requires forall x :: x in g.viruses && rank(x) >= rank(id) ==> g.Intact(x, rank)
      requires forall x :: x in g.viruses ==> rank(x) < bound
      modifies `viruses, `parents, `children
      ensures State().Total() && Removing(g, State(), id, gone', todo - {child}, rank)
      ensures children.Keys == g.children.Keys && Unlinked(g, State(), id)
      decreases bound - rank(id), 0
    {
      hide Graph.Intact, Removing, Cascade, Unlinked;
      ghost var h := State();
      ChildStands(g, h, id, gone, todo, rank, child);
      parents := parents[child := parents[child] - {id}];
      ghost var h1 := State();
      UnlinkedStays(g, h, h1, id);
      if parents[child] == {} {
        forall x | x in viruses && rank(x) >= rank(child) ensures h1.Intact(x, rank) {
          BelowIntact(g, h, h1, id, gone, todo, rank, child, x);
        }
        ghost var more := RemoveNode(child, rank, bound);
        Recursed(g, h, h1, State(), id, gone, todo, rank, child, more);
        gone' := gone + more;
      } else {
        ChildStays(g, h, h1, id, gone, todo, rank, child);
        gone' := gone;
      }
    }

    /** Removes a virus from the sets of its parents. */
    method UnlinkFromParents(id: Id)
      requires id in parents && parents[id] <= children.Keys
      modifies `children
      ensures children.Keys == old(children.Keys)
      ensures forall v :: v in children ==> children[v] == if v in parents[id] then old(children[v]) - {id} else old(children[v])
    {
      var todo := parents[id];
      while todo != {}
        invariant todo <= parents[id] && children.Keys == old(children.Keys)
        invariant forall v :: v in children ==>
          children[v] == if v in parents[id] - todo then old(children[v]) - {id} else old(children[v])
        decreases |todo|
      {
        var p :| p in todo;
        children := children[p := children[p] - {id}];
        todo := todo - {p};
      }
    }
  }

  /** Part of the removal of `id`: the children in `todo` still have it as a parent. */
  ghost predicate Removing(g: Graph, h: Graph, id: Id, gone: set<Id>, todo: set<Id>, rank: Id -> nat)
    requires g.Total() && h.Total() && id in g.viruses
  {
    && h.viruses == g.viruses - gone && gone <= g.viruses && id !in gone && todo <= g.children[id] && todo <= h.viruses
    && (forall v :: v in h.viruses ==> h.parents[v] == g.parents[v] - gone - (if v in g.children[id] - todo then {id} else {}))
    && (forall v :: v in gone ==> g.parents[v] != {} && g.parents[v] <= gone + {id} && rank(id) < rank(v))
    && (forall v :: v in h.viruses && v != id && g.parents[v] != {} ==> h.parents[v] != {})
  }

  /** The virus is in the child set of no parent. */
  ghost predicate Unlinked(g: Graph, h: Graph, id: Id)
    requires g.Total() && h.Total() && id in g.viruses
  {
    forall v :: v in h.viruses ==> v in g.viruses && h.children[v] == if v in g.parents[id] then g.children[v] - {id} else g.children[v]
  }

  lemma UnlinkedStays(g: Graph, h: Graph, h1: Graph, id: Id)
    requires g.Total() && h.Total() && h1.Total() && id in g.viruses && Unlinked(g, h, id)
    requires h1.viruses == h.viruses && h1.children == h.children
    ensures Unlinked(g, h1, id)
  {
  }

  lemma NotOwnParent(g: Graph, id: Id, rank: Id -> nat)
    requires g.Total() && id in g.viruses && g.Intact(id, rank)
    ensures id !in g.parents[id]
  {
  }

  lemma RemovingHasId(g: Graph, h: Graph, id: Id, gone: set<Id>, rank: Id -> nat)
    requires g.Total() && h.Total() && id in g.viruses && Removing(g, h, id, gone, {}, rank)
    ensures id in h.viruses
  {
  }

  lemma RemovingStarts(g: Graph, h: Graph, id: Id, todo: set<Id>, rank: Id -> nat)
    requires g.Total() && h.Total() && id in g.viruses && g.Intact(id, rank) && todo == g.children[id]
    requires h.viruses == g.viruses && h.parents == g.parents
    ensures Removing(g, h, id, {}, todo, rank)
  {
  }

  lemma ChildStands(g: Graph, h: Graph, id: Id, gone: set<Id>, todo: set<Id>, rank: Id -> nat, child: Id)
    requires g.Total() && h.Total() && id in g.viruses && g.Intact(id, rank) && Removing(g, h, id, gone, todo, rank) && child in todo
    ensures child in h.viruses && rank(id) < rank(child) && id in h.parents[child] && id in h.viruses && child != id && h.viruses <= g.viruses
  {
  }

  /** The nodes below are whole, apart from the one link that is being removed. */
  lemma {:induction false} BelowIntact(g: Graph, h: Graph, h1: Graph, id: Id, gone: set<Id>, todo: set<Id>, rank: Id -> nat, child: Id, x: Id)
    requires g.Total() && h.Total() && h1.Total() && id in g.viruses && g.Intact(id, rank)
    requires Removing(g, h, id, gone, todo, rank) && child in todo
    requires h1 == h.(parents := h.parents[child := h.parents[child] - {id}])
    requires x in h.viruses && rank(x) > rank(id) && g.Intact(x, rank)
    requires Unlinked(g, h, id)
    ensures h1.Intact(x, rank)
  {
    forall d | d in h.children[x]
      ensures d in h.viruses && x in h.parents[d]
    {
      assert d in g.viruses && x in g.parents[d];
    }
  }

  lemma ChildStays(g: Graph, h: Graph, h1: Graph, id: Id, gone: set<Id>, todo: set<Id>, rank: Id -> nat, child: Id)
    requires g.Total() && h.Total() && h1.Total() && id in g.viruses
    requires Removing(g, h, id, gone, todo, rank) && child in todo && h.parents[child] - {id} != {}
    requires h1.viruses == h.viruses && h1.parents == h.parents[child := h.parents[child] - {id}]
    ensures Removing(g, h1, id, gone, todo - {child}, rank)
  {
  }

  /** The child was removed with all that depended on it. */
  lemma {:induction false} Recursed(g: Graph, h: Graph, h1: Graph, h2: Graph, id: Id, gone: set<Id>, todo: set<Id>, rank: Id -> nat, child: Id,
                                    more: set<Id>)
    requires g.Total() && h.Total() && h1.Total() && h2.Total() && id in g.viruses && g.Intact(id, rank)
    requires Removing(g, h, id, gone, todo, rank) && child in todo && h.parents[child] - {id} == {}
    requires h1 == h.(parents := h.parents[child := h.parents[child] - {id}])
    requires Cascade(h1, h2, child, more, rank) && Unlinked(g, h1, id)
    ensures Removing(g, h2, id, gone + more, todo - {child}, rank) && Unlinked(g, h2, id)
  {
  }

  lemma RemovingEnds(g: Graph, h: Graph, h1: Graph, id: Id, gone: set<Id>, rank: Id -> nat)
    requires g.Total() && h.Total() && h1.Total() && id in g.viruses && g.Intact(id, rank) && Removing(g, h, id, gone, {}, rank)
    requires h1 == h.(viruses := h.viruses - {id})
    requires Unlinked(g, h, id)
    ensures Cascade(g, h1, id, gone + {id}, rank)
  {
  }

  /** A rank in which `id` comes after all of `s`. */
  ghost function Above(rank: Id -> nat, id: Id, s: set<Id>): Id -> nat {
    (x: Id) => if x == id then MaxRank(rank, s) + 1 else rank(x)
  }

  ghost function MaxRank(rank: Id -> nat, s: set<Id>): (m: nat)
    ensures forall x :: x in s ==> rank(x) <= m
  {
    if s == {} then 0
    else
      var x :| x in s;
      var m := MaxRank(rank, s - {x});
      if rank(x) > m then rank(x) else m
  }

  lemma {:induction false} NewIntact(g: Graph, h: Graph, rank: Id -> nat, rank': Id -> nat, id: Id, from: set<Id>, x: Id)
    requires g.Total() && h.Total() && id !in g.viruses && from <= g.viruses && rank' == Above(rank, id, g.viruses)
    requires h.viruses == g.viruses + {id} && h.parents[id] == from && h.children[id] == {}
    requires forall v :: v in g.viruses ==> h.parents[v] == g.parents[v] && h.children[v] == g.children[v] + if v in from then {id} else {}
    requires if x == id then forall d :: d in g.viruses ==> id !in g.parents[d] else x in g.viruses && g.Intact(x, rank)
    ensures h.Intact(x, rank')
  {
    assert x in g.viruses ==> rank(x) <= MaxRank(rank, g.viruses);
  }

  /** The genealogy with a new virus. */
  lemma {:induction false} NewIsValid(g: Graph, h: Graph, stem: Id, rank: Id -> nat, rank': Id -> nat, id: Id, from: set<Id>)
    requires g.Valid(stem, rank) && id !in g.viruses && from != {} && from <= g.viruses && rank' == Above(rank, id, g.viruses)
    requires h.Total() && h.viruses == g.viruses + {id} && h.parents[id] == from && h.children[id] == {}
    requires forall v :: v in g.viruses ==> h.parents[v] == g.parents[v] && h.children[v] == g.children[v] + if v in from then {id} else {}
    ensures h.Valid(stem, rank')
  {
    hide Graph.Intact, Above;
    forall x | x in h.viruses
      ensures h.Intact(x, rank')
    {
      NewIntact(g, h, rank, rank', id, from, x);
    }
  }

  // ----- what a connection does -----

  lemma {:induction false} LineLonger(g: Graph, p: seq<Id>, d: Id)
    requires g.Total() && g.IsLine(p) && d in g.viruses && d in g.children[p[|p| - 1]]
    ensures g.Below(p[0], d)
  {
    var q := p + [d];
    assert q[..|q| - 1] == p;
    assert g.IsLine(q) && q[0] == p[0] && q[|q| - 1] == d;
  }

  lemma {:induction false} ChildBelow(g: Graph, a: Id, x: Id, d: Id)
    requires g.Total() && g.Below(a, x) && x in g.viruses && d in g.viruses && d in g.children[x]
    ensures g.Below(a, d)
  {
    var p :| g.IsLine(p) && p[0] == a && p[|p| - 1] == x;
    LineLonger(g, p, d);
  }

  /** A rank in which `child` and everything below it comes after `parent`. */
  ghost function Lowered(g: Graph, rank: Id -> nat, child: Id, parent: Id): Id -> nat
    requires g.Total()
  {
    (x: Id) => if g.Below(child, x) then rank(x) + rank(parent) + 1 else rank(x)
  }

  /** A new line of descent that makes no cycle and gives the stem no parent keeps a genealogy. */
  lemma {:induction false} ConnectKeepsValid(g: Graph, stem: Id, rank: Id -> nat, child: Id, parent: Id)
    requires g.Valid(stem, rank) && parent in g.viruses && child in g.viruses
    requires child != stem && !g.Below(child, parent)
    ensures g.Connected(child, parent).Valid(stem, Lowered(g, rank, child, parent))
  {
    hide Graph.Below, Graph.IsLine, Graph.Intact, Lowered;
    var h := g.Connected(child, parent);
    forall x | x in h.viruses
      ensures h.Intact(x, Lowered(g, rank, child, parent))
    {
      assert g.Intact(x, rank);
      ConnectedIntact(g, rank, child, parent, x);
    }
  }

  lemma {:induction false} ConnectedIntact(g: Graph, rank: Id -> nat, child: Id, parent: Id, x: Id)
    requires g.Total() && parent in g.viruses && child in g.viruses && x in g.viruses && g.Intact(x, rank) && !g.Below(child, parent)
    ensures g.Connected(child, parent).Intact(x, Lowered(g, rank, child, parent))
  {
    var (h, rank') := (g.Connected(child, parent), Lowered(g, rank, child, parent));
    assert g.IsLine([child]);
    hide Graph.Below, Graph.IsLine;
    forall d | d in h.children[x]
      ensures d in h.viruses && x in h.parents[d] && rank'(x) < rank'(d)
    {
      if d in g.children[x] && g.Below(child, x) { ChildBelow(g, child, x, d); }
    }
  }

  lemma {:induction false} LineFalls(g: Graph, stem: Id, rank: Id -> nat, p: seq<Id>)
    requires g.Valid(stem, rank) && g.IsLine(p)
    ensures p[0] in g.viruses && rank(p[0]) <= rank(p[|p| - 1])
    decreases |p|
  {
    if |p| > 1 {
      var q := p[..|p| - 1];
      LineFalls(g, stem, rank, q);
      assert g.Intact(q[|q| - 1], rank);
    }
  }

  lemma {:induction false} LineStays(g: Graph, p: seq<Id>, child: Id, parent: Id)
    requires g.Total() && g.IsLine(p) && child in g.viruses && parent in g.viruses
    ensures g.Connected(child, parent).IsLine(p)
    decreases |p|
  {
    if |p| > 1 { LineStays(g, p[..|p| - 1], child, parent); }
  }

  /** Any other new line of descent makes a cycle or gives the stem a parent, and no rank helps. */
  lemma {:induction false} ConnectSpoils(g: Graph, stem: Id, rank: Id -> nat, child: Id, parent: Id)
    requires g.Total() && parent in g.viruses && child in g.viruses && (child == stem || g.Below(child, parent))
    ensures !g.Connected(child, parent).Valid(stem, rank)
  {
    var h := g.Connected(child, parent);
    if child != stem && h.Valid(stem, rank) {
      var p :| g.IsLine(p) && p[0] == child && p[|p| - 1] == parent;
      LineStays(g, p, child, parent);
      LineFalls(h, stem, rank, p);
      IsChild(h, stem, rank, parent, child);
      assert false;
    }
  }

  /** So a connection keeps a genealogy exactly when its child is not the stem and its parent is not below its child. */
  lemma {:induction false} ConnectIsRight(g: Graph, stem: Id, rank: Id -> nat, child: Id, parent: Id)
    requires g.Valid(stem, rank) && parent in g.viruses && child in g.viruses
    ensures (exists rank' :: g.Connected(child, parent).Valid(stem, rank')) <==> child != stem && !g.Below(child, parent)
  {
    if child != stem && !g.Below(child, parent) {
      ConnectKeepsValid(g, stem, rank, child, parent);
    } else {
      forall rank' ensures !g.Connected(child, parent).Valid(stem, rank') {
        ConnectSpoils(g, stem, rank', child, parent);
      }
    }
  }

  /** Every virus of a genealogy descends from the stem. */
  lemma {:induction false} AllDescend(g: Graph, stem: Id, rank: Id -> nat, v: Id) returns (p: seq<Id>)
    requires g.Valid(stem, rank) && v in g.viruses
    ensures g.IsLine(p) && p[0] == stem && p[|p| - 1] == v
    decreases rank(v)
  {
    hide Graph.Intact;
    if v == stem {
      p := [stem];
    } else {
      var u :| u in g.parents[v];
      IsChild(g, stem, rank, u, v);
      var q := AllDescend(g, stem, rank, u);
      p := q + [v];
      assert p[..|p| - 1] == q;
    }
  }

  // ----- whole runs -----

  /** Each virus with its parents. */
  type Family = map<Id, set<Id>>

  ghost function FamilyOf(g: Graph): Family
    requires g.Total()
  {
    map v | v in g.viruses :: g.parents[v]
  }

  /** A line of descent in a family. */
  ghost predicate IsDescent(m: Family, p: seq<Id>) {
    && p != [] && p[|p| - 1] in m
    && (|p| == 1 || (IsDescent(m, p[..|p| - 1]) && p[|p| - 2] in m[p[|p| - 1]]))
  }

  ghost predicate Descends(m: Family, a: Id, b: Id) {
    exists p :: IsDescent(m, p) && p[0] == a && p[|p| - 1] == b
  }

  /** `v` descends from the stem on a line without `id`. */
  ghost predicate Survives(m: Family, stem: Id, v: Id, id: Id) {
    exists p :: IsDescent(m, p) && p[0] == stem && p[|p| - 1] == v && id !in p
  }

  datatype Op = Create(id: Id, parentIds: seq<Id>) | Connect(child: Id, parent: Id) | Remove(id: Id)

  /** What an operation does to a family. */
  ghost function Apply(m: Family, stem: Id, op: Op): Family {
    match op
    case Create(id, from) =>
      if id in m || from == [] || exists p :: p in from && p !in m then m else m[id := Members(from)]
    case Connect(child, parent) =>
      if child in m && parent in m then m[child := m[child] + {parent}] else m
    case Remove(id) =>
      if id !in m || id == stem then m
      else
        var gone := set v | v in m && !Survives(m, stem, v, id);
        map v | v in m && v !in gone :: m[v] - gone
  }

  /** Connections must make no cycle and give the stem no parent. */
  ghost predicate Legal(m: Family, stem: Id, op: Op) {
    op.Connect? && op.child in m && op.parent in m ==> op.child != stem && !Descends(m, op.child, op.parent)
  }

  ghost function Play(stem: Id, ops: seq<Op>): Family {
    if ops == [] then map[stem := {}] else Apply(Play(stem, ops[..|ops| - 1]), stem, ops[|ops| - 1])
  }

  ghost predicate LegalRun(stem: Id, ops: seq<Op>) {
    forall i :: 0 <= i < |ops| ==> Legal(Play(stem, ops[..i]), stem, ops[i])
  }

  lemma {:induction false} LineIsDescent(g: Graph, stem: Id, rank: Id -> nat, p: seq<Id>)
    requires g.Valid(stem, rank)
    ensures g.IsLine(p) <==> IsDescent(FamilyOf(g), p)
    decreases |p|
  {
    hide Graph.Intact;
    if |p| > 1 {
      var (x, d) := (p[|p| - 2], p[|p| - 1]);
      LineIsDescent(g, stem, rank, p[..|p| - 1]);
      if x in g.viruses && d in g.viruses { IsChild(g, stem, rank, x, d); }
    }
  }

  lemma SameLines(g: Graph, stem: Id, rank: Id -> nat, a: Id, b: Id)
    requires g.Valid(stem, rank)
    ensures g.Below(a, b) <==> Descends(FamilyOf(g), a, b)
    ensures forall id :: g.ReachedWithout(a, b, id) <==> Survives(FamilyOf(g), a, b, id)
  {
    assert g.Total();
    hide Graph.Valid, Graph.Total, Graph.IsLine, IsDescent;
    forall p ensures g.IsLine(p) <==> IsDescent(FamilyOf(g), p) {
      LineIsDescent(g, stem, rank, p);
    }
  }

  lemma CreatedFamily(g: Graph, h: Graph, stem: Id, id: Id, from: seq<Id>, outcome: Outcome)
    requires g.Total() && h.Total()
    requires outcome == if id in g.viruses then VirusAlreadyCreated
                        else if from == [] || exists p :: p in from && p !in g.viruses then VirusNotFound else Done
    requires outcome != Done ==> h == g
    requires outcome == Done ==> h.viruses == g.viruses + {id} && h.parents[id] == Members(from)
    requires outcome == Done ==> forall v :: v in g.viruses ==> h.parents[v] == g.parents[v]
    ensures FamilyOf(h) == Apply(FamilyOf(g), stem, Create(id, from))
  {
    var m := FamilyOf(g);
    assert (exists p :: p in from && p !in m) <==> exists p :: p in from && p !in g.viruses;
    if outcome == Done {
      assert FamilyOf(h) == m[id := Members(from)];
      assert Apply(m, stem, Create(id, from)) == m[id := Members(from)];
    }
  }

  lemma ConnectedFamily(g: Graph, h: Graph, stem: Id, child: Id, parent: Id)
    requires g.Total()
    requires h == if child in g.viruses && parent in g.viruses then g.Connected(child, parent) else g
    ensures FamilyOf(h) == Apply(FamilyOf(g), stem, Connect(child, parent))
  {
  }

  lemma RemovedFamily(g: Graph, h: Graph, stem: Id, id: Id, gone: set<Id>, rank: Id -> nat)
    requires g.Valid(stem, rank) && h.Total()
    requires if id in g.viruses && id != stem then Cascade(g, h, id, gone, rank) else h == g
    requires id in g.viruses && id != stem ==> forall v :: v in g.viruses ==> (v in gone <==> !g.ReachedWithout(stem, v, id))
    ensures FamilyOf(h) == Apply(FamilyOf(g), stem, Remove(id))
  {
    hide Graph.Intact, Graph.IsLine, Survives, Graph.ReachedWithout;
    if id in g.viruses && id != stem {
      GoneInFamily(g, stem, id, gone, rank);
    }
  }

  lemma GoneInFamily(g: Graph, stem: Id, id: Id, gone: set<Id>, rank: Id -> nat)
    requires g.Valid(stem, rank) && gone <= g.viruses
    requires forall v :: v in g.viruses ==> (v in gone <==> !g.ReachedWithout(stem, v, id))
    ensures gone == set v | v in FamilyOf(g) && !Survives(FamilyOf(g), stem, v, id)
  {
    hide Graph.Intact, Graph.IsLine, Survives, Graph.ReachedWithout;
    forall v | v in g.viruses ensures v in gone <==> !Survives(FamilyOf(g), stem, v, id) {
      SameLines(g, stem, rank, stem, v);
    }
  }

  /** One operation, as its caller sees it. */
  method Perform(g: Genealogy, op: Op, ghost rank: Id -> nat) returns (ghost rank': Id -> nat)
    requires g.State().Valid(g.stemId, rank) && Legal(FamilyOf(g.State()), g.stemId, op)
    modifies g
    ensures g.State().Valid(g.stemId, rank')
    ensures FamilyOf(g.State()) == Apply(FamilyOf(old(g.State())), g.stemId, op)
  {
    hide Graph.Intact, Apply, Cascade, Descends, Graph.Below, Graph.ReachedWithout;
    ghost var (was, stem) := (g.State(), g.stemId);
    match op {
      case Create(id, from) =>
        var outcome, r := g.Create(id, from, rank);
        rank' := r;
        CreatedFamily(was, g.State(), stem, id, from, outcome);
      case Connect(child, parent) =>
        SameLines(was, stem, rank, child, parent);
        var outcome, r := g.Connect(child, parent, rank);
        rank' := r;
        ConnectedFamily(was, g.State(), stem, child, parent);
      case Remove(id) =>
        var outcome, gone := g.Remove(id, rank);
        rank' := rank;
        RemovedFamily(was, g.State(), stem, id, gone, rank);
    }
  }

  /** Every run from the stem, whose connections are legal, ends with a valid genealogy of the family that it should have. */
  method Run(stemId: Id, ops: seq<Op>) returns (g: Genealogy, ghost rank: Id -> nat)
    requires LegalRun(stemId, ops)
    ensures fresh(g) && g.stemId == stemId && g.State().Valid(stemId, rank) && FamilyOf(g.State()) == Play(stemId, ops)
  {
    g := new Genealogy(stemId);
    rank := _ => 0;
    assert FamilyOf(g.State()) == map[stemId := {}];
    hide Graph.Valid, Legal, Apply;
    for i := 0 to |ops|
      invariant fresh(g) && g.stemId == stemId && g.State().Valid(stemId, rank) && FamilyOf(g.State()) == Play(stemId, ops[..i])
    {
      assert ops[..i + 1][..i] == ops[..i];
      rank := Perform(g, ops[i], rank);
    }
    assert ops[..|ops|] == ops;
  }
}

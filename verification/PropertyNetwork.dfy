/**
 The network of linked property objects: links are made and broken at run time, searches walk
 the links keeping the current path, and the network stays a forest in which every domain and
 every property name occurs once per connected group.
 */
module PropertyNetwork {
  import opened Decimal

  type Id = nat

  /** All property objects: their domain, the names they define, and their links, in order. */
  datatype Net = Net(domain: map<Id, string>, names: map<Id, set<string>>, links: map<Id, seq<Id>>) {
    ghost predicate Valid() {
      && domain.Keys == names.Keys == links.Keys
      && forall a, b :: Edge(a, b) ==> b in links
    }

    predicate Edge(a: Id, b: Id) {
      a in links && b in links[a]
    }

    function Nodes(): set<Id> {
      links.Keys
    }
  }

  // ----- connectedness -----

  /** No link leads out of s. */
  ghost predicate Closed(net: Net, s: set<Id>) {
    forall a, b :: net.Edge(a, b) && a in s ==> b in s
  }

  ghost predicate Connected(net: Net, a: Id, b: Id) {
    forall s: set<Id> :: Closed(net, s) && a in s ==> b in s
  }

  /** The objects connected to a. */
  ghost function Group(net: Net, a: Id): set<Id> {
    set b | b in net.links && Connected(net, a, b)
  }

  lemma GroupIsClosed(net: Net, a: Id)
    requires net.Valid() && a in net.links
    ensures Closed(net, Group(net, a)) && a in Group(net, a)
  {
    forall x, y | x in Group(net, a) && net.Edge(x, y)
      ensures y in Group(net, a)
    {
      forall s: set<Id> | Closed(net, s) && a in s
        ensures y in s
      {
      }
    }
  }

  /** The group is the least closed set around a. */
  lemma GroupIsLeast(net: Net, a: Id, s: set<Id>)
    requires Closed(net, s) && a in s
    ensures Group(net, a) <= s
  {
  }

  ghost predicate Symmetric(net: Net) {
    forall a, b :: net.Edge(a, b) ==> net.Edge(b, a)
  }

  lemma ComplementIsClosed(net: Net, s: set<Id>)
    requires net.Valid() && Symmetric(net) && Closed(net, s)
    ensures Closed(net, net.Nodes() - s)
  {
  }

  /** Any member of a group has that same group. */
  lemma GroupsCoincide(net: Net, a: Id, b: Id)
    requires net.Valid() && Symmetric(net) && a in net.links && b in Group(net, a)
    ensures Group(net, b) == Group(net, a)
  {
    GroupIsClosed(net, a);
    GroupIsClosed(net, b);
    GroupIsLeast(net, b, Group(net, a));
    if a !in Group(net, b) {
      ComplementIsClosed(net, Group(net, b));
      GroupIsLeast(net, a, net.Nodes() - Group(net, b));
    }
    GroupIsLeast(net, a, Group(net, b));
  }

  // ----- searching along simple paths -----

  /** A path without repetition that stays out of `avoid`. */
  predicate SimplePath(net: Net, p: seq<Id>, avoid: set<Id>) {
    && p != []
    && (forall i | 0 <= i < |p| :: p[i] in net.links && p[i] !in avoid)
    && (forall i | 0 <= i < |p| - 1 :: net.Edge(p[i], p[i + 1]))
    && (forall i, j | 0 <= i < j < |p| :: p[i] != p[j])
  }

  ghost predicate Leads(net: Net, a: Id, b: Id, avoid: set<Id>, p: seq<Id>) {
    SimplePath(net, p, avoid) && p[0] == a && p[|p| - 1] == b
  }

  /** The objects a search from a sees when the objects of `avoid` are on its path already. */
  ghost function Seen(net: Net, a: Id, avoid: set<Id>): set<Id> {
    set b | b in net.links && exists p :: Leads(net, a, b, avoid, p)
  }

  lemma SeenIncludesSelf(net: Net, a: Id, avoid: set<Id>)
    requires a in net.links && a !in avoid
    ensures a in Seen(net, a, avoid)
  {
    assert Leads(net, a, a, avoid, [a]);
  }

  /** One step of a search: itself, or whatever a linked object off the path sees. */
  lemma SeenSteps(net: Net, a: Id, avoid: set<Id>, b: Id)
    requires net.Valid() && a in net.links && a !in avoid
    ensures b in Seen(net, a, avoid) <==>
            b == a || exists x :: net.Edge(a, x) && x !in avoid + {a} && b in Seen(net, x, avoid + {a})
  {
    SeenIncludesSelf(net, a, avoid);
    if b in Seen(net, a, avoid) && b != a {
      var p :| Leads(net, a, b, avoid, p);
      assert Leads(net, p[1], b, avoid + {a}, p[1..]);
      assert net.Edge(a, p[1]);
    }
    if x :| net.Edge(a, x) && x !in avoid + {a} && b in Seen(net, x, avoid + {a}) {
      var p :| Leads(net, x, b, avoid + {a}, p);
      assert Leads(net, a, b, avoid, [a] + p);
    }
  }

  /** With nothing to avoid, a search sees the whole group. */
  lemma SeenIsGroup(net: Net, a: Id)
    requires net.Valid() && a in net.links
    ensures Seen(net, a, {}) == Group(net, a)
  {
    SeenIncludesSelf(net, a, {});
    forall x, y | x in Seen(net, a, {}) && net.Edge(x, y)
      ensures y in Seen(net, a, {})
    {
      var p :| Leads(net, a, x, {}, p);
      ExtendPath(net, a, x, y, p);
    }
    GroupIsLeast(net, a, Seen(net, a, {}));
    forall b | b in Seen(net, a, {})
      ensures b in Group(net, a)
    {
      var p :| Leads(net, a, b, {}, p);
      GroupIsClosed(net, a);
      PathStaysIn(net, p, Group(net, a), |p| - 1);
    }
  }

  lemma ExtendPath(net: Net, a: Id, x: Id, y: Id, p: seq<Id>)
    requires net.Valid() && Leads(net, a, x, {}, p) && net.Edge(x, y)
    ensures y in Seen(net, a, {})
  {
    if y in p {
      var i :| 0 <= i < |p| && p[i] == y;
      assert Leads(net, a, y, {}, p[..i + 1]);
    } else {
      assert Leads(net, a, y, {}, p + [y]);
    }
  }

  lemma {:induction false} PathStaysIn(net: Net, p: seq<Id>, s: set<Id>, i: nat)
    requires SimplePath(net, p, {}) && Closed(net, s) && p[0] in s && i < |p|
    ensures p[i] in s
  {
    if i > 0 {
      PathStaysIn(net, p, s, i - 1);
      assert net.Edge(p[i - 1], p[i]);
    }
  }

  /** What is left to explore shrinks along every path. */
  lemma FewerLeft(net: Net, a: Id, avoid: set<Id>)
    requires a in net.links && a !in avoid
    ensures |net.Nodes() - (avoid + {a})| < |net.Nodes() - avoid|
  {
    assert net.Nodes() - avoid == (net.Nodes() - (avoid + {a})) + {a};
  }

  function ToSet(s: seq<Id>): set<Id> {
    set x | x in s
  }

  /** The history list of one search: objects are appended on entry and removed on exit. */
  class Search {
    const net: Net
    var history: seq<Id>

    constructor (net: Net)
      ensures this.net == net && history == []
    {
      this.net, history := net, [];
    }

    /** Collects the objects whose domains and names the search reports. */
    method Visit(a: Id) returns (seen: set<Id>)
      requires net.Valid() && a in net.links && a !in history
      modifies this
      ensures history == old(history)
      ensures seen == Seen(net, a, ToSet(history))
      decreases |net.Nodes() - ToSet(history)|
    {
      ghost var avoid := ToSet(history);
      FewerLeft(net, a, avoid);
      history := history + [a];
      assert ToSet(history) == avoid + {a};
      seen := {a};
      var links := net.links[a];
      for i := 0 to |links|
        invariant history == old(history) + [a]
        invariant forall b :: b in seen <==>
                    b == a || exists x :: x in links[..i] && x !in avoid + {a} && b in Seen(net, x, avoid + {a})
      {
        assert links[..i + 1] == links[..i] + [links[i]];
        assert net.Edge(a, links[i]);
        if links[i] !in history {
          var more := Visit(links[i]);
          seen := seen + more;
        }
      }
      assert links[..|links|] == links;
      history := history[..|history| - 1];
      forall b
        ensures b in seen <==> b in Seen(net, a, avoid)
      {
        SeenSteps(net, a, avoid, b);
      }
    }

    /** Finds an object that defines the name; without one, the start of the search answers. */
    method Provider(a: Id, name: string) returns (r: Option<Id>)
      requires net.Valid() && a in net.links && a !in history
      modifies this
      ensures Defines(net, Seen(net, a, ToSet(old(history))), name) ==>
                r.Some? && r.value in Seen(net, a, ToSet(old(history))) && name in net.names[r.value]
      ensures !Defines(net, Seen(net, a, ToSet(old(history))), name) ==>
                history == old(history) && r == if history == [] then Some(a) else None
      decreases |net.Nodes() - ToSet(history)|
    {
      ghost var avoid := ToSet(history);
      FewerLeft(net, a, avoid);
      SeenIncludesSelf(net, a, avoid);
      history := history + [a];
      assert ToSet(history) == avoid + {a};
      if name in net.names[a] {
        return Some(a);
      }
      var links := net.links[a];
      for i := 0 to |links|
        invariant history == old(history) + [a]
        invariant forall x | x in links[..i] && x !in avoid + {a} :: !Defines(net, Seen(net, x, avoid + {a}), name)
      {
        assert links[..i + 1] == links[..i] + [links[i]];
        assert net.Edge(a, links[i]);
        if links[i] !in history {
          r := Provider(links[i], name);
          if r.Some? {
            SeenSteps(net, a, avoid, r.value);
            return;
          }
        }
      }
      assert links[..|links|] == links;
      NobodyDefines(net, a, avoid, name);
      history := history[..|history| - 1];
      return if history == [] then Some(a) else None;
    }
  }

  ghost predicate Defines(net: Net, s: set<Id>, name: string) {
    exists b <- s :: b in net.names && name in net.names[b]
  }

  lemma NobodyDefines(net: Net, a: Id, avoid: set<Id>, name: string)
    requires net.Valid() && a in net.links && a !in avoid && name !in net.names[a]
    requires forall x | net.Edge(a, x) && x !in avoid + {a} :: !Defines(net, Seen(net, x, avoid + {a}), name)
    ensures !Defines(net, Seen(net, a, avoid), name)
  {
    forall b <- Seen(net, a, avoid)
      ensures !(b in net.names && name in net.names[b])
    {
      SeenSteps(net, a, avoid, b);
    }
  }

  // ----- linking -----

  ghost function DomainsOf(net: Net, a: Id): set<string>
    requires net.Valid()
  {
    set b | b in Group(net, a) :: net.domain[b]
  }

  ghost function NamesOf(net: Net, a: Id): set<string>
    requires net.Valid()
  {
    set b, n | b in Group(net, a) && n in net.names[b] :: n
  }

  /** What validation demands. */
  ghost predicate Linkable(net: Net, a: Id, b: Id)
    requires net.Valid() && a in net.links && b in net.links
  {
    && !net.Edge(b, a) && !net.Edge(a, b)
    && DomainsOf(net, a) !! DomainsOf(net, b)
    && NamesOf(net, a) !! NamesOf(net, b)
  }

  function AddLink(net: Net, a: Id, b: Id): Net
    requires a in net.links && b in net.links && a != b
  {
    net.(links := net.links[a := net.links[a] + [b]][b := net.links[b] + [a]])
  }

  predicate Distinct(s: seq<Id>) {
    forall i, j | 0 <= i < j < |s| :: s[i] != s[j]
  }

  /** list.remove: drops the first occurrence. */
  function RemoveFirst(s: seq<Id>, x: Id): (r: seq<Id>)
    ensures forall y :: y != x ==> (y in r <==> y in s)
  {
    if s == [] then []
    else if s[0] == x then
      assert s == [s[0]] + s[1..];
      s[1..]
    else
      assert s == [s[0]] + s[1..];
      [s[0]] + RemoveFirst(s[1..], x)
  }

  lemma {:induction false} RemoveFirstDistinct(s: seq<Id>, x: Id)
    requires Distinct(s)
    ensures Distinct(RemoveFirst(s, x)) && x !in RemoveFirst(s, x)
  {
    if s != [] && s[0] != x {
      RemoveFirstDistinct(s[1..], x);
      DistinctCons(s[0], RemoveFirst(s[1..], x));
    }
  }

  lemma DistinctCons(x: Id, s: seq<Id>)
    requires Distinct(s) && x !in s
    ensures Distinct([x] + s) && Distinct(s + [x])
  {
  }

  /** Removing what was just appended restores the list. */
  lemma {:induction false} RemoveAppended(s: seq<Id>, x: Id)
    requires x !in s
    ensures RemoveFirst(s + [x], x) == s
  {
    if s == [] {
      assert s + [x] == [x];
    } else {
      assert (s + [x])[1..] == s[1..] + [x];
      RemoveAppended(s[1..], x);
    }
  }

  /** teardown: each end forgets the other. */
  function DropLink(net: Net, a: Id, b: Id): Net
    requires a in net.links && b in net.links && a != b
  {
    net.(links := net.links[a := RemoveFirst(net.links[a], b)][b := RemoveFirst(net.links[b], a)])
  }

  // ----- the invariant of the network -----

  predicate NoDuplicates(net: Net) {
    forall a <- net.links :: a !in net.links[a] && Distinct(net.links[a])
  }

  /** Distinct connected objects have different domains and share no name. */
  ghost predicate Separate(net: Net)
    requires net.Valid()
  {
    forall a, b | a in net.links && b in Group(net, a) && a != b ::
        net.domain[a] != net.domain[b] && net.names[a] !! net.names[b]
  }

  /** Every link is the only connection between its ends: the network is a forest. */
  ghost predicate Forest(net: Net)
    requires net.Valid()
  {
    forall a, b | net.Edge(a, b) && a != b :: !Connected(DropLink(net, a, b), a, b)
  }

  ghost predicate Inv(net: Net) {
    net.Valid() && Symmetric(net) && NoDuplicates(net) && Separate(net) && Forest(net)
  }

  /** Objects of different groups have disjoint groups. */
  lemma GroupsDisjoint(net: Net, a: Id, b: Id)
    requires net.Valid() && Symmetric(net) && a in net.links && b in net.links && b !in Group(net, a)
    ensures Group(net, a) !! Group(net, b)
  {
    if x :| x in Group(net, a) && x in Group(net, b) {
      GroupsCoincide(net, a, x);
      GroupsCoincide(net, b, x);
      GroupIsClosed(net, b);
    }
  }

  /** Validation refuses objects that are connected already, so no link closes a cycle. */
  lemma LinkableIsUnconnected(net: Net, a: Id, b: Id)
    requires net.Valid() && Symmetric(net) && a in net.links && b in net.links && Linkable(net, a, b)
    ensures a != b && !Connected(net, a, b) && Group(net, a) !! Group(net, b)
  {
    GroupIsClosed(net, a);
    GroupIsClosed(net, b);
    MemberOf(net, b, b);
    if b in Group(net, a) {
      MemberOf(net, a, b);
      assert false;
    }
    GroupsDisjoint(net, a, b);
  }

  lemma MemberOf(net: Net, a: Id, x: Id)
    requires net.Valid() && x in Group(net, a)
    ensures net.domain[x] in DomainsOf(net, a) && net.names[x] <= NamesOf(net, a)
  {
  }

  predicate Joins(a: Id, b: Id, x: Id, y: Id) {
    (x == a && y == b) || (x == b && y == a)
  }

  lemma EdgesAfterAdd(net: Net, a: Id, b: Id)
    requires a in net.links && b in net.links && a != b
    ensures forall x, y :: AddLink(net, a, b).Edge(x, y) <==> net.Edge(x, y) || Joins(a, b, x, y)
  {
  }

  lemma EdgesAfterDrop(net: Net, a: Id, b: Id)
    requires NoDuplicates(net) && a in net.links && b in net.links && a != b
    ensures forall x, y :: DropLink(net, a, b).Edge(x, y) <==> net.Edge(x, y) && !Joins(a, b, x, y)
  {
    RemoveFirstDistinct(net.links[a], b);
    RemoveFirstDistinct(net.links[b], a);
  }

  lemma DropKeepsDistinct(net: Net, a: Id, b: Id)
    requires NoDuplicates(net) && a in net.links && b in net.links && a != b
    ensures NoDuplicates(DropLink(net, a, b))
  {
    RemoveFirstDistinct(net.links[a], b);
    RemoveFirstDistinct(net.links[b], a);
  }

  lemma AddKeepsShape(net: Net, a: Id, b: Id)
    requires net.Valid() && Symmetric(net) && NoDuplicates(net) && a in net.links && b in net.links
    requires a != b && !net.Edge(a, b) && !net.Edge(b, a)
    ensures var next := AddLink(net, a, b); next.Valid() && Symmetric(next) && NoDuplicates(next)
  {
    DistinctCons(b, net.links[a]);
    DistinctCons(a, net.links[b]);
    EdgesAfterAdd(net, a, b);
  }

  /** In the new network a group is either untouched or part of the two joined ones. */
  lemma GroupAfterAdd(net: Net, a: Id, b: Id, x: Id)
    requires net.Valid() && a in net.links && b in net.links && a != b && x in net.links
    ensures var next := AddLink(net, a, b);
            if x in Group(net, a) + Group(net, b) then Group(next, x) <= Group(net, a) + Group(net, b)
            else a !in Group(net, x) && b !in Group(net, x) ==> Group(next, x) <= Group(net, x)
  {
    var next := AddLink(net, a, b);
    EdgesAfterAdd(net, a, b);
    GroupIsClosed(net, a);
    GroupIsClosed(net, b);
    GroupIsClosed(net, x);
    var joined := Group(net, a) + Group(net, b);
    if x in joined {
      assert Closed(next, joined);
      GroupIsLeast(next, x, joined);
    } else if a !in Group(net, x) && b !in Group(net, x) {
      assert Closed(next, Group(net, x));
      GroupIsLeast(next, x, Group(net, x));
    }
  }

  lemma AddKeepsSeparate(net: Net, a: Id, b: Id)
    requires net.Valid() && Symmetric(net) && NoDuplicates(net) && Separate(net)
    requires a in net.links && b in net.links && a != b && Linkable(net, a, b)
    requires AddLink(net, a, b).Valid()
    ensures Separate(AddLink(net, a, b))
  {
    var next := AddLink(net, a, b);
    forall x, y | x in next.links && y in Group(next, x) && x != y
      ensures net.domain[x] != net.domain[y] && net.names[x] !! net.names[y]
    {
      GroupAfterAdd(net, a, b, x);
      if x in Group(net, a) + Group(net, b) {
        SeparateAcross(net, a, b, x, y);
      } else {
        if a in Group(net, x) {
          GroupsCoincide(net, x, a);
          GroupIsClosed(net, x);
        }
        if b in Group(net, x) {
          GroupsCoincide(net, x, b);
          GroupIsClosed(net, x);
        }
        assert y in Group(net, x);
      }
    }
  }

  /** Two members of groups that validation found disjoint, or of one of them. */
  lemma SeparateAcross(net: Net, a: Id, b: Id, x: Id, y: Id)
    requires net.Valid() && Symmetric(net) && Separate(net) && a in net.links && b in net.links && Linkable(net, a, b)
    requires x in Group(net, a) + Group(net, b) && y in Group(net, a) + Group(net, b) && x != y
    ensures net.domain[x] != net.domain[y] && net.names[x] !! net.names[y]
  {
    if x in Group(net, a) {
      GroupsCoincide(net, a, x);
    } else {
      GroupsCoincide(net, b, x);
    }
    if y !in Group(net, x) {
      var g, h := if x in Group(net, a) then a else b, if x in Group(net, a) then b else a;
      assert x in Group(net, g) && y in Group(net, h);
      MemberOf(net, g, x);
      MemberOf(net, h, y);
    }
  }

  // ----- no link closes a cycle -----

  /** A closed set that holds a but not b, inside a's group. */
  lemma Separator(net: Net, a: Id, b: Id) returns (s: set<Id>)
    requires net.Valid() && NoDuplicates(net) && net.Edge(a, b) && a != b && !Connected(DropLink(net, a, b), a, b)
    ensures Closed(DropLink(net, a, b), s) && a in s && b !in s && s <= Group(net, a) && b in Group(net, a)
  {
    var cut := DropLink(net, a, b);
    EdgesAfterDrop(net, a, b);
    GroupIsClosed(net, a);
    var t :| Closed(cut, t) && a in t && b !in t;
    s := t * Group(net, a);
  }

  /** An old link stays a bridge when two other groups are joined. */
  lemma BridgeAfterAdd(net: Net, x: Id, y: Id, a: Id, b: Id)
    requires net.Valid() && Symmetric(net) && NoDuplicates(net) && Forest(net)
    requires x in net.links && y in net.links && x != y && Group(net, x) !! Group(net, y)
    requires net.Edge(a, b) && a != b && NoDuplicates(AddLink(net, x, y))
    ensures !Connected(DropLink(AddLink(net, x, y), a, b), a, b)
  {
    var next := AddLink(net, x, y);
    var s := Separator(net, a, b);
    if x in s && y !in s {
      BridgeBesideJoin(net, x, y, a, b, s, next);
    } else if y in s && x !in s {
      AddLinkCommutes(net, x, y);
      BridgeBesideJoin(net, y, x, a, b, s, next);
    } else {
      BridgeAwayFromJoin(net, x, y, a, b, s, next);
    }
  }

  lemma AddLinkCommutes(net: Net, x: Id, y: Id)
    requires x in net.links && y in net.links && x != y
    ensures AddLink(net, x, y) == AddLink(net, y, x)
  {
  }

  lemma BridgeAwayFromJoin(net: Net, x: Id, y: Id, a: Id, b: Id, s: set<Id>, next: Net)
    requires net.Valid() && NoDuplicates(net) && net.Edge(a, b) && a != b
    requires x in net.links && y in net.links && x != y && next == AddLink(net, x, y) && NoDuplicates(next)
    requires Closed(DropLink(net, a, b), s) && a in s && b !in s && (x in s <==> y in s)
    ensures !Connected(DropLink(next, a, b), a, b)
  {
    EdgesAfterAdd(net, x, y);
    EdgesAfterDrop(net, a, b);
    EdgesAfterDrop(next, a, b);
    assert Closed(DropLink(next, a, b), s);
  }

  lemma BridgeBesideJoin(net: Net, x: Id, y: Id, a: Id, b: Id, s: set<Id>, next: Net)
    requires net.Valid() && Symmetric(net) && NoDuplicates(net) && net.Edge(a, b) && a != b
    requires x in net.links && y in net.links && x != y && Group(net, x) !! Group(net, y)
    requires next == AddLink(net, x, y) && NoDuplicates(next)
    requires Closed(DropLink(net, a, b), s) && a in s && b !in s && s <= Group(net, a) && b in Group(net, a)
    requires x in s && y !in s
    ensures !Connected(DropLink(next, a, b), a, b)
  {
    EdgesAfterAdd(net, x, y);
    EdgesAfterDrop(net, a, b);
    EdgesAfterDrop(next, a, b);
    GroupIsClosed(net, y);
    GroupsCoincide(net, a, x);
    var t := s + Group(net, y);
    assert Closed(DropLink(next, a, b), t);
    assert a in t && b !in t;
  }

  /** The new link itself is a bridge: without it the network is as before. */
  lemma NewLinkIsBridge(net: Net, x: Id, y: Id)
    requires net.Valid() && NoDuplicates(net) && x in net.links && y in net.links && x != y && !Connected(net, x, y)
    requires !net.Edge(x, y) && !net.Edge(y, x) && NoDuplicates(AddLink(net, x, y))
    ensures !Connected(DropLink(AddLink(net, x, y), x, y), x, y)
  {
    var cut := DropLink(AddLink(net, x, y), x, y);
    EdgesAfterAdd(net, x, y);
    EdgesAfterDrop(AddLink(net, x, y), x, y);
    var s :| Closed(net, s) && x in s && y !in s;
    assert Closed(cut, s);
  }

  lemma ConnectedIsSymmetric(net: Net, a: Id, b: Id)
    requires net.Valid() && Symmetric(net) && a in net.links && b in net.links && !Connected(net, a, b)
    ensures !Connected(net, b, a)
  {
    var s :| Closed(net, s) && a in s && b !in s;
    ComplementIsClosed(net, s);
    assert b in net.Nodes() - s && a !in net.Nodes() - s;
  }

  lemma AddKeepsForest(net: Net, x: Id, y: Id)
    requires Inv(net) && x in net.links && y in net.links && Linkable(net, x, y) && x != y
    requires var next := AddLink(net, x, y); next.Valid() && NoDuplicates(next)
    ensures Forest(AddLink(net, x, y))
  {
    var next := AddLink(net, x, y);
    LinkableIsUnconnected(net, x, y);
    EdgesAfterAdd(net, x, y);
    forall a, b | next.Edge(a, b) && a != b
      ensures !Connected(DropLink(next, a, b), a, b)
    {
      if net.Edge(a, b) {
        BridgeAfterAdd(net, x, y, a, b);
      } else if a == x {
        NewLinkIsBridge(net, x, y);
      } else {
        ConnectedIsSymmetric(net, x, y);
        AddLinkCommutes(net, x, y);
        NewLinkIsBridge(net, y, x);
      }
    }
  }

  /** A successful link keeps the invariant, and its ends were not connected before. */
  lemma LinkKeepsInv(net: Net, a: Id, b: Id)
    requires Inv(net) && a in net.links && b in net.links && Linkable(net, a, b)
    ensures a != b && !Connected(net, a, b) && Inv(AddLink(net, a, b))
  {
    LinkableIsUnconnected(net, a, b);
    AddKeepsShape(net, a, b);
    AddKeepsSeparate(net, a, b);
    AddKeepsForest(net, a, b);
  }

  /** Taking links away keeps the invariant. */
  lemma DropKeepsInv(net: Net, a: Id, b: Id)
    requires Inv(net) && a in net.links && b in net.links && a != b
    ensures Inv(DropLink(net, a, b))
  {
    var next := DropLink(net, a, b);
    DropKeepsDistinct(net, a, b);
    EdgesAfterDrop(net, a, b);
    assert next.Valid() && Symmetric(next);
    forall x, y | x in next.links && y in Group(next, x) && x != y
      ensures net.domain[x] != net.domain[y] && net.names[x] !! net.names[y]
    {
      GroupIsClosed(net, x);
      assert Closed(next, Group(net, x));
      GroupIsLeast(next, x, Group(net, x));
    }
    forall x, y | next.Edge(x, y) && x != y
      ensures !Connected(DropLink(next, x, y), x, y)
    {
      StillBridge(net, next, x, y);
    }
  }

  lemma StillBridge(net: Net, next: Net, x: Id, y: Id)
    requires net.Valid() && NoDuplicates(net) && Forest(net) && next.Valid() && NoDuplicates(next)
    requires forall c, d :: next.Edge(c, d) ==> net.Edge(c, d)
    requires next.Edge(x, y) && x != y
    ensures !Connected(DropLink(next, x, y), x, y)
  {
    EdgesAfterDrop(net, x, y);
    EdgesAfterDrop(next, x, y);
    var s :| Closed(DropLink(net, x, y), s) && x in s && y !in s;
    assert Closed(DropLink(next, x, y), s);
  }

  // ----- runs -----

  datatype Op = Link(a: Id, b: Id) | Unlink(a: Id, others: seq<Id>)

  /** teardown of one link; an object that is not linked any more is left alone. */
  function DropOne(net: Net, a: Id, b: Id): (r: Net)
    requires a in net.links
    ensures r.links.Keys == net.links.Keys
  {
    if b in net.links && b != a then DropLink(net, a, b) else net
  }

  function DropAll(net: Net, a: Id, targets: seq<Id>): Net
    requires a in net.links
    decreases |targets|
  {
    if targets == [] then net else DropAll(DropOne(net, a, targets[0]), a, targets[1..])
  }

  /** The linked objects that an unlink call names; none named means all. */
  function Unlinked(links: seq<Id>, others: seq<Id>): seq<Id> {
    if links == [] then []
    else (if others == [] || links[0] in others then [links[0]] else []) + Unlinked(links[1..], others)
  }

  /** The effect of one call; a call that raises, or names an unknown object, changes nothing. */
  ghost function Apply(net: Net, op: Op): Net
    requires net.Valid()
  {
    match op
    case Link(a, b) =>
      if a in net.links && b in net.links && a != b && Linkable(net, a, b) then AddLink(net, a, b) else net
    case Unlink(a, others) =>
      if a in net.links then
        DropAll(net, a, Unlinked(net.links[a], others))
      else net
  }

  lemma DropOneKeepsInv(net: Net, a: Id, b: Id)
    requires Inv(net) && a in net.links
    ensures Inv(DropOne(net, a, b))
  {
    if b in net.links && b != a {
      DropKeepsInv(net, a, b);
    }
  }

  lemma {:induction false} DropAllKeepsInv(net: Net, a: Id, targets: seq<Id>)
    requires Inv(net) && a in net.links
    ensures Inv(DropAll(net, a, targets))
    decreases |targets|
  {
    if targets != [] {
      DropOneKeepsInv(net, a, targets[0]);
      DropAllKeepsInv(DropOne(net, a, targets[0]), a, targets[1..]);
    }
  }

  lemma ApplyKeepsInv(net: Net, op: Op)
    requires Inv(net)
    ensures Inv(Apply(net, op))
  {
    match op {
      case Link(a, b) =>
        if a in net.links && b in net.links && a != b && Linkable(net, a, b) {
          LinkKeepsInv(net, a, b);
        }
      case Unlink(a, others) =>
        if a in net.links {
          DropAllKeepsInv(net, a, Unlinked(net.links[a], others));
        }
    }
  }

  /** Unlinking a link just made restores the network, with the order of all links. */
  lemma UnlinkUndoesLink(net: Net, a: Id, b: Id)
    requires Inv(net) && a in net.links && b in net.links && Linkable(net, a, b)
    ensures Apply(net, Link(a, b)).Valid() && Apply(Apply(net, Link(a, b)), Unlink(a, [b])) == net
  {
    LinkKeepsInv(net, a, b);
    var next := AddLink(net, a, b);
    assert next.links[a] == net.links[a] + [b];
    UnlinkedOne(net.links[a], b);
    DropUndoesAdd(net, a, b);
    DropOnly(next, a, b);
  }

  lemma DropUndoesAdd(net: Net, a: Id, b: Id)
    requires a in net.links && b in net.links && a != b && !net.Edge(a, b) && !net.Edge(b, a)
    ensures DropLink(AddLink(net, a, b), a, b) == net
  {
    RemoveAppended(net.links[a], b);
    RemoveAppended(net.links[b], a);
    assert DropLink(AddLink(net, a, b), a, b).links == net.links;
  }

  lemma DropOnly(net: Net, a: Id, b: Id)
    requires a in net.links && b in net.links && a != b
    ensures DropAll(net, a, [b]) == DropLink(net, a, b)
  {
    assert [b][1..] == [];
  }

  /** Of links that end in b and hold it once, only the last is b. */
  lemma {:induction false} UnlinkedOne(links: seq<Id>, b: Id)
    requires b !in links
    ensures Unlinked(links + [b], [b]) == [b]
  {
    if links == [] {
      assert links + [b] == [b] && [b][1..] == [];
    } else {
      assert (links + [b])[1..] == links[1..] + [b];
      UnlinkedOne(links[1..], b);
    }
  }

  // ----- what a link makes -----

  /** The new link, and no other, is there afterwards; a refused one changes nothing. */
  lemma EdgesAfterLink(net: Net, a: Id, b: Id, x: Id, y: Id)
    requires net.Valid() && a in net.links && b in net.links
    ensures Apply(net, Link(a, b)).Edge(x, y) <==>
            net.Edge(x, y) || (Linkable(net, a, b) && Joins(a, b, x, y))
    ensures !Linkable(net, a, b) ==> Apply(net, Link(a, b)) == net
  {
    if Linkable(net, a, b) {
      LinkableDiffer(net, a, b);
      EdgesAfterAdd(net, a, b);
    }
  }

  lemma LinkableDiffer(net: Net, a: Id, b: Id)
    requires net.Valid() && a in net.links && b in net.links && Linkable(net, a, b)
    ensures a != b
  {
    GroupIsClosed(net, a);
    MemberOf(net, a, a);
  }

  /** The groups of two objects become one. */
  lemma JoinedGroup(net: Net, a: Id, b: Id)
    requires net.Valid() && a in net.links && b in net.links && a != b
    ensures var next := AddLink(net, a, b); Group(next, a) == Group(net, a) + Group(net, b)
  {
    var next := AddLink(net, a, b);
    EdgesAfterAdd(net, a, b);
    GroupIsClosed(net, a);
    GroupAfterAdd(net, a, b, a);
    assert next.Valid();
    GroupIsClosed(next, a);
    assert next.Edge(a, b);
    assert Closed(net, Group(next, a));
    GroupIsLeast(net, a, Group(next, a));
    GroupIsLeast(net, b, Group(next, a));
  }

  /** After a successful call a searches its old group and that of b. */
  lemma GroupAfterLink(net: Net, a: Id, b: Id)
    requires net.Valid() && a in net.links && b in net.links
    ensures Group(Apply(net, Link(a, b)), a) ==
            if Linkable(net, a, b) then Group(net, a) + Group(net, b) else Group(net, a)
  {
    if Linkable(net, a, b) {
      LinkableDiffer(net, a, b);
      JoinedGroup(net, a, b);
    }
  }

  /** A link of these objects is new, closes no cycle and keeps domains and names unique. */
  ghost predicate MayLink(net: Net, a: Id, b: Id)
    requires net.Valid() && a in net.links && b in net.links
  {
    && a != b && !net.Edge(a, b) && !net.Edge(b, a) && !Connected(net, a, b)
    && AddLink(net, a, b).Valid() && Separate(AddLink(net, a, b))
  }

  /** Validation refuses exactly the links that may not be made. */
  lemma LinkableIff(net: Net, a: Id, b: Id)
    requires Inv(net) && a in net.links && b in net.links
    ensures Linkable(net, a, b) <==> MayLink(net, a, b)
  {
    if Linkable(net, a, b) {
      LinkableMayLink(net, a, b);
    }
    if MayLink(net, a, b) {
      SeparateIsLinkable(net, a, b);
    }
  }

  lemma LinkableMayLink(net: Net, a: Id, b: Id)
    requires Inv(net) && a in net.links && b in net.links && Linkable(net, a, b)
    ensures MayLink(net, a, b)
  {
    LinkKeepsInv(net, a, b);
  }

  lemma SeparateIsLinkable(net: Net, a: Id, b: Id)
    requires Inv(net) && a in net.links && b in net.links && MayLink(net, a, b)
    ensures Linkable(net, a, b)
  {
    var next := AddLink(net, a, b);
    AddKeepsShape(net, a, b);
    JoinedGroup(net, a, b);
    GroupsDisjoint(net, a, b);
    forall x, y | x in Group(net, a) && y in Group(net, b)
      ensures net.domain[x] != net.domain[y] && net.names[x] !! net.names[y]
    {
      GroupsCoincide(next, a, x);
    }
  }

  // ----- what an unlink leaves -----

  lemma {:induction false} UnlinkedMembers(links: seq<Id>, others: seq<Id>, t: Id)
    ensures t in Unlinked(links, others) <==> t in links && (others == [] || t in others)
  {
    if links != [] {
      UnlinkedMembers(links[1..], others, t);
    }
  }

  /** The pair joins a with one of the targets. */
  predicate JoinsOne(a: Id, targets: seq<Id>, x: Id, y: Id) {
    (x == a && y in targets) || (y == a && x in targets)
  }

  lemma {:induction false} EdgesAfterDropAll(net: Net, a: Id, targets: seq<Id>, x: Id, y: Id)
    requires NoDuplicates(net) && a in net.links && a !in targets && forall t <- targets :: t in net.links
    ensures DropAll(net, a, targets).Edge(x, y) <==> net.Edge(x, y) && !JoinsOne(a, targets, x, y)
    decreases |targets|
  {
    if targets != [] {
      var b, later := targets[0], targets[1..];
      EdgesAfterDrop(net, a, b);
      DropKeepsDistinct(net, a, b);
      EdgesAfterDropAll(DropLink(net, a, b), a, later, x, y);
      assert targets == [b] + later;
    }
  }

  /** Exactly the links between a and the objects named are gone; none named means all. */
  lemma EdgesAfterUnlink(net: Net, a: Id, others: seq<Id>, x: Id, y: Id)
    requires net.Valid() && NoDuplicates(net) && Symmetric(net) && a in net.links
    ensures Apply(net, Unlink(a, others)).Edge(x, y) <==>
            net.Edge(x, y) && !(x == a && (others == [] || y in others)) && !(y == a && (others == [] || x in others))
  {
    var targets := Unlinked(net.links[a], others);
    UnlinkedMembers(net.links[a], others, x);
    UnlinkedMembers(net.links[a], others, y);
    TargetsAreLinked(net, a, others, targets);
    EdgesAfterDropAll(net, a, targets, x, y);
  }

  lemma TargetsAreLinked(net: Net, a: Id, others: seq<Id>, targets: seq<Id>)
    requires net.Valid() && NoDuplicates(net) && a in net.links && targets == Unlinked(net.links[a], others)
    ensures a !in targets && forall t <- targets :: t in net.links
  {
    forall t <- targets
      ensures net.Edge(a, t) && t != a
    {
      UnlinkedMembers(net.links[a], others, t);
    }
  }

  /** The networks after each call of a run. */
  ghost predicate IsRun(nets: seq<Net>, ops: seq<Op>) {
    && |nets| == |ops| + 1
    && forall i | 0 <= i < |ops| :: nets[i].Valid() && nets[i + 1] == Apply(nets[i], ops[i])
  }

  /** Whatever is called, in any order, failures included, every network of the run is sound. */
  lemma {:induction false} EveryRunKeepsInv(nets: seq<Net>, ops: seq<Op>, i: nat)
    requires IsRun(nets, ops) && Inv(nets[0]) && i < |nets|
    ensures Inv(nets[i])
  {
    if i > 0 {
      EveryRunKeepsInv(nets, ops, i - 1);
      ApplyKeepsInv(nets[i - 1], ops[i - 1]);
    }
  }

  /** Objects without links, with any domains and names, are a sound network. */
  lemma UnlinkedNetworkIsSound(net: Net)
    requires net.domain.Keys == net.names.Keys == net.links.Keys && forall a <- net.links :: net.links[a] == []
    ensures Inv(net)
  {
    forall a | a in net.links
      ensures Group(net, a) <= {a}
    {
      assert Closed(net, {a});
      GroupIsLeast(net, a, {a});
    }
  }

  /** In a sound network a name has at most one provider per group. */
  lemma ProviderIsUnique(net: Net, a: Id, p: Id, q: Id, name: string)
    requires Inv(net) && a in net.links
    requires p in Group(net, a) && q in Group(net, a) && name in net.names[p] && name in net.names[q]
    ensures p == q
  {
    GroupsCoincide(net, a, p);
  }

  lemma UnlinkStep(net: Net, a: Id, links: seq<Id>, i: nat, others: seq<Id>)
    requires i < |links| && a in net.links
    ensures DropAll(net, a, Unlinked(links[i..], others)) ==
            var next := if others == [] || links[i] in others then DropOne(net, a, links[i]) else net;
            DropAll(next, a, Unlinked(links[i + 1..], others))
  {
    var later := Unlinked(links[i + 1..], others);
    assert links[i..][1..] == links[i + 1..];
    assert ([links[i]] + later)[1..] == later && [] + later == later;
  }

  // ----- the mutable network -----

  class Network {
    var net: Net

    constructor (net: Net)
      ensures this.net == net
    {
      this.net := net;
    }

    method GroupMembers(a: Id) returns (seen: set<Id>)
      requires net.Valid() && a in net.links
      ensures seen == Group(net, a)
    {
      var search := new Search(net);
      assert ToSet(search.history) == {};
      seen := search.Visit(a);
      SeenIsGroup(net, a);
    }

    /** The object of a's group that defines the name, or a itself when none does. */
    method ProviderOf(a: Id, name: string) returns (p: Id)
      requires net.Valid() && a in net.links
      ensures p in Group(net, a)
      ensures Defines(net, Group(net, a), name) ==> name in net.names[p]
      ensures !Defines(net, Group(net, a), name) ==> p == a
    {
      var search := new Search(net);
      assert ToSet(search.history) == {};
      var r := search.Provider(a, name);
      SeenIsGroup(net, a);
      GroupIsClosed(net, a);
      p := r.value;
    }

    /** Validates and links; false when an exception is raised. */
    method LinkWith(a: Id, b: Id) returns (ok: bool)
      requires net.Valid() && a in net.links && b in net.links
      modifies this
      ensures ok <==> old(Linkable(net, a, b))
      ensures net == Apply(old(net), Link(a, b))
      ensures forall x, y :: net.Edge(x, y) <==>
                             old(net).Edge(x, y) || (ok && Joins(a, b, x, y))
      ensures Group(net, a) == if ok then Group(old(net), a) + Group(old(net), b) else Group(old(net), a)
      ensures !ok ==> net == old(net)
    {
      forall x, y {
        EdgesAfterLink(net, a, b, x, y);
      }
      GroupAfterLink(net, a, b);
      if net.Edge(b, a) || net.Edge(a, b) {
        return false;
      }
      var ga := GroupMembers(a);
      var gb := GroupMembers(b);
      var domA := set x | x in ga :: net.domain[x];
      var domB := set x | x in gb :: net.domain[x];
      assert domA == DomainsOf(net, a) && domB == DomainsOf(net, b);
      assert a == b ==> net.domain[a] in domA * domB by {
        GroupIsClosed(net, a);
        MemberOf(net, a, a);
      }
      if !(domA !! domB) {
        return false;
      }
      var namesA := set x, n | x in ga && n in net.names[x] :: n;
      var namesB := set x, n | x in gb && n in net.names[x] :: n;
      assert namesA == NamesOf(net, a) && namesB == NamesOf(net, b);
      if !(namesA !! namesB) {
        return false;
      }
      net := net.(links := net.links[a := net.links[a] + [b]][b := net.links[b] + [a]]);
      return true;
    }

    /** Tears down the links to the named objects, or all links. */
    method UnlinkFrom(a: Id, others: seq<Id>)
      requires net.Valid() && a in net.links
      modifies this
      ensures net == Apply(old(net), Unlink(a, others))
      ensures old(NoDuplicates(net) && Symmetric(net)) ==> forall x, y :: net.Edge(x, y) <==>
                && old(net).Edge(x, y)
                && !(x == a && (others == [] || y in others)) && !(y == a && (others == [] || x in others))
    {
      ghost var before := net;
      var snapshot := net.links[a];
      ghost var goal := DropAll(net, a, Unlinked(snapshot, others));
      assert snapshot[0..] == snapshot;
      for i := 0 to |snapshot|
        invariant a in net.links && DropAll(net, a, Unlinked(snapshot[i..], others)) == goal
      {
        UnlinkStep(net, a, snapshot, i, others);
        if others == [] || snapshot[i] in others {
          net := DropOne(net, a, snapshot[i]);
        }
      }
      assert snapshot[|snapshot|..] == [];
      if NoDuplicates(before) && Symmetric(before) {
        forall x, y
          ensures net.Edge(x, y) <==>
                  && before.Edge(x, y)
                  && !(x == a && (others == [] || y in others)) && !(y == a && (others == [] || x in others))
        {
          EdgesAfterUnlink(before, a, others, x, y);
        }
      }
    }
  }
}

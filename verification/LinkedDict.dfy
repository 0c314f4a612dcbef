/**
 The ordered dictionary: a key-to-link map beside a circular doubly linked list with a
 sentinel. It behaves as a duplicate-free sequence of keys and a plain dictionary.
 */
module LinkedDict {
  import opened Decimal

  /** Keys are only ever compared. */
  type Key(==, !new, 0)

  // ----- the circular list -----

  class Link {
    var prev: Link
    var next: Link
    const key: Option<Key>

    /** A link alone in its circle. */
    constructor (key: Option<Key>)
      ensures prev == this && next == this && this.key == key
    {
      prev, next, this.key := this, this, key;
    }
  }

  ghost predicate Distinct<X>(s: seq<X>) {
    forall i, j | 0 <= i < j < |s| :: s[i] != s[j]
  }

  function Without<X>(s: seq<X>, k: nat): seq<X>
    requires k < |s|
  {
    s[..k] + s[k + 1..]
  }

  /** The links of nodes, in order, between the two sides of the sentinel. */
  ghost predicate Circle(root: Link, nodes: seq<Link>)
    reads root, nodes
  {
    && root !in nodes
    && Distinct(nodes)
    && root.next == (if nodes == [] then root else nodes[0])
    && root.prev == (if nodes == [] then root else nodes[|nodes| - 1])
    && (forall i {:trigger nodes[i].next} | 0 <= i < |nodes| ::
          nodes[i].next == if i == |nodes| - 1 then root else nodes[i + 1])
    && (forall i {:trigger nodes[i].prev} | 0 <= i < |nodes| :: nodes[i].prev == if i == 0 then root else nodes[i - 1])
  }

  /** The new link goes between the last link and the sentinel, which both turn to it. */
  method AppendLink(root: Link, link: Link, ghost nodes: seq<Link>)
    requires Circle(root, nodes) && link !in nodes && link != root
    modifies root, nodes, link
    ensures Circle(root, nodes + [link])
  {
    var last := root.prev;
    link.prev, link.next := last, root;
    last.next := link;
    root.prev := link;
  }

  /** The neighbours of the link turn to each other. */
  method RemoveLink(root: Link, link: Link, ghost nodes: seq<Link>, ghost k: nat, ghost rest: seq<Link>)
    requires Circle(root, nodes) && k < |nodes| && nodes[k] == link && rest == Without(nodes, k)
    modifies root, nodes
    ensures Circle(root, rest)
  {
    link.prev.next := link.next;
    link.next.prev := link.prev;
  }

  /** Unlinks the last or the first link of a nonempty circle. */
  method PopLink(root: Link, last: bool, ghost nodes: seq<Link>, ghost k: nat, ghost rest: seq<Link>)
    returns (link: Link)
    requires Circle(root, nodes) && nodes != [] && k == End(last, |nodes|) && rest == Without(nodes, k)
    modifies root, nodes
    ensures link == nodes[k]
    ensures Circle(root, rest)
  {
    if last {
      link := root.prev;
      var linkPrev := link.prev;
      linkPrev.next := root;
      root.prev := linkPrev;
    } else {
      link := root.next;
      var linkNext := link.next;
      root.next := linkNext;
      linkNext.prev := root;
    }
  }

  /** The end popitem takes from. */
  function End(last: bool, n: nat): nat
    requires n > 0
  {
    if last then n - 1 else 0
  }

  function Reverse<X>(s: seq<X>): (r: seq<X>)
    ensures |r| == |s| && forall i | 0 <= i < |s| :: r[i] == s[|s| - 1 - i]
  {
    if s == [] then [] else Reverse(s[1..]) + [s[0]]
  }

  // ----- the dictionary -----

  /** The map finds the link of every key of the list, and knows no other key. */
  ghost predicate Indexes(linkOf: map<Key, Link>, keys: seq<Key>, nodes: seq<Link>) {
    && |keys| == |nodes|
    && (forall i | 0 <= i < |keys| :: nodes[i].key == Some(keys[i]) && keys[i] in linkOf && linkOf[keys[i]] == nodes[i])
    && (forall k <- linkOf :: k in keys)
  }

  lemma KeysDistinct(linkOf: map<Key, Link>, keys: seq<Key>, nodes: seq<Link>)
    requires Indexes(linkOf, keys, nodes) && Distinct(nodes)
    ensures Distinct(keys) && forall k :: k in keys <==> k in linkOf
  {
    forall i, j | 0 <= i < j < |keys|
      ensures keys[i] != keys[j]
    {
      assert linkOf[keys[i]] == nodes[i] && linkOf[keys[j]] == nodes[j];
    }
  }

  lemma PositionOf(linkOf: map<Key, Link>, keys: seq<Key>, nodes: seq<Link>, key: Key) returns (i: nat)
    requires Indexes(linkOf, keys, nodes) && key in linkOf
    ensures i < |keys| == |nodes| && keys[i] == key && nodes[i] == linkOf[key]
  {
    i :| 0 <= i < |keys| && keys[i] == key;
  }

  lemma DropKeepsIndex(linkOf: map<Key, Link>, keys: seq<Key>, nodes: seq<Link>, i: nat, keys': seq<Key>,
                       nodes': seq<Link>)
    requires Indexes(linkOf, keys, nodes) && Distinct(nodes) && i < |keys|
    requires keys' == Without(keys, i) && nodes' == Without(nodes, i)
    ensures Indexes(linkOf - {keys[i]}, keys', nodes')
  {
    KeysDistinct(linkOf, keys, nodes);
    forall j | 0 <= j < |keys'|
      ensures nodes'[j].key == Some(keys'[j]) && keys'[j] in linkOf && keys'[j] != keys[i] &&
              linkOf[keys'[j]] == nodes'[j]
    {
      var o := if j < i then j else j + 1;
      assert keys'[j] == keys[o] && nodes'[j] == nodes[o];
    }
    WithoutMembers(keys, i);
  }

  lemma WithoutMembers<X>(s: seq<X>, i: nat)
    requires Distinct(s) && i < |s|
    ensures forall x :: x in Without(s, i) <==> x in s && x != s[i]
  {
    forall x | x in s && x != s[i]
      ensures x in Without(s, i)
    {
      var j :| 0 <= j < |s| && s[j] == x;
      assert Without(s, i)[if j < i then j else j - 1] == x;
    }
  }

  lemma AppendKeepsIndex(linkOf: map<Key, Link>, keys: seq<Key>, nodes: seq<Link>, key: Key, link: Link)
    requires Indexes(linkOf, keys, nodes) && Distinct(nodes) && key !in keys && link.key == Some(key)
    ensures Indexes(linkOf[key := link], keys + [key], nodes + [link])
  {
  }

  /** The list half: links and the map that finds them. */
  class KeyList {
    const root: Link
    var linkOf: map<Key, Link>
    /** The links in list order and their keys. */
    ghost var nodes: seq<Link>
    ghost var keys: seq<Key>

    ghost predicate Valid()
      reads this, root, nodes
    {
      Circle(root, nodes) && Indexes(linkOf, keys, nodes)
    }

    constructor ()
      ensures Valid() && fresh(root) && nodes == [] && keys == []
    {
      root := new Link(None);
      linkOf, nodes, keys := map[], [], [];
    }

    lemma EmptyWhenUnindexed()
      requires Valid()
      ensures keys == [] <==> linkOf.Keys == {}
    {
      KeysDistinct(linkOf, keys, nodes);
      if keys != [] {
        assert keys[0] in keys;
      }
      if k :| k in linkOf.Keys {
        assert k in keys;
      }
    }

    method Append(key: Key)
      requires Valid() && key !in linkOf
      modifies this, root, nodes
      ensures Valid() && keys == old(keys) + [key]
      ensures linkOf.Keys == old(linkOf.Keys) + {key}
      ensures forall j | 0 <= j < |nodes| :: nodes[j] in old(nodes) || fresh(nodes[j])
    {
      var link := new Link(Some(key));
      KeysDistinct(linkOf, keys, nodes);
      AppendKeepsIndex(linkOf, keys, nodes, key, link);
      AppendLink(root, link, nodes);
      label appended:
      linkOf, nodes, keys := linkOf[key := link], nodes + [link], keys + [key];
      assert Circle(root, nodes) == old@appended(Circle(root, nodes + [link]));
    }

    /** Drops the key of an already unlinked link from the map. */
    method Forget(key: Key, ghost keys': seq<Key>, ghost rest: seq<Link>)
      requires Circle(root, rest) && Indexes(linkOf - {key}, keys', rest)
      modifies this
      ensures Valid() && keys == keys' && nodes == rest && linkOf == old(linkOf) - {key}
    {
      linkOf, nodes, keys := linkOf - {key}, rest, keys';
      assert Circle(root, rest) == old(Circle(root, rest));
    }

    method Remove(key: Key) returns (ghost i: nat)
      requires Valid() && key in linkOf
      modifies this, root, nodes
      ensures i < |old(keys)| && old(keys)[i] == key && keys == Without(old(keys), i)
      ensures Valid() && linkOf.Keys == old(linkOf.Keys) - {key}
      ensures forall j | 0 <= j < |nodes| :: nodes[j] in old(nodes)
    {
      i := PositionOf(linkOf, keys, nodes, key);
      ghost var rest, keys' := Without(nodes, i), Without(keys, i);
      DropKeepsIndex(linkOf, keys, nodes, i, keys', rest);
      RemoveLink(root, linkOf[key], nodes, i, rest);
      Forget(key, keys', rest);
    }

    method PopEnd(last: bool) returns (key: Key, ghost i: nat)
      requires Valid() && linkOf != map[]
      modifies this, root, nodes
      ensures old(keys) != [] && i == End(last, |old(keys)|) && key == old(keys)[i] && keys == Without(old(keys), i)
      ensures Valid() && key in old(linkOf) && linkOf.Keys == old(linkOf.Keys) - {key}
      ensures forall j | 0 <= j < |nodes| :: nodes[j] in old(nodes)
    {
      EmptyWhenUnindexed();
      i := End(last, |keys|);
      ghost var rest, keys' := Without(nodes, i), Without(keys, i);
      DropKeepsIndex(linkOf, keys, nodes, i, keys', rest);
      var link := PopLink(root, last, nodes, i, rest);
      key := link.key.value;
      Forget(key, keys', rest);
    }

    method Clear()
      modifies this, root
      ensures Valid() && keys == [] && linkOf == map[] && nodes == []
    {
      root.prev, root.next := root, root;
      linkOf, nodes, keys := map[], [], [];
    }

    /** Forward iteration lists the keys in order. */
    method Iterate() returns (out: seq<Key>)
      requires Valid()
      ensures out == keys
    {
      out := [];
      var curr := root.next;
      ghost var i: nat := 0;
      while curr != root
        invariant i <= |nodes| && curr == (if i == |nodes| then root else nodes[i])
        invariant out == keys[..i]
        decreases |nodes| - i
      {
        assert curr == nodes[i];
        out := out + [curr.key.value];
        curr := curr.next;
        i := i + 1;
      }
      assert i == |nodes|;
    }

    /** Backward iteration lists them in reverse. */
    method IterateReversed() returns (out: seq<Key>)
      requires Valid()
      ensures out == Reverse(keys)
    {
      out := [];
      var curr := root.prev;
      ghost var i: nat := |nodes|;
      while curr != root
        invariant i <= |nodes| && curr == (if i == 0 then root else nodes[i - 1])
        invariant |out| == |nodes| - i && forall j | 0 <= j < |out| :: out[j] == keys[|keys| - 1 - j]
        decreases i
      {
        assert curr == nodes[i - 1];
        out := out + [curr.key.value];
        curr := curr.prev;
        i := i - 1;
      }
      assert i == 0;
    }
  }

  /** The ordered dictionary: the list beside the inherited dictionary. */
  class OrderedDict<V> {
    const list: KeyList
    var dict: map<Key, V>

    ghost predicate Valid()
      reads this, list, list.root, list.nodes
    {
      list.Valid() && dict.Keys == list.linkOf.Keys
    }

    constructor ()
      ensures Valid() && fresh(list) && fresh(list.root) && list.nodes == []
      ensures list.keys == [] && dict == map[]
    {
      list := new KeyList();
      dict := map[];
    }

    /** A new key goes to the end of the order; an old one keeps its place. */
    method SetItem(key: Key, value: V)
      requires Valid()
      modifies this, list, list.root, list.nodes
      ensures forall j | 0 <= j < |list.nodes| :: list.nodes[j] in old(list.nodes) || fresh(list.nodes[j])
      ensures Valid()
      ensures list.keys == if key in old(dict) then old(list.keys) else old(list.keys) + [key]
      ensures dict == old(dict)[key := value]
    {
      if key !in dict {
        list.Append(key);
      }
      Store(key, value);
    }

    /** dict.__setitem__ once the list knows the key. */
    method Store(key: Key, value: V)
      requires list.Valid() && list.linkOf.Keys == dict.Keys + {key}
      modifies this`dict
      ensures Valid() && dict == old(dict)[key := value]
    {
      dict := dict[key := value];
      assert list.Valid() == old(list.Valid());
    }

    /** dict.pop once the list has forgotten the key. */
    method Take(key: Key) returns (value: V)
      requires list.Valid() && key in dict && list.linkOf.Keys == dict.Keys - {key}
      modifies this`dict
      ensures Valid() && value == old(dict)[key] && dict == old(dict) - {key}
    {
      value := dict[key];
      dict := dict - {key};
      assert list.Valid() == old(list.Valid());
    }

    /** Deletes a key wherever it is; false is a KeyError. */
    method DelItem(key: Key) returns (ok: bool, ghost i: nat)
      requires Valid()
      modifies this, list, list.root, list.nodes
      ensures forall j | 0 <= j < |list.nodes| :: list.nodes[j] in old(list.nodes) || fresh(list.nodes[j])
      ensures Valid() && ok == (key in old(dict))
      ensures !ok ==> list.keys == old(list.keys) && dict == old(dict)
      ensures ok ==> i < |old(list.keys)| && old(list.keys)[i] == key && list.keys == Without(old(list.keys), i)
      ensures ok ==> dict == old(dict) - {key}
    {
      i := 0;
      ok := key in dict;
      if ok {
        dict := dict - {key};
        i := list.Remove(key);
      }
    }

    /** Removes the newest or the oldest pair; None is a KeyError on the empty dictionary. */
    method PopItem(last: bool) returns (r: Option<(Key, V)>, ghost i: nat)
      requires Valid()
      modifies this, list, list.root, list.nodes
      ensures forall j | 0 <= j < |list.nodes| :: list.nodes[j] in old(list.nodes) || fresh(list.nodes[j])
      ensures Valid() && (r.None? <==> old(list.keys) == [])
      ensures r.None? ==> dict == old(dict) && list.keys == old(list.keys)
      ensures r.Some? ==>
              i == End(last, |old(list.keys)|) && r.value.0 == old(list.keys)[i] &&
              list.keys == Without(old(list.keys), i)
      ensures r.Some? ==> r.value.0 in old(dict) && r.value.1 == old(dict)[r.value.0] && dict == old(dict) - {r.value.0}
    {
      i := 0;
      list.EmptyWhenUnindexed();
      if |dict| == 0 {
        return None, i;
      }
      r, i := PopPair(last);
    }

    method PopPair(last: bool) returns (r: Option<(Key, V)>, ghost i: nat)
      requires Valid() && dict != map[] && list.linkOf != map[]
      modifies this, list, list.root, list.nodes
      ensures forall j | 0 <= j < |list.nodes| :: list.nodes[j] in old(list.nodes)
      ensures Valid() && r.Some? && old(list.keys) != []
      ensures i == End(last, |old(list.keys)|) && r.value.0 == old(list.keys)[i] &&
              list.keys == Without(old(list.keys), i)
      ensures r.value.0 in old(dict) && r.value.1 == old(dict)[r.value.0] && dict == old(dict) - {r.value.0}
    {
      var key;
      key, i := list.PopEnd(last);
      var value := Take(key);
      r := Some((key, value));
    }

    method Clear()
      modifies this, list, list.root
      ensures Valid() && list.keys == [] && dict == map[] && list.nodes == []
    {
      list.Clear();
      dict := map[];
    }
  }

  // ----- every run -----

  /** What the dictionary stands for: keys in insertion order, and their values. */
  datatype Contents<V> = Contents(keys: seq<Key>, dict: map<Key, V>)

  datatype Op<V> = Set(key: Key, value: V) | Delete(key: Key) | Pop(last: bool) | ClearAll

  function IndexOf(keys: seq<Key>, key: Key): (i: nat)
    ensures i <= |keys| && (i < |keys| ==> keys[i] == key) && forall j | 0 <= j < i :: keys[j] != key
  {
    if keys == [] || keys[0] == key then 0 else 1 + IndexOf(keys[1..], key)
  }

  /** The plain meaning of an operation; deleting or popping what is not there changes nothing. */
  function Step<V>(c: Contents<V>, op: Op<V>): Contents<V> {
    match op
    case Set(key, value) => Contents(if key in c.dict then c.keys else c.keys + [key], c.dict[key := value])
    case Delete(key) =>
      var i := IndexOf(c.keys, key);
      if i < |c.keys| then Contents(Without(c.keys, i), c.dict - {key}) else c
    case Pop(last) =>
      if c.keys == [] then c
      else
        var i := End(last, |c.keys|);
        Contents(Without(c.keys, i), c.dict - {c.keys[i]})
    case ClearAll => Contents([], map[])
  }

  function Run<V>(c: Contents<V>, ops: seq<Op<V>>): Contents<V>
    decreases |ops|
  {
    if ops == [] then c else Run(Step(c, ops[0]), ops[1..])
  }

  lemma IndexOfDistinct(keys: seq<Key>, i: nat)
    requires Distinct(keys) && i < |keys|
    ensures IndexOf(keys, keys[i]) == i
  {
  }

  /** The order repeats no key and holds exactly the dictionary's. */
  ghost predicate Consistent<V>(c: Contents<V>) {
    Distinct(c.keys) && forall k :: k in c.keys <==> k in c.dict
  }

  lemma {:induction false} RunIsConsistent<V>(c: Contents<V>, ops: seq<Op<V>>)
    requires Consistent(c)
    ensures Consistent(Run(c, ops))
    decreases |ops|
  {
    if ops != [] {
      StepIsConsistent(c, ops[0]);
      RunIsConsistent(Step(c, ops[0]), ops[1..]);
    }
  }

  lemma StepIsConsistent<V>(c: Contents<V>, op: Op<V>)
    requires Consistent(c)
    ensures Consistent(Step(c, op))
  {
    match op {
      case Delete(key) =>
        var i := IndexOf(c.keys, key);
        if i < |c.keys| {
          WithoutMembers(c.keys, i);
        }
      case Pop(last) =>
        if c.keys != [] {
          WithoutMembers(c.keys, End(last, |c.keys|));
        }
      case _ =>
    }
  }

  /** Any sequence of operations ends where its plain meaning does. */
  method Replay<V>(d: OrderedDict<V>, ops: seq<Op<V>>)
    requires d.Valid()
    modifies d, d.list, d.list.root, d.list.nodes
    ensures d.Valid() && Contents(d.list.keys, d.dict) == Run(old(Contents(d.list.keys, d.dict)), ops)
    ensures forall j | 0 <= j < |d.list.nodes| :: d.list.nodes[j] in old(d.list.nodes) || fresh(d.list.nodes[j])
    decreases |ops|
  {
    if ops != [] {
      ApplyOp(d, ops[0]);
      Replay(d, ops[1..]);
    }
  }

  method ApplyOp<V>(d: OrderedDict<V>, op: Op<V>)
    requires d.Valid()
    modifies d, d.list, d.list.root, d.list.nodes
    ensures d.Valid() && Contents(d.list.keys, d.dict) == Step(old(Contents(d.list.keys, d.dict)), op)
    ensures forall j | 0 <= j < |d.list.nodes| :: d.list.nodes[j] in old(d.list.nodes) || fresh(d.list.nodes[j])
  {
    match op {
      case Set(key, value) => d.SetItem(key, value);
      case Delete(key) => ApplyDelete(d, key);
      case Pop(last) =>
        var r;
        ghost var i;
        r, i := d.PopItem(last);
      case ClearAll => d.Clear();
    }
  }

  method ApplyDelete<V>(d: OrderedDict<V>, key: Key)
    requires d.Valid()
    modifies d, d.list, d.list.root, d.list.nodes
    ensures d.Valid() && Contents(d.list.keys, d.dict) == Step(old(Contents(d.list.keys, d.dict)), Delete(key))
    ensures forall j | 0 <= j < |d.list.nodes| :: d.list.nodes[j] in old(d.list.nodes) || fresh(d.list.nodes[j])
  {
    OrderIsDuplicateFree(d);
    ghost var keys := d.list.keys;
    var ok;
    ghost var i;
    ok, i := d.DelItem(key);
    if ok {
      IndexOfDistinct(keys, i);
    }
  }

  /** Keys never repeat, and they are exactly the dictionary's. */
  lemma OrderIsDuplicateFree<V>(d: OrderedDict<V>)
    requires d.Valid()
    ensures Distinct(d.list.keys) && forall k :: k in d.list.keys <==> k in d.dict
  {
    KeysDistinct(d.list.linkOf, d.list.keys, d.list.nodes);
  }
}

/**
 The backtracking parser engine: a loop over an explicit stack of suspended iterators that
 enumerates the matches of a sequence or repetition.
 Input is complete (end of file known) and whitespace skipping is off.
 */
module Backtracking {
  /** One success of a subgrammar: characters consumed and the result object. */
  datatype Succ<T> = Succ(offset: nat, obj: T)

  /** A match of the whole: where it ends and the objects of its elements. */
  datatype Match<T> = Match(end: nat, objs: seq<T>)

  /**
   A sequence or repetition: sub(k, pos) lists the successes of element k at pos, in the
   order its generator yields them.
   */
  datatype Grammar<!T> = Grammar(min: nat, max: nat, greedy: bool, sub: (nat, nat) -> seq<Succ<T>>)

  // ----- the list of successes -----

  /** The match that ends here, if objs are enough, followed by tail. */
  function Own<T>(g: Grammar<T>, pos: nat, objs: seq<T>, tail: seq<Match<T>>): seq<Match<T>> {
    if |objs| >= g.min then [Match(pos, objs)] + tail else tail
  }

  /**
   The matches that extend objs, which ends at pos, followed by tail. A greedy grammar lists
   a match after the longer ones it is part of, a non-greedy grammar before them.
   */
  function Enum<T>(g: Grammar<T>, pos: nat, objs: seq<T>, tail: seq<Match<T>>): seq<Match<T>>
    requires |objs| <= g.max
    decreases g.max - |objs|
  {
    if |objs| == g.max then Own(g, pos, objs, tail)
    else if g.greedy then Branches(g, pos, objs, g.sub(|objs|, pos), Own(g, pos, objs, tail))
    else Own(g, pos, objs, Branches(g, pos, objs, g.sub(|objs|, pos), tail))
  }

  /** The matches that extend objs by one of the given successes, followed by tail. */
  function Branches<T>(g: Grammar<T>, pos: nat, objs: seq<T>, alternatives: seq<Succ<T>>,
                       tail: seq<Match<T>>): seq<Match<T>>
    requires |objs| < g.max
    decreases g.max - |objs|, |alternatives|
  {
    if alternatives == [] then tail
    else
      Enum(g, pos + alternatives[0].offset, objs + [alternatives[0].obj],
           Branches(g, pos, objs, alternatives[1..], tail))
  }

  // ----- what the stack still owes -----

  /**
   The suspended iterators with their start positions. The engine's object list grows and
   shrinks together with its state list, so a frame also holds the objects before it.
   */
  datatype Stack<T> = Bottom | Frame(pos: nat, rest: seq<Succ<T>>, before: seq<T>, below: Stack<T>)

  predicate Fits<T>(g: Grammar<T>, stack: Stack<T>, n: nat) {
    match stack
    case Bottom => n == 0
    case Frame(_, _, before, below) => n <= g.max && n == |before| + 1 && Fits(g, below, |before|)
  }

  /** What backing up from objs yields at once. */
  function Due<T>(g: Grammar<T>, pos: nat, objs: seq<T>, tail: seq<Match<T>>): seq<Match<T>> {
    if g.greedy then Own(g, pos, objs, tail) else tail
  }

  /** The matches still to come once the current one has been dealt with. */
  function Rest<T>(g: Grammar<T>, stack: Stack<T>, n: nat): seq<Match<T>>
    requires Fits(g, stack, n)
  {
    match stack
    case Bottom => []
    case Frame(pos, rest, before, below) =>
      Branches(g, pos, before, rest, Due(g, pos, before, Rest(g, below, |before|)))
  }

  // ----- termination measure: the nodes of the search tree not yet visited -----

  function Nodes<T>(g: Grammar<T>, pos: nat, n: nat): nat
    requires n <= g.max
    decreases g.max - n
  {
    if n == g.max then 1 else 1 + BranchNodes(g, pos, n, g.sub(n, pos))
  }

  function BranchNodes<T>(g: Grammar<T>, pos: nat, n: nat, alternatives: seq<Succ<T>>): nat
    requires n < g.max
    decreases g.max - n, |alternatives|
  {
    if alternatives == [] then 0
    else Nodes(g, pos + alternatives[0].offset, n + 1) + BranchNodes(g, pos, n, alternatives[1..])
  }

  function RestNodes<T>(g: Grammar<T>, stack: Stack<T>, n: nat): nat
    requires Fits(g, stack, n)
  {
    match stack
    case Bottom => 0
    case Frame(pos, rest, before, below) => BranchNodes(g, pos, |before|, rest) + RestNodes(g, below, |before|)
  }

  // ----- the engine -----

  lemma AppendOne<X>(out: seq<X>, x: X, tail: seq<X>)
    ensures out + [x] + tail == out + ([x] + tail)
  {
  }

  /** Goes forward until an element fails or the maximum is reached. */
  method Forward<T>(g: Grammar<T>, objs0: seq<T>, stack0: Stack<T>, pos0: nat, out0: seq<Match<T>>,
                    ghost total: seq<Match<T>>)
    returns (objs: seq<T>, stack: Stack<T>, pos: nat, out: seq<Match<T>>)
    requires Fits(g, stack0, |objs0|) && |objs0| <= g.max
    requires out0 + Enum(g, pos0, objs0, Rest(g, stack0, |objs0|)) == total
    ensures Fits(g, stack, |objs|) && |objs| <= g.max
    ensures out + Due(g, pos, objs, Rest(g, stack, |objs|)) == total
    ensures RestNodes(g, stack, |objs|) < Nodes(g, pos0, |objs0|) + RestNodes(g, stack0, |objs0|)
  {
    objs, stack, pos, out := objs0, stack0, pos0, out0;
    ghost var left := Nodes(g, pos, |objs|) + RestNodes(g, stack, |objs|);
    while true
      invariant Fits(g, stack, |objs|) && |objs| <= g.max
      invariant out + Enum(g, pos, objs, Rest(g, stack, |objs|)) == total
      invariant left == Nodes(g, pos, |objs|) + RestNodes(g, stack, |objs|)
      invariant left <= Nodes(g, pos0, |objs0|) + RestNodes(g, stack0, |objs0|)
      decreases left
    {
      ghost var rest := Rest(g, stack, |objs|);
      if !g.greedy && |objs| >= g.min {
        ghost var longer := if |objs| == g.max then rest else Branches(g, pos, objs, g.sub(|objs|, pos), rest);
        AppendOne(out, Match(pos, objs), longer);
        out := out + [Match(pos, objs)];
      }
      if |objs| >= g.max {
        break;
      }
      var s := g.sub(|objs|, pos);
      assert out + Branches(g, pos, objs, s, Due(g, pos, objs, rest)) == total;
      if s == [] {
        break;
      }
      stack, objs, pos := Frame(pos, s[1..], objs, stack), objs + [s[0].obj], pos + s[0].offset;
      left := Nodes(g, pos, |objs|) + RestNodes(g, stack, |objs|);
    }
  }

  /** Backs up to the next untried success and takes it, yielding greedy matches on the way. */
  method Backtrack<T>(g: Grammar<T>, objs0: seq<T>, stack0: Stack<T>, pos0: nat, out0: seq<Match<T>>,
                      ghost total: seq<Match<T>>)
    returns (objs: seq<T>, stack: Stack<T>, pos: nat, out: seq<Match<T>>)
    requires Fits(g, stack0, |objs0|) && |objs0| <= g.max
    requires out0 + Due(g, pos0, objs0, Rest(g, stack0, |objs0|)) == total
    ensures Fits(g, stack, |objs|) && |objs| <= g.max
    ensures stack.Bottom? ==> out == total
    ensures stack.Frame? ==>
              && out + Enum(g, pos, objs, Rest(g, stack, |objs|)) == total
              && Nodes(g, pos, |objs|) + RestNodes(g, stack, |objs|) == RestNodes(g, stack0, |objs0|)
  {
    objs, stack, pos, out := objs0, stack0, pos0, out0;
    while true
      invariant Fits(g, stack, |objs|) && |objs| <= g.max
      invariant out + Due(g, pos, objs, Rest(g, stack, |objs|)) == total
      invariant RestNodes(g, stack, |objs|) == RestNodes(g, stack0, |objs0|)
      decreases stack
    {
      if g.greedy && |objs| >= g.min {
        AppendOne(out, Match(pos, objs), Rest(g, stack, |objs|));
        out := out + [Match(pos, objs)];
      }
      if stack.Bottom? {
        break;
      }
      var Frame(start, rest, before, below) := stack;
      if rest == [] {
        stack, objs, pos := below, before, start;
      } else {
        stack, objs, pos := Frame(start, rest[1..], before, below), before + [rest[0].obj], start + rest[0].offset;
        break;
      }
    }
  }

  /** The whole generator, run to exhaustion: it terminates and yields the list of successes. */
  method GrammarParse<T>(g: Grammar<T>, index: nat) returns (out: seq<Match<T>>)
    ensures out == Enum(g, index, [], [])
  {
    ghost var total := Enum(g, index, [], []);
    var objs: seq<T> := [];
    var stack: Stack<T> := Bottom;
    var pos := index;
    out := [];
    var done := false;
    ghost var left := Nodes(g, pos, 0);
    while !done
      invariant Fits(g, stack, |objs|) && |objs| <= g.max
      invariant done ==> out == total
      invariant !done ==> out + Enum(g, pos, objs, Rest(g, stack, |objs|)) == total
      invariant !done ==> left == Nodes(g, pos, |objs|) + RestNodes(g, stack, |objs|)
      decreases !done, left
    {
      objs, stack, pos, out := Forward(g, objs, stack, pos, out, total);
      objs, stack, pos, out := Backtrack(g, objs, stack, pos, out, total);
      done := stack.Bottom?;
      left := if done then left else Nodes(g, pos, |objs|) + RestNodes(g, stack, |objs|);
    }
  }

  // ----- the list of successes, by choices -----

  /** A choice sequence picks, element by element, one success of each. */
  predicate ValidPath<T>(g: Grammar<T>, pos: nat, n: nat, path: seq<nat>)
    decreases |path|
  {
    path == [] ||
    (n < g.max && path[0] < |g.sub(n, pos)| && ValidPath(g, pos + g.sub(n, pos)[path[0]].offset, n + 1, path[1..]))
  }

  /** The match a choice sequence leads to. */
  function Follow<T>(g: Grammar<T>, pos: nat, objs: seq<T>, path: seq<nat>): Match<T>
    requires ValidPath(g, pos, |objs|, path)
    decreases |path|
  {
    if path == [] then Match(pos, objs)
    else
      var c := g.sub(|objs|, pos)[path[0]];
      Follow(g, pos + c.offset, objs + [c.obj], path[1..])
  }

  /** Valid and of an accepted length. */
  predicate Accepted<T>(g: Grammar<T>, pos: nat, n: nat, path: seq<nat>) {
    ValidPath(g, pos, n, path) && g.min <= n + |path| <= g.max
  }

  /** The listing order: by first differing choice; a prefix comes last when greedy, else first. */
  predicate Before(greedy: bool, p: seq<nat>, q: seq<nat>)
    decreases |p|
  {
    if p == [] then !greedy && q != []
    else if q == [] then greedy
    else p[0] < q[0] || (p[0] == q[0] && Before(greedy, p[1..], q[1..]))
  }

  /** All accepted paths from a node, in listing order. */
  function Paths<T>(g: Grammar<T>, pos: nat, n: nat): seq<seq<nat>>
    requires n <= g.max
    decreases g.max - n
  {
    var own := if n >= g.min then [[]] else [];
    if n == g.max then own
    else if g.greedy then BranchPaths(g, pos, n, 0) + own
    else own + BranchPaths(g, pos, n, 0)
  }

  /** Those whose first choice is at least i. */
  function BranchPaths<T>(g: Grammar<T>, pos: nat, n: nat, i: nat): seq<seq<nat>>
    requires n < g.max && i <= |g.sub(n, pos)|
    decreases g.max - n, |g.sub(n, pos)| - i
  {
    if i == |g.sub(n, pos)| then []
    else PrependAll(i, Paths(g, pos + g.sub(n, pos)[i].offset, n + 1)) + BranchPaths(g, pos, n, i + 1)
  }

  function PrependAll(i: nat, ps: seq<seq<nat>>): (r: seq<seq<nat>>)
    ensures |r| == |ps| && forall k | 0 <= k < |ps| :: r[k] == [i] + ps[k]
  {
    seq(|ps|, k requires 0 <= k < |ps| => [i] + ps[k])
  }

  lemma PrependMembers(i: nat, ps: seq<seq<nat>>, q: seq<nat>)
    ensures q in PrependAll(i, ps) <==> q != [] && q[0] == i && q[1..] in ps
  {
    if q in PrependAll(i, ps) {
      var k :| 0 <= k < |ps| && PrependAll(i, ps)[k] == q;
      assert q[1..] == ps[k];
    }
    if q != [] && q[0] == i && q[1..] in ps {
      var k :| 0 <= k < |ps| && ps[k] == q[1..];
      assert PrependAll(i, ps)[k] == q;
    }
  }

  /** Every accepted path is listed and nothing else is. */
  lemma {:induction false} PathsAreAccepted<T>(g: Grammar<T>, pos: nat, n: nat, path: seq<nat>)
    requires n <= g.max
    ensures path in Paths(g, pos, n) <==> Accepted(g, pos, n, path)
    decreases g.max - n, 1, 0
  {
    if n < g.max {
      BranchPathsAreAccepted(g, pos, n, 0, path);
    }
  }

  lemma {:induction false} BranchPathsAreAccepted<T>(g: Grammar<T>, pos: nat, n: nat, i: nat, path: seq<nat>)
    requires n < g.max && i <= |g.sub(n, pos)|
    ensures path in BranchPaths(g, pos, n, i) <==> path != [] && path[0] >= i && Accepted(g, pos, n, path)
    decreases g.max - n, 0, |g.sub(n, pos)| - i
  {
    if i < |g.sub(n, pos)| {
      var next := pos + g.sub(n, pos)[i].offset;
      BranchPathsAreAccepted(g, pos, n, i + 1, path);
      PrependMembers(i, Paths(g, next, n + 1), path);
      if path != [] && path[0] == i {
        PathsAreAccepted(g, next, n + 1, path[1..]);
      }
    }
  }

  lemma BranchMembers<T>(g: Grammar<T>, pos: nat, n: nat, i: nat, paths: seq<seq<nat>>)
    requires n < g.max && i <= |g.sub(n, pos)| && paths == BranchPaths(g, pos, n, i)
    ensures forall p <- paths :: p != [] && p[0] >= i && ValidPath(g, pos, n, p)
  {
    forall p <- paths
      ensures p != [] && p[0] >= i && ValidPath(g, pos, n, p)
    {
      BranchPathsAreAccepted(g, pos, n, i, p);
    }
  }

  predicate Ordered(greedy: bool, ps: seq<seq<nat>>) {
    forall a, b | 0 <= a < b < |ps| :: Before(greedy, ps[a], ps[b])
  }

  /** The listing is strictly ordered, so no path is listed twice. */
  lemma {:induction false} PathsAreOrdered<T>(g: Grammar<T>, pos: nat, n: nat)
    requires n <= g.max
    ensures Ordered(g.greedy, Paths(g, pos, n))
    decreases g.max - n, 1, 0
  {
    if n < g.max {
      var longer := BranchPaths(g, pos, n, 0);
      var own: seq<seq<nat>> := if n >= g.min then [[]] else [];
      BranchPathsAreOrdered(g, pos, n, 0);
      BranchMembers(g, pos, n, 0, longer);
      if g.greedy {
        ConcatKeepsOrder(g.greedy, longer, own);
      } else {
        ConcatKeepsOrder(g.greedy, own, longer);
      }
    }
  }

  lemma {:induction false} BranchPathsAreOrdered<T>(g: Grammar<T>, pos: nat, n: nat, i: nat)
    requires n < g.max && i <= |g.sub(n, pos)|
    ensures Ordered(g.greedy, BranchPaths(g, pos, n, i))
    decreases g.max - n, 0, |g.sub(n, pos)| - i
  {
    if i < |g.sub(n, pos)| {
      var ps := Paths(g, pos + g.sub(n, pos)[i].offset, n + 1);
      var later := BranchPaths(g, pos, n, i + 1);
      BranchPathsAreOrdered(g, pos, n, i + 1);
      PathsAreOrdered(g, pos + g.sub(n, pos)[i].offset, n + 1);
      BranchMembers(g, pos, n, i + 1, later);
      BranchKeepsOrder(g.greedy, i, ps, later);
    }
  }

  lemma BranchKeepsOrder(greedy: bool, i: nat, ps: seq<seq<nat>>, later: seq<seq<nat>>)
    requires Ordered(greedy, ps) && Ordered(greedy, later)
    requires forall p <- later :: p != [] && p[0] > i
    ensures Ordered(greedy, PrependAll(i, ps) + later)
  {
    PrependKeepsOrder(greedy, i, ps);
    forall p, q | p in PrependAll(i, ps) && q in later
      ensures Before(greedy, p, q)
    {
      PrependMembers(i, ps, p);
    }
    ConcatKeepsOrder(greedy, PrependAll(i, ps), later);
  }

  lemma PrependKeepsOrder(greedy: bool, i: nat, ps: seq<seq<nat>>)
    requires Ordered(greedy, ps)
    ensures Ordered(greedy, PrependAll(i, ps))
  {
    var r := PrependAll(i, ps);
    forall a, b | 0 <= a < b < |r|
      ensures Before(greedy, r[a], r[b])
    {
      assert Before(greedy, ps[a], ps[b]);
      assert r[a][1..] == ps[a] && r[b][1..] == ps[b];
    }
  }

  lemma ConcatKeepsOrder(greedy: bool, here: seq<seq<nat>>, later: seq<seq<nat>>)
    requires Ordered(greedy, here) && Ordered(greedy, later)
    requires forall p, q | p in here && q in later :: Before(greedy, p, q)
    ensures Ordered(greedy, here + later)
  {
    var all := here + later;
    forall a, b | 0 <= a < b < |all|
      ensures Before(greedy, all[a], all[b])
    {
      if b < |here| {
        assert Before(greedy, here[a], here[b]);
      } else if a >= |here| {
        assert Before(greedy, later[a - |here|], later[b - |here|]);
      } else {
        assert here[a] in here && later[b - |here|] in later;
      }
    }
  }

  lemma {:induction false} BeforeIsIrreflexive(greedy: bool, p: seq<nat>)
    ensures !Before(greedy, p, p)
    decreases |p|
  {
    if p != [] {
      BeforeIsIrreflexive(greedy, p[1..]);
    }
  }

  /** No two accepted choice sequences of the listing are the same. */
  lemma PathsAreDistinct<T>(g: Grammar<T>, pos: nat, n: nat)
    requires n <= g.max
    ensures var ps := Paths(g, pos, n); forall a, b | 0 <= a < b < |ps| :: ps[a] != ps[b]
  {
    var ps := Paths(g, pos, n);
    PathsAreOrdered(g, pos, n);
    forall a, b | 0 <= a < b < |ps|
      ensures ps[a] != ps[b]
    {
      BeforeIsIrreflexive(g.greedy, ps[a]);
    }
  }

  /** The matches of a list of paths, followed by tail. */
  function FollowAll<T>(g: Grammar<T>, pos: nat, objs: seq<T>, ps: seq<seq<nat>>, tail: seq<Match<T>>): seq<Match<T>>
    requires forall p <- ps :: ValidPath(g, pos, |objs|, p)
  {
    if ps == [] then tail else [Follow(g, pos, objs, ps[0])] + FollowAll(g, pos, objs, ps[1..], tail)
  }

  lemma {:induction false} FollowConcat<T>(g: Grammar<T>, pos: nat, objs: seq<T>, a: seq<seq<nat>>, b: seq<seq<nat>>,
                                           tail: seq<Match<T>>)
    requires forall p <- a + b :: ValidPath(g, pos, |objs|, p)
    ensures (forall p <- a :: p in a + b) && (forall p <- b :: p in a + b)
    ensures FollowAll(g, pos, objs, a + b, tail) == FollowAll(g, pos, objs, a, FollowAll(g, pos, objs, b, tail))
  {
    assert forall p <- a :: p in a + b;
    assert forall p <- b :: p in a + b;
    if a == [] {
      assert a + b == b;
    } else {
      assert (a + b)[1..] == a[1..] + b;
      FollowConcat(g, pos, objs, a[1..], b, tail);
    }
  }

  /** Following i and then each path is following the paths from i's success. */
  lemma {:induction false} FollowPrepended<T>(g: Grammar<T>, pos: nat, objs: seq<T>, i: nat, ps: seq<seq<nat>>,
                                              tail: seq<Match<T>>)
    requires |objs| < g.max && i < |g.sub(|objs|, pos)|
    requires forall p <- PrependAll(i, ps) :: ValidPath(g, pos, |objs|, p)
    requires forall p <- ps :: ValidPath(g, pos + g.sub(|objs|, pos)[i].offset, |objs| + 1, p)
    ensures var c := g.sub(|objs|, pos)[i];
            FollowAll(g, pos, objs, PrependAll(i, ps), tail) == FollowAll(g, pos + c.offset, objs + [c.obj], ps, tail)
  {
    if ps != [] {
      assert PrependAll(i, ps)[1..] == PrependAll(i, ps[1..]);
      assert PrependAll(i, ps)[0][1..] == ps[0];
      assert forall p <- ps[1..] :: p in ps;
      FollowPrepended(g, pos, objs, i, ps[1..], tail);
    }
  }

  /** The engine's list is the list of all accepted choice sequences. */
  lemma {:induction false} EnumFollowsPaths<T>(g: Grammar<T>, pos: nat, objs: seq<T>, tail: seq<Match<T>>)
    requires |objs| <= g.max
    ensures forall p <- Paths(g, pos, |objs|) :: ValidPath(g, pos, |objs|, p)
    ensures Enum(g, pos, objs, tail) == FollowAll(g, pos, objs, Paths(g, pos, |objs|), tail)
    decreases g.max - |objs|, 1, 0
  {
    var n := |objs|;
    forall p <- Paths(g, pos, n)
      ensures ValidPath(g, pos, n, p)
    {
      PathsAreAccepted(g, pos, n, p);
    }
    var own: seq<seq<nat>> := if n >= g.min then [[]] else [];
    OwnFollows(g, pos, objs, own, tail);
    if n < g.max {
      var longer := BranchPaths(g, pos, n, 0);
      assert g.sub(n, pos)[0..] == g.sub(n, pos);
      if g.greedy {
        FollowConcat(g, pos, objs, longer, own, tail);
        BranchesFollowPaths(g, pos, objs, 0, Own(g, pos, objs, tail));
      } else {
        FollowConcat(g, pos, objs, own, longer, tail);
        BranchesFollowPaths(g, pos, objs, 0, tail);
        OwnFollows(g, pos, objs, own, FollowAll(g, pos, objs, longer, tail));
      }
    }
  }

  lemma OwnFollows<T>(g: Grammar<T>, pos: nat, objs: seq<T>, own: seq<seq<nat>>, tail: seq<Match<T>>)
    requires own == if |objs| >= g.min then [[]] else []
    ensures forall p <- own :: ValidPath(g, pos, |objs|, p)
    ensures FollowAll(g, pos, objs, own, tail) == Own(g, pos, objs, tail)
  {
    if own != [] {
      assert own[1..] == [];
    }
  }

  lemma {:induction false} BranchesFollowPaths<T>(g: Grammar<T>, pos: nat, objs: seq<T>, i: nat, tail: seq<Match<T>>)
    requires |objs| < g.max && i <= |g.sub(|objs|, pos)|
    ensures forall p <- BranchPaths(g, pos, |objs|, i) :: ValidPath(g, pos, |objs|, p)
    ensures Branches(g, pos, objs, g.sub(|objs|, pos)[i..], tail) ==
            FollowAll(g, pos, objs, BranchPaths(g, pos, |objs|, i), tail)
    decreases g.max - |objs|, 0, |g.sub(|objs|, pos)| - i
  {
    var n := |objs|;
    var all := BranchPaths(g, pos, n, i);
    BranchMembers(g, pos, n, i, all);
    if i < |g.sub(n, pos)| {
      var c := g.sub(n, pos)[i];
      var child, here := objs + [c.obj], pos + c.offset;
      var ps := Paths(g, here, |child|);
      var later := BranchPaths(g, pos, n, i + 1);
      BranchesFollowPaths(g, pos, objs, i + 1, tail);
      var rest := FollowAll(g, pos, objs, later, tail);
      assert all == PrependAll(i, ps) + later;
      OneBranch(g, pos, objs, i, tail, rest);
      EnumFollowsPaths(g, here, child, rest);
      assert Branches(g, pos, objs, g.sub(n, pos)[i..], tail) == FollowAll(g, here, child, ps, rest);
      FollowBranch(g, pos, objs, i, ps, later, tail);
    } else {
      assert g.sub(n, pos)[i..] == [];
    }
  }

  lemma OneBranch<T>(g: Grammar<T>, pos: nat, objs: seq<T>, i: nat, tail: seq<Match<T>>, rest: seq<Match<T>>)
    requires |objs| < g.max && i < |g.sub(|objs|, pos)|
    requires rest == Branches(g, pos, objs, g.sub(|objs|, pos)[i + 1..], tail)
    ensures var c := g.sub(|objs|, pos)[i];
            Branches(g, pos, objs, g.sub(|objs|, pos)[i..], tail) == Enum(g, pos + c.offset, objs + [c.obj], rest)
  {
    assert g.sub(|objs|, pos)[i..][1..] == g.sub(|objs|, pos)[i + 1..];
  }

  lemma FollowBranch<T>(g: Grammar<T>, pos: nat, objs: seq<T>, i: nat, ps: seq<seq<nat>>, later: seq<seq<nat>>,
                        tail: seq<Match<T>>)
    requires |objs| < g.max && i < |g.sub(|objs|, pos)|
    requires forall p <- PrependAll(i, ps) + later :: ValidPath(g, pos, |objs|, p)
    requires forall p <- later :: ValidPath(g, pos, |objs|, p)
    requires forall p <- ps :: ValidPath(g, pos + g.sub(|objs|, pos)[i].offset, |objs| + 1, p)
    ensures var c := g.sub(|objs|, pos)[i];
            FollowAll(g, pos, objs, PrependAll(i, ps) + later, tail)
            == FollowAll(g, pos + c.offset, objs + [c.obj], ps, FollowAll(g, pos, objs, later, tail))
  {
    FollowConcat(g, pos, objs, PrependAll(i, ps), later, tail);
    FollowPrepended(g, pos, objs, i, ps, FollowAll(g, pos, objs, later, tail));
  }
}

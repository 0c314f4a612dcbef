/**
 Grammar expressions over the backtracking engine: literals, words, alternatives, sequences
 and repetitions, nested to any depth. Every parse tree is found and nothing else is.
 */
module Grammars {
  import opened Decimal
  import opened Backtracking

  /** A grammar; a word's max of 0 and a repetition's largest max mean no bound. */
  datatype Expr =
    | Literal(s: string)
    | Word(start: set<char>, rest: set<char>, min: nat, max: nat, greedy: bool)
    | AnyChar
    | Empty
    | Or(alternatives: seq<Expr>)
    | Sequence(items: seq<Expr>, greedy: bool)
    | Repetition(item: Expr, min: nat, max: nat, greedy: bool)

  /** A result object: the text it covers and its elements. */
  datatype Tree = Leaf(begin: nat, end: nat) | Node(begin: nat, end: nat, children: seq<Tree>)

  // ----- what a parse tree is -----

  /** The trees cover the text from begin to end without gap or overlap. */
  predicate Adjacent(begin: nat, trees: seq<Tree>, end: nat)
    decreases |trees|
  {
    if trees == [] then begin == end
    else trees[0].begin == begin && Adjacent(trees[0].end, trees[1..], end)
  }

  /** Text that a word may cover: a start character and rest characters, no more than max. */
  predicate WordText(e: Expr, text: string, begin: nat, end: nat)
    requires e.Word?
  {
    begin <= end && e.min <= end - begin &&
    (end == begin ||
     (&& end <= |text| && text[begin] in e.start
      && (forall i | begin < i < end :: text[i] in e.rest)
      && (e.max == 0 || end - begin <= e.max)))
  }

  /** t is a parse tree of e. */
  predicate ParseTree(e: Expr, text: string, t: Tree)
    decreases e
  {
    match e
    case Literal(s) => t.Leaf? && t.end == t.begin + |s| && t.end <= |text| && text[t.begin..t.end] == s
    case Word(_, _, _, _, _) => t.Leaf? && WordText(e, text, t.begin, t.end)
    case AnyChar => t.Leaf? && t.begin < |text| && t.end == t.begin + 1
    case Empty => t.Leaf? && t.begin == t.end
    case Or(alternatives) => exists i | 0 <= i < |alternatives| :: ParseTree(alternatives[i], text, t)
    case Sequence(items, _) =>
      && t.Node? && |t.children| == |items| && Adjacent(t.begin, t.children, t.end)
      && forall k | 0 <= k < |items| :: ParseTree(items[k], text, t.children[k])
    case Repetition(item, min, max, _) =>
      && t.Node? && min <= |t.children| <= max && Adjacent(t.begin, t.children, t.end)
      && forall k | 0 <= k < |t.children| :: ParseTree(item, text, t.children[k])
  }

  // ----- the successes of a grammar, in order -----

  /** How far a word's pattern reaches; None when it does not match at all. */
  function WordReach(e: Expr, text: string, pos: nat): Option<nat>
    requires e.Word?
  {
    if pos < |text| && text[pos] in e.start then
      Some(1 + Run(e.rest, text, pos + 1, if e.max == 0 then |text| else e.max - 1))
    else if e.min < 1 then Some(0)
    else None
  }

  /** The length of the longest run of the given characters, at most limit. */
  function Run(chars: set<char>, text: string, pos: nat, limit: nat): (n: nat)
    ensures n <= limit && (pos + n <= |text| || n == 0)
    ensures forall i | pos <= i < pos + n :: i < |text| && text[i] in chars
    ensures n == limit || pos + n >= |text| || text[pos + n] !in chars
    decreases limit
  {
    if limit > 0 && pos < |text| && text[pos] in chars then 1 + Run(chars, text, pos + 1, limit - 1) else 0
  }

  /** Words of lengths lo to hi from pos, shortest first. */
  function Lengths(pos: nat, lo: nat, hi: nat): (r: seq<Succ<Tree>>)
    ensures |r| == if lo <= hi then hi + 1 - lo else 0
    ensures forall i | 0 <= i < |r| :: r[i] == Succ(lo + i, Leaf(pos, pos + (lo + i)))
  {
    seq(if lo <= hi then hi + 1 - lo else 0, i requires i >= 0 => Succ(lo + i, Leaf(pos, pos + (lo + i))))
  }

  function WordSuccesses(e: Expr, text: string, pos: nat): seq<Succ<Tree>>
    requires e.Word?
  {
    match WordReach(e, text, pos)
    case None => []
    case Some(reach) => if e.greedy then Reversed(Lengths(pos, e.min, reach)) else Lengths(pos, e.min, reach)
  }

  /** A greedy word offers its lengths from the longest down, any other from the shortest up. */
  lemma WordIsOrdered(e: Expr, text: string, pos: nat)
    requires e.Word?
    ensures forall i, j | 0 <= i < j < |WordSuccesses(e, text, pos)| ::
              var a, b := WordSuccesses(e, text, pos)[i].offset, WordSuccesses(e, text, pos)[j].offset;
              if e.greedy then a > b else a < b
  {
  }

  function Reversed<X>(s: seq<X>): (r: seq<X>)
    ensures |r| == |s| && forall i | 0 <= i < |s| :: r[i] == s[|s| - 1 - i]
  {
    seq(|s|, i requires 0 <= i < |s| => s[|s| - 1 - i])
  }

  function Successes(e: Expr, text: string, pos: nat): seq<Succ<Tree>>
    decreases e, 0
  {
    match e
    case Literal(s) =>
      if pos + |s| <= |text| && text[pos..pos + |s|] == s then [Succ(|s|, Leaf(pos, pos + |s|))] else []
    case Word(_, _, _, _, _) => WordSuccesses(e, text, pos)
    case AnyChar => if pos < |text| then [Succ(1, Leaf(pos, pos + 1))] else []
    case Empty => [Succ(0, Leaf(pos, pos))]
    case Or(alternatives) => OrSuccesses(alternatives, text, pos)
    case Sequence(items, greedy) => Wrap(pos, Enum(SequenceGrammar(items, greedy, text), pos, [], []))
    case Repetition(item, min, max, greedy) =>
      Wrap(pos, Enum(RepetitionGrammar(item, min, max, greedy, text), pos, [], []))
  }

  /** All successes of the first alternative, then those of the next. */
  function OrSuccesses(alternatives: seq<Expr>, text: string, pos: nat): seq<Succ<Tree>>
    decreases alternatives
  {
    if alternatives == [] then []
    else Successes(alternatives[0], text, pos) + OrSuccesses(alternatives[1..], text, pos)
  }

  /** The successes of an alternative come after those of the earlier ones and before those of the later. */
  lemma {:induction false} OrIsOrdered(alternatives: seq<Expr>, text: string, pos: nat, i: nat)
    requires i < |alternatives|
    ensures OrSuccesses(alternatives, text, pos) ==
            OrSuccesses(alternatives[..i], text, pos) + Successes(alternatives[i], text, pos)
            + OrSuccesses(alternatives[i + 1..], text, pos)
  {
    if i == 0 {
      assert alternatives[..0] == [];
    } else {
      OrIsOrdered(alternatives[1..], text, pos, i - 1);
      assert alternatives[..i][1..] == alternatives[1..][..i - 1];
      assert alternatives[1..][i..] == alternatives[i + 1..];
    }
  }

  function SequenceGrammar(items: seq<Expr>, greedy: bool, text: string): Grammar<Tree>
    decreases items
  {
    Grammar(|items|, |items|, greedy, (k: nat, p: nat) => if k < |items| then Successes(items[k], text, p) else [])
  }

  function RepetitionGrammar(item: Expr, min: nat, max: nat, greedy: bool, text: string): Grammar<Tree>
    decreases item, 1
  {
    Grammar(min, max, greedy, (k: nat, p: nat) => Successes(item, text, p))
  }

  /** The result object of a sequence or repetition. */
  function Wrapped(pos: nat, m: Match<Tree>): Succ<Tree> {
    Succ(if m.end >= pos then m.end - pos else 0, Node(pos, m.end, m.objs))
  }

  function Wrap(pos: nat, matches: seq<Match<Tree>>): (r: seq<Succ<Tree>>)
    ensures |r| == |matches| && forall i | 0 <= i < |r| :: r[i] == Wrapped(pos, matches[i])
  {
    seq(|matches|, i requires 0 <= i < |matches| => Wrapped(pos, matches[i]))
  }

  // ----- chains of successes -----

  /** objs are successes of elements n, n + 1, ..., one after the other from pos to end. */
  ghost predicate Chain<T>(g: Grammar<T>, pos: nat, n: nat, objs: seq<T>, end: nat)
    decreases |objs|
  {
    if objs == [] then pos == end
    else n < g.max && exists c <- g.sub(n, pos) :: c.obj == objs[0] && Chain(g, pos + c.offset, n + 1, objs[1..], end)
  }

  /** m extends objs, which ends at pos, to an accepted number of elements. */
  ghost predicate Extends<T>(g: Grammar<T>, pos: nat, objs: seq<T>, m: Match<T>) {
    && g.min <= |m.objs| <= g.max && objs <= m.objs
    && Chain(g, pos, |objs|, m.objs[|objs|..], m.end)
  }

  /** Either nothing more follows, or one of the next element's successes does. */
  lemma ExtendsSteps<T>(g: Grammar<T>, pos: nat, objs: seq<T>, m: Match<T>)
    requires |objs| <= g.max
    ensures Extends(g, pos, objs, m) <==>
            || (|objs| >= g.min && m == Match(pos, objs))
            || (|objs| < g.max && exists c <- g.sub(|objs|, pos) :: Extends(g, pos + c.offset, objs + [c.obj], m))
  {
    if Extends(g, pos, objs, m) {
      var later := m.objs[|objs|..];
      if later == [] {
        assert m.objs == objs;
      } else {
        var c :| c in g.sub(|objs|, pos) && c.obj == later[0] &&
                 Chain(g, pos + c.offset, |objs| + 1, later[1..], m.end);
        assert objs + [c.obj] <= m.objs && m.objs[|objs| + 1..] == later[1..];
        assert Extends(g, pos + c.offset, objs + [c.obj], m);
      }
    }
    if |objs| < g.max {
      forall c | c in g.sub(|objs|, pos) && Extends(g, pos + c.offset, objs + [c.obj], m)
        ensures Extends(g, pos, objs, m)
      {
        ExtendsBack(g, pos, objs, c, m);
      }
    }
    assert m == Match(pos, objs) ==> m.objs[|objs|..] == [];
  }

  lemma ExtendsBack<T>(g: Grammar<T>, pos: nat, objs: seq<T>, c: Succ<T>, m: Match<T>)
    requires |objs| < g.max && c in g.sub(|objs|, pos) && Extends(g, pos + c.offset, objs + [c.obj], m)
    ensures Extends(g, pos, objs, m)
  {
    var later := m.objs[|objs|..];
    assert (objs + [c.obj])[|objs|] == c.obj && later[0] == c.obj;
    assert later[1..] == m.objs[|objs| + 1..];
    assert objs <= objs + [c.obj] <= m.objs;
  }

  /** The engine's list holds exactly the chains of an accepted length. */
  lemma {:induction false} EnumMembers<T>(g: Grammar<T>, pos: nat, objs: seq<T>, tail: seq<Match<T>>, m: Match<T>)
    requires |objs| <= g.max
    ensures m in Enum(g, pos, objs, tail) <==> m in tail || Extends(g, pos, objs, m)
    decreases g.max - |objs|, 1, 0
  {
    ExtendsSteps(g, pos, objs, m);
    if |objs| < g.max {
      var alternatives := g.sub(|objs|, pos);
      BranchesMembers(g, pos, objs, alternatives, if g.greedy then Own(g, pos, objs, tail) else tail, m);
    }
  }

  lemma {:induction false} BranchesMembers<T>(g: Grammar<T>, pos: nat, objs: seq<T>, alternatives: seq<Succ<T>>,
                                              tail: seq<Match<T>>, m: Match<T>)
    requires |objs| < g.max
    ensures m in Branches(g, pos, objs, alternatives, tail) <==>
            m in tail || exists c <- alternatives :: Extends(g, pos + c.offset, objs + [c.obj], m)
    decreases g.max - |objs|, 0, |alternatives|
  {
    if alternatives != [] {
      var first, later := alternatives[0], alternatives[1..];
      assert alternatives == [first] + later;
      BranchesMembers(g, pos, objs, later, tail, m);
      EnumMembers(g, pos + first.offset, objs + [first.obj], Branches(g, pos, objs, later, tail), m);
    }
  }

  // ----- soundness and completeness -----

  /** Every success is the success of one parse tree from pos. */
  predicate Yields(s: Succ<Tree>, pos: nat) {
    s.obj.begin == pos && s.obj.end == pos + s.offset
  }

  /** Element k of a sequence parses as its expression. */
  predicate Element(e: Expr, k: nat, text: string, t: Tree)
    requires e.Sequence? || e.Repetition?
  {
    if e.Sequence? then k < |e.items| && ParseTree(e.items[k], text, t) else ParseTree(e.item, text, t)
  }

  function GrammarOf(e: Expr, text: string): Grammar<Tree>
    requires e.Sequence? || e.Repetition?
  {
    if e.Sequence? then SequenceGrammar(e.items, e.greedy, text)
    else RepetitionGrammar(e.item, e.min, e.max, e.greedy, text)
  }

  /** The theorem for the elements of e. */
  ghost predicate ElementsExact(e: Expr, text: string)
    requires e.Sequence? || e.Repetition?
  {
    forall k: nat, p: nat, s :: k < GrammarOf(e, text).max ==>
      (s in GrammarOf(e, text).sub(k, p) <==> Yields(s, p) && Element(e, k, text, s.obj))
  }

  predicate Elements(e: Expr, n: nat, text: string, trees: seq<Tree>)
    requires e.Sequence? || e.Repetition?
  {
    forall k | 0 <= k < |trees| :: Element(e, n + k, text, trees[k])
  }

  /** A chain of successes is a gapless row of parse trees. */
  lemma {:induction false} ChainIsAdjacent(e: Expr, text: string, pos: nat, n: nat, trees: seq<Tree>, end: nat)
    requires (e.Sequence? || e.Repetition?) && ElementsExact(e, text)
    requires n + |trees| <= GrammarOf(e, text).max
    ensures Chain(GrammarOf(e, text), pos, n, trees, end) <==> Adjacent(pos, trees, end) && Elements(e, n, text, trees)
    decreases |trees|
  {
    var g := GrammarOf(e, text);
    if trees != [] {
      ChainFirst(e, text, g, g.sub(n, pos), pos, n, trees, end);
      ChainIsAdjacent(e, text, trees[0].end, n + 1, trees[1..], end);
      ElementsSplit(e, n, text, trees);
    }
  }

  /** The first link of a chain is a parse tree that begins where the chain does. */
  lemma ChainFirst(e: Expr, text: string, g: Grammar<Tree>, subs: seq<Succ<Tree>>, pos: nat, n: nat, trees: seq<Tree>,
                   end: nat)
    requires (e.Sequence? || e.Repetition?) && n < g.max && trees != [] && subs == g.sub(n, pos)
    requires forall s :: s in subs <==> Yields(s, pos) && Element(e, n, text, s.obj)
    ensures Chain(g, pos, n, trees, end) <==>
            trees[0].begin == pos && Element(e, n, text, trees[0]) && Chain(g, trees[0].end, n + 1, trees[1..], end)
  {
    var first := trees[0];
    if first.begin == pos && Element(e, n, text, first) {
      TreeIsForward(if e.Sequence? then e.items[n] else e.item, text, first);
      var c := Succ(first.end - pos, first);
      assert c in subs && pos + c.offset == first.end;
    }
  }

  lemma ElementsSplit(e: Expr, n: nat, text: string, trees: seq<Tree>)
    requires (e.Sequence? || e.Repetition?) && trees != []
    ensures Elements(e, n, text, trees) <==> Element(e, n, text, trees[0]) && Elements(e, n + 1, text, trees[1..])
  {
    var later := trees[1..];
    assert forall k | 0 <= k < |later| :: later[k] == trees[k + 1] && n + 1 + k == n + (k + 1);
    assert forall k | 1 <= k < |trees| :: trees[k] == later[k - 1] && n + k == n + 1 + (k - 1);
  }

  lemma {:induction false} AdjacentIsForward(begin: nat, trees: seq<Tree>, end: nat)
    requires Adjacent(begin, trees, end) && forall t <- trees :: t.begin <= t.end
    ensures begin <= end
    decreases |trees|
  {
    if trees != [] {
      AdjacentIsForward(trees[0].end, trees[1..], end);
    }
  }

  lemma {:induction false} TreeIsForward(e: Expr, text: string, t: Tree)
    requires ParseTree(e, text, t)
    ensures t.begin <= t.end
    decreases e
  {
    match e {
      case Or(alternatives) =>
        var i :| 0 <= i < |alternatives| && ParseTree(alternatives[i], text, t);
        TreeIsForward(alternatives[i], text, t);
      case Sequence(items, _) =>
        forall k | 0 <= k < |items|
          ensures t.children[k].begin <= t.children[k].end
        {
          TreeIsForward(items[k], text, t.children[k]);
        }
        AdjacentIsForward(t.begin, t.children, t.end);
      case Repetition(item, _, _, _) =>
        forall k | 0 <= k < |t.children|
          ensures t.children[k].begin <= t.children[k].end
        {
          TreeIsForward(item, text, t.children[k]);
        }
        AdjacentIsForward(t.begin, t.children, t.end);
      case _ =>
    }
  }

  /** A word's lengths are those of the texts it may cover. */
  lemma WordExact(e: Expr, text: string, pos: nat, s: Succ<Tree>)
    requires e.Word?
    ensures s in WordSuccesses(e, text, pos) <==> Yields(s, pos) && ParseTree(e, text, s.obj)
  {
    var reach := WordReach(e, text, pos);
    if reach.Some? {
      LengthsMembers(pos, e.min, reach.value, s);
      ReversedMembers(Lengths(pos, e.min, reach.value), s);
    }
    WordReachExact(e, text, pos, s.offset);
  }

  lemma LengthsMembers(pos: nat, lo: nat, hi: nat, s: Succ<Tree>)
    ensures s in Lengths(pos, lo, hi) <==> lo <= s.offset <= hi && s.obj == Leaf(pos, pos + s.offset)
  {
    if lo <= s.offset <= hi && s.obj == Leaf(pos, pos + s.offset) {
      assert Lengths(pos, lo, hi)[s.offset - lo] == s;
    }
  }

  lemma ReversedMembers<X>(s: seq<X>, x: X)
    ensures x in Reversed(s) <==> x in s
  {
    if x in s {
      var i :| 0 <= i < |s| && s[i] == x;
      assert Reversed(s)[|s| - 1 - i] == x;
    }
  }

  lemma WordReachExact(e: Expr, text: string, pos: nat, n: nat)
    requires e.Word?
    ensures WordText(e, text, pos, pos + n) <==>
            WordReach(e, text, pos).Some? && e.min <= n <= WordReach(e, text, pos).value
  {
    if pos < |text| && text[pos] in e.start {
      var run := Run(e.rest, text, pos + 1, if e.max == 0 then |text| else e.max - 1);
      if n > 0 && n <= 1 + run {
        assert forall i | pos < i < pos + n :: text[i] in e.rest;
      }
    }
  }

  lemma {:induction false} OrMembers(alternatives: seq<Expr>, text: string, pos: nat, s: Succ<Tree>)
    ensures s in OrSuccesses(alternatives, text, pos) <==>
            exists i | 0 <= i < |alternatives| :: s in Successes(alternatives[i], text, pos)
  {
    if alternatives != [] {
      var later := alternatives[1..];
      OrMembers(later, text, pos, s);
      if i :| 0 <= i < |alternatives| && s in Successes(alternatives[i], text, pos) && i > 0 {
        assert later[i - 1] == alternatives[i];
      }
      if i :| 0 <= i < |later| && s in Successes(later[i], text, pos) {
        assert alternatives[i + 1] == later[i];
      }
    }
  }

  lemma WrapMembers(pos: nat, matches: seq<Match<Tree>>, s: Succ<Tree>)
    ensures s in Wrap(pos, matches) <==> exists m <- matches :: s == Wrapped(pos, m)
  {
    if m :| m in matches && s == Wrapped(pos, m) {
      var i :| 0 <= i < |matches| && matches[i] == m;
      assert Wrap(pos, matches)[i] == s;
    }
  }

  /** Sequences and repetitions, once their elements are known to be exact. */
  lemma CompoundExact(e: Expr, text: string, pos: nat, s: Succ<Tree>)
    requires (e.Sequence? || e.Repetition?) && ElementsExact(e, text)
    ensures s in Wrap(pos, Enum(GrammarOf(e, text), pos, [], [])) <==> Yields(s, pos) && ParseTree(e, text, s.obj)
  {
    var g := GrammarOf(e, text);
    WrapMembers(pos, Enum(g, pos, [], []), s);
    if s.obj.Node? {
      var m := Match(s.obj.end, s.obj.children);
      EnumMembers(g, pos, [], [], m);
      assert m.objs[0..] == m.objs;
      if |m.objs| <= g.max {
        ChainIsAdjacent(e, text, pos, 0, m.objs, m.end);
      }
      ElementsAreChildren(e, text, s.obj.children);
      MatchIsForward(e, text, pos, m);
    }
  }

  lemma ElementsAreChildren(e: Expr, text: string, trees: seq<Tree>)
    requires e.Sequence? || e.Repetition?
    ensures e.Repetition? ==>
            (Elements(e, 0, text, trees) <==> forall k | 0 <= k < |trees| :: ParseTree(e.item, text, trees[k]))
    ensures e.Sequence? && |trees| == |e.items| ==>
              (Elements(e, 0, text, trees) <==> forall k | 0 <= k < |trees| :: ParseTree(e.items[k], text, trees[k]))
  {
    assert Elements(e, 0, text, trees) <==> forall k | 0 <= k < |trees| :: Element(e, 0 + k, text, trees[k]);
  }

  lemma MatchIsForward(e: Expr, text: string, pos: nat, m: Match<Tree>)
    requires e.Sequence? || e.Repetition?
    ensures Adjacent(pos, m.objs, m.end) && Elements(e, 0, text, m.objs) ==> pos <= m.end
  {
    if Adjacent(pos, m.objs, m.end) && Elements(e, 0, text, m.objs) {
      forall k | 0 <= k < |m.objs|
        ensures m.objs[k].begin <= m.objs[k].end
      {
        assert Element(e, 0 + k, text, m.objs[k]);
        TreeIsForward(if e.Sequence? then e.items[k] else e.item, text, m.objs[k]);
      }
      AdjacentIsForward(pos, m.objs, m.end);
    }
  }

  /** A grammar's successes at pos are exactly its parse trees that begin there. */
  lemma {:induction false} SuccessesAreParseTrees(e: Expr, text: string, pos: nat, s: Succ<Tree>)
    ensures s in Successes(e, text, pos) <==> Yields(s, pos) && ParseTree(e, text, s.obj)
    decreases e
  {
    match e {
      case Word(_, _, _, _, _) =>
        WordExact(e, text, pos, s);
      case Or(alternatives) =>
        OrMembers(alternatives, text, pos, s);
        forall i | 0 <= i < |alternatives|
          ensures s in Successes(alternatives[i], text, pos) <==>
                  Yields(s, pos) && ParseTree(alternatives[i], text, s.obj)
        {
          SuccessesAreParseTrees(alternatives[i], text, pos, s);
        }
      case Sequence(items, _) =>
        forall k: nat, p: nat, s | k < |items|
          ensures s in Successes(items[k], text, p) <==> Yields(s, p) && ParseTree(items[k], text, s.obj)
        {
          SuccessesAreParseTrees(items[k], text, p, s);
        }
        CompoundExact(e, text, pos, s);
      case Repetition(item, _, _, _) =>
        forall p: nat, s
          ensures s in Successes(item, text, p) <==> Yields(s, p) && ParseTree(item, text, s.obj)
        {
          SuccessesAreParseTrees(item, text, p, s);
        }
        CompoundExact(e, text, pos, s);
      case _ =>
    }
  }

  // ----- the generators, run to exhaustion -----

  /** Word: every length from the pattern's reach down to the minimum, or up to the reach. */
  method ParseWord(e: Expr, text: string, pos: nat) returns (out: seq<Succ<Tree>>)
    requires e.Word?
    ensures out == WordSuccesses(e, text, pos)
  {
    out := [];
    var reach := WordReach(e, text, pos);
    if reach.None? {
      return;
    }
    if e.greedy {
      var length: int := reach.value;
      while length >= e.min
        invariant length <= reach.value && (length >= e.min - 1 || out == [])
        invariant |out| == reach.value - length
        invariant forall i | 0 <= i < |out| :: out[i] == Succ(reach.value - i, Leaf(pos, pos + (reach.value - i)))
      {
        out := out + [Succ(length, Leaf(pos, pos + length))];
        length := length - 1;
      }
    } else {
      var returned := e.min - 1;
      while returned < reach.value
        invariant returned <= reach.value || out == []
        invariant |out| == returned - (e.min - 1)
        invariant forall i | 0 <= i < |out| :: out[i] == Succ(e.min + i, Leaf(pos, pos + (e.min + i)))
      {
        returned := returned + 1;
        out := out + [Succ(returned, Leaf(pos, pos + returned))];
      }
    }
  }

  method ParseExpr(e: Expr, text: string, pos: nat) returns (out: seq<Succ<Tree>>)
    ensures out == Successes(e, text, pos)
    decreases e
  {
    match e {
      case Literal(s) =>
        out := if pos + |s| <= |text| && text[pos..pos + |s|] == s then [Succ(|s|, Leaf(pos, pos + |s|))] else [];
      case Word(_, _, _, _, _) =>
        out := ParseWord(e, text, pos);
      case AnyChar =>
        out := if pos < |text| then [Succ(1, Leaf(pos, pos + 1))] else [];
      case Empty =>
        out := [Succ(0, Leaf(pos, pos))];
      case Or(alternatives) =>
        out := [];
        assert alternatives[0..] == alternatives;
        for i := 0 to |alternatives|
          invariant out + OrSuccesses(alternatives[i..], text, pos) == OrSuccesses(alternatives, text, pos)
        {
          assert alternatives[i..][0] == alternatives[i] && alternatives[i..][1..] == alternatives[i + 1..];
          var results := ParseExpr(alternatives[i], text, pos);
          AppendAll(out, results, OrSuccesses(alternatives[i + 1..], text, pos));
          out := out + results;
        }
      case Sequence(items, greedy) =>
        var matches := GrammarParse(SequenceGrammar(items, greedy, text), pos);
        out := Wrap(pos, matches);
      case Repetition(item, min, max, greedy) =>
        var matches := GrammarParse(RepetitionGrammar(item, min, max, greedy, text), pos);
        out := Wrap(pos, matches);
    }
  }

  lemma AppendAll<X>(a: seq<X>, b: seq<X>, c: seq<X>)
    ensures a + (b + c) == a + b + c
  {
  }

  // ----- choosing a match -----

  datatype MatchType = First | Last | Longest | Shortest | All

  /** A match and its length, no match at the end of the text, or a parse error. */
  datatype Outcome = Parsed(count: nat, trees: seq<Tree>) | Nothing | Error

  predicate Better(kind: MatchType, a: nat, b: nat) {
    if kind == Longest then a > b else a < b
  }

  /** Index k is the one asked for; among equally long matches the earliest. */
  ghost predicate Selected<T>(matches: seq<Succ<T>>, kind: MatchType, k: nat) {
    && k < |matches|
    && (kind == First ==> k == 0)
    && (kind == Last ==> k == |matches| - 1)
    && (kind == Longest || kind == Shortest ==>
          (forall j | 0 <= j < |matches| :: !Better(kind, matches[j].offset, matches[k].offset)) &&
          (forall j | 0 <= j < k :: Better(kind, matches[k].offset, matches[j].offset)))
  }

  method SelectMatch<T>(matches: seq<Succ<T>>, kind: MatchType) returns (best: nat)
    requires matches != [] && kind != All
    ensures Selected(matches, kind, best)
  {
    best := 0;
    if kind == Last {
      best := |matches| - 1;
    } else if kind != First {
      for i := 1 to |matches|
        invariant best < i
        invariant forall j | 0 <= j < i :: !Better(kind, matches[j].offset, matches[best].offset)
        invariant forall j | 0 <= j < best :: Better(kind, matches[best].offset, matches[j].offset)
      {
        if Better(kind, matches[i].offset, matches[best].offset) {
          best := i;
        }
      }
    }
  }

  /** The trees a grammar has at pos. */
  predicate TreeAt(e: Expr, text: string, pos: nat, t: Tree) {
    t.begin == pos && ParseTree(e, text, t)
  }

  /** The length of the longest match. */
  method LongestCount<T>(matches: seq<Succ<T>>) returns (count: nat)
    requires matches != []
    ensures exists k | 0 <= k < |matches| :: matches[k].offset == count
    ensures forall k | 0 <= k < |matches| :: matches[k].offset <= count
  {
    var best := SelectMatch(matches, Longest);
    count := matches[best].offset;
  }

  function Objects<T>(matches: seq<Succ<T>>): (r: seq<T>)
    ensures |r| == |matches| && forall i | 0 <= i < |r| :: r[i] == matches[i].obj
  {
    seq(|matches|, i requires 0 <= i < |matches| => matches[i].obj)
  }

  /**
   One parse. There is a result if and only if there is a parse tree at pos; the longest or
   shortest match is so among all of them, and all matches are all of them.
   */
  method ParseText(e: Expr, text: string, pos: nat, kind: MatchType) returns (r: Outcome)
    ensures r.Parsed? <==> exists t :: TreeAt(e, text, pos, t)
    ensures !r.Parsed? ==> (r.Nothing? <==> pos == |text|)
    ensures r.Parsed? ==> forall t <- r.trees :: TreeAt(e, text, pos, t)
    ensures r.Parsed? && kind != All ==>
              && |r.trees| == 1 && r.trees[0].end == pos + r.count
              && exists k: nat ::
                   Selected(Successes(e, text, pos), kind, k) && r.trees[0] == Successes(e, text, pos)[k].obj
    ensures r.Parsed? ==> forall t | TreeAt(e, text, pos, t) ::
              && (kind == Longest || kind == All ==> t.end <= pos + r.count)
              && (kind == Shortest ==> t.end >= pos + r.count)
              && (kind == All ==> t in r.trees)
  {
    var matches := ParseExpr(e, text, pos);
    MatchesAreTrees(e, text, pos, matches);
    if matches == [] {
      return if pos == |text| then Nothing else Error;
    }
    assert TreeAt(e, text, pos, matches[0].obj);
    if kind == All {
      var count := LongestCount(matches);
      return Parsed(count, Objects(matches));
    }
    var k := SelectMatch(matches, kind);
    r := Parsed(matches[k].offset, [matches[k].obj]);
  }

  /** The matches and the parse trees at pos correspond. */
  lemma MatchesAreTrees(e: Expr, text: string, pos: nat, matches: seq<Succ<Tree>>)
    requires matches == Successes(e, text, pos)
    ensures forall k | 0 <= k < |matches| ::
            TreeAt(e, text, pos, matches[k].obj) && matches[k].obj.end == pos + matches[k].offset
    ensures forall t | TreeAt(e, text, pos, t) :: exists k | 0 <= k < |matches| :: matches[k].obj == t
  {
    forall k | 0 <= k < |matches|
      ensures TreeAt(e, text, pos, matches[k].obj) && matches[k].obj.end == pos + matches[k].offset
    {
      SuccessesAreParseTrees(e, text, pos, matches[k]);
    }
    forall t | TreeAt(e, text, pos, t)
      ensures exists k | 0 <= k < |matches| :: matches[k].obj == t
    {
      TreeIsForward(e, text, t);
      var s := Succ(t.end - pos, t);
      SuccessesAreParseTrees(e, text, pos, s);
      var k :| 0 <= k < |matches| && matches[k] == s;
      assert matches[k].obj == t;
    }
  }

  // ----- no bound on repetitions -----

  /** Every success takes at least one character and stays inside the first limit ones. */
  ghost predicate Advances<T(!new)>(g: Grammar<T>, limit: nat) {
    forall n: nat, p: nat, c :: c in g.sub(n, p) ==> 1 <= c.offset && p + c.offset <= limit
  }

  /** The two grammars differ in their maximum only. */
  ghost predicate SameButMax<T(!new)>(g: Grammar<T>, h: Grammar<T>) {
    g.min == h.min && g.greedy == h.greedy && forall n: nat, p: nat :: g.sub(n, p) == h.sub(n, p)
  }

  /** With progress, a maximum beyond the text is never reached, so its value does not matter. */
  lemma {:induction false} EnumIgnoresMax<T(!new)>(g: Grammar<T>, h: Grammar<T>, limit: nat, pos: nat, objs: seq<T>,
                                                   tail: seq<Match<T>>)
    requires SameButMax(g, h) && Advances(g, limit) && pos <= limit
    requires |objs| + (limit - pos) < g.max && |objs| + (limit - pos) < h.max
    ensures Enum(g, pos, objs, tail) == Enum(h, pos, objs, tail)
    decreases limit - pos, 1, 0
  {
    var alternatives := g.sub(|objs|, pos);
    BranchesIgnoreMax(g, h, limit, pos, objs, alternatives, if g.greedy then Own(g, pos, objs, tail) else tail);
  }

  lemma {:induction false} BranchesIgnoreMax<T(!new)>(g: Grammar<T>, h: Grammar<T>, limit: nat, pos: nat, objs: seq<T>,
                                                alternatives: seq<Succ<T>>, tail: seq<Match<T>>)
    requires SameButMax(g, h) && Advances(g, limit) && pos <= limit
    requires |objs| + (limit - pos) < g.max && |objs| + (limit - pos) < h.max
    requires forall c <- alternatives :: c in g.sub(|objs|, pos)
    ensures Branches(g, pos, objs, alternatives, tail) == Branches(h, pos, objs, alternatives, tail)
    decreases limit - pos, 0, |alternatives|
  {
    if alternatives != [] {
      var first, later := alternatives[0], alternatives[1..];
      assert first in alternatives && forall c <- later :: c in alternatives;
      BranchesIgnoreMax(g, h, limit, pos, objs, later, tail);
      EnumIgnoresMax(g, h, limit, pos + first.offset, objs + [first.obj], Branches(g, pos, objs, later, tail));
    }
  }

  /** Every success of the grammar takes at least one character. */
  ghost predicate Progressive(e: Expr, text: string) {
    forall p: nat, s :: s in Successes(e, text, p) ==> s.offset >= 1
  }

  /** A parse tree that takes a character ends inside the text. */
  lemma {:induction false} TreeStaysInside(e: Expr, text: string, t: Tree)
    requires ParseTree(e, text, t) && t.begin < t.end
    ensures t.end <= |text|
    decreases e
  {
    match e {
      case Or(alternatives) =>
        var i :| 0 <= i < |alternatives| && ParseTree(alternatives[i], text, t);
        TreeStaysInside(alternatives[i], text, t);
      case Sequence(items, _) =>
        forall k | 0 <= k < |items|
          ensures t.children[k].begin <= t.children[k].end
          ensures t.children[k].begin < t.children[k].end ==> t.children[k].end <= |text|
        {
          TreeIsForward(items[k], text, t.children[k]);
          if t.children[k].begin < t.children[k].end {
            TreeStaysInside(items[k], text, t.children[k]);
          }
        }
        RowStaysInside(t.begin, t.children, t.end, |text|);
      case Repetition(item, _, _, _) =>
        forall k | 0 <= k < |t.children|
          ensures t.children[k].begin <= t.children[k].end
          ensures t.children[k].begin < t.children[k].end ==> t.children[k].end <= |text|
        {
          TreeIsForward(item, text, t.children[k]);
          if t.children[k].begin < t.children[k].end {
            TreeStaysInside(item, text, t.children[k]);
          }
        }
        RowStaysInside(t.begin, t.children, t.end, |text|);
      case _ =>
    }
  }

  lemma {:induction false} RowStaysInside(begin: nat, trees: seq<Tree>, end: nat, limit: nat)
    requires Adjacent(begin, trees, end) && begin < end
    requires forall k | 0 <= k < |trees| ::
             trees[k].begin <= trees[k].end && (trees[k].begin < trees[k].end ==> trees[k].end <= limit)
    ensures end <= limit
    decreases |trees|
  {
    var first, later := trees[0], trees[1..];
    assert forall k | 0 <= k < |later| :: later[k] == trees[k + 1];
    AdjacentIsForward(first.end, later, end);
    if first.end < end {
      RowStaysInside(first.end, later, end, limit);
    }
  }

  /**
   A repetition of a progressive item has one meaning without a bound: every maximum above the
   length of the remaining text gives the same successes in the same order.
   */
  lemma RepetitionNeedsNoBound(item: Expr, min: nat, max: nat, max': nat, greedy: bool, text: string, pos: nat)
    requires Progressive(item, text) && pos <= |text| && max > |text| - pos && max' > |text| - pos
    ensures Successes(Repetition(item, min, max, greedy), text, pos) ==
            Successes(Repetition(item, min, max', greedy), text, pos)
  {
    var g, h := RepetitionGrammar(item, min, max, greedy, text), RepetitionGrammar(item, min, max', greedy, text);
    ProgressiveAdvances(item, min, max, greedy, text);
    EnumIgnoresMax(g, h, |text|, pos, [], []);
  }

  lemma ProgressiveAdvances(item: Expr, min: nat, max: nat, greedy: bool, text: string)
    requires Progressive(item, text)
    ensures Advances(RepetitionGrammar(item, min, max, greedy, text), |text|)
  {
    forall p: nat, c | c in Successes(item, text, p)
      ensures 1 <= c.offset && p + c.offset <= |text|
    {
      SuccessesAreParseTrees(item, text, p, c);
      TreeStaysInside(item, text, c.obj);
    }
  }
}

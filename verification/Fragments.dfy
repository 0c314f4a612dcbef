/**
 Fragments of an external table, their journey from the master to the segments, and the
 modular rule by which every segment keeps its own share of the list.
 */
module Fragments {
  import opened Decimal

  datatype FragmentData = FragmentData(
    authority: Option<string>,
    index: Option<string>,
    source: Option<string>,
    metadata: Option<string>,
    userData: Option<string>,
    profile: Option<string>,
    fragmentIdx: int)

  // ----- master to segment -----

  /** The six strings sent for a fragment; the authority is not among them. */
  function SerializeFragment(f: FragmentData): (s: seq<Option<string>>)
    ensures |s| == 6
  {
    [f.index, f.source, f.metadata, f.userData, f.profile, Some(FormatInt(f.fragmentIdx))]
  }

  /** atoi on the text of an integer; other text reads as 0. */
  function Atoi(s: string): int {
    match ReadInt(s) case Some((i, _)) => i case None => 0
  }

  function DeserializeFragment(s: seq<Option<string>>): FragmentData
    requires |s| == 6 && s[5].Some?
  {
    FragmentData(None, s[0], s[1], s[2], s[3], s[4], Atoi(s[5].value))
  }

  method SerializeFragmentList(fragments: seq<FragmentData>) returns (r: seq<seq<Option<string>>>)
    ensures |r| == |fragments| && forall i | 0 <= i < |r| :: r[i] == SerializeFragment(fragments[i])
  {
    r := [];
    for i := 0 to |fragments|
      invariant |r| == i && forall k | 0 <= k < i :: r[k] == SerializeFragment(fragments[k])
    {
      r := r + [SerializeFragment(fragments[i])];
    }
  }

  method DeserializeFragmentList(wire: seq<seq<Option<string>>>) returns (r: seq<FragmentData>)
    requires forall i | 0 <= i < |wire| :: |wire[i]| == 6 && wire[i][5].Some?
    ensures |r| == |wire| && forall i | 0 <= i < |r| :: r[i] == DeserializeFragment(wire[i])
  {
    r := [];
    for i := 0 to |wire|
      invariant |r| == i && forall k | 0 <= k < i :: r[k] == DeserializeFragment(wire[k])
    {
      r := r + [DeserializeFragment(wire[i])];
    }
  }

  /** What a segment receives: every fragment, in order, without its authority. */
  method DispatchToSegment(fragments: seq<FragmentData>) returns (r: seq<FragmentData>)
    ensures |r| == |fragments| && forall i | 0 <= i < |r| :: r[i] == fragments[i].(authority := None)
  {
    var wire := SerializeFragmentList(fragments);
    r := DeserializeFragmentList(wire);
    forall i | 0 <= i < |r|
      ensures r[i] == fragments[i].(authority := None)
    {
      FragmentRoundTrip(fragments[i]);
    }
  }

  lemma FragmentRoundTrip(f: FragmentData)
    ensures DeserializeFragment(SerializeFragment(f)) == f.(authority := None)
  {
    ReadIntOfFormat(f.fragmentIdx, "");
    assert FormatInt(f.fragmentIdx) + "" == FormatInt(f.fragmentIdx);
  }

  // ----- work allocation -----

  /** C's remainder: it takes the sign of the dividend. */
  function CRem(a: int, n: nat): int
    requires n > 0
  {
    if a >= 0 then a % n else -((-a) % n)
  }

  /** What all segments of a query agree on. */
  datatype Query = Query(segments: nat, session: int, command: int) {
    /** The list position of index 0 on the wheel of segments. */
    function Base(): int
      requires segments > 0
    {
      CRem(session, segments) + command
    }

    /** The number the code compares with its own segment id. */
    function Owner(i: nat): int
      requires segments > 0
    {
      CRem(i + Base(), segments)
    }
  }

  /** The indices below k that segment s keeps, in increasing order. */
  function Owned(q: Query, s: int, k: nat): seq<nat>
    requires q.segments > 0
  {
    if k == 0 then []
    else Owned(q, s, k - 1) + if q.Owner(k - 1) == s then [k - 1] else []
  }

  /** The fragments at those indices, numbered from 1. */
  function Share(q: Query, s: int, list: seq<FragmentData>, k: nat): (r: seq<FragmentData>)
    requires q.segments > 0 && k <= |list|
    ensures |r| <= k
  {
    if k == 0 then []
    else
      var before := Share(q, s, list, k - 1);
      if q.Owner(k - 1) == s then before + [list[k - 1].(fragmentIdx := |before| + 1)] else before
  }

  /** A list whose cells are deleted in place. */
  class FragmentList {
    var cells: seq<FragmentData>

    constructor (cells: seq<FragmentData>)
      ensures this.cells == cells
    {
      this.cells := cells;
    }

    /** Drops every cell another segment will process; an empty list is an error. */
    method FilterFragmentsForSegment(q: Query, segment: int) returns (ok: bool)
      requires q.segments > 0
      modifies this
      ensures ok <==> old(cells) != []
      ensures cells == Share(q, segment, old(cells), |old(cells)|)
    {
      if cells == [] {
        return false;
      }
      var index := 0;
      var fragIndex := 1;
      var current := 0;
      var shift := CRem(q.session, q.segments);
      while current < |cells|
        invariant index <= |old(cells)| && current <= |cells|
        invariant fragIndex == current + 1
        invariant cells[..current] == Share(q, segment, old(cells), index)
        invariant cells[current..] == old(cells)[index..]
        decreases |cells| - current
      {
        assert cells[current] == old(cells)[index] && cells[current + 1..] == old(cells)[index + 1..];
        if segment == CRem(index + shift + q.command, q.segments) {
          cells := cells[current := cells[current].(fragmentIdx := fragIndex)];
          fragIndex := fragIndex + 1;
          current := current + 1;
        } else {
          cells := cells[..current] + cells[current + 1..];
        }
        index := index + 1;
      }
      assert cells == cells[..current];
      return true;
    }
  }

  lemma {:induction false} OwnedIndices(q: Query, s: int, k: nat)
    requires q.segments > 0
    ensures forall i | 0 <= i < k :: i in Owned(q, s, k) <==> q.Owner(i) == s
    ensures forall i <- Owned(q, s, k) :: i < k
    ensures forall a, b | 0 <= a < b < |Owned(q, s, k)| :: Owned(q, s, k)[a] < Owned(q, s, k)[b]
  {
    if k > 0 {
      OwnedIndices(q, s, k - 1);
      var before := Owned(q, s, k - 1);
      assert forall a | 0 <= a < |before| :: before[a] in before;
    }
  }

  /** The share is the owned part of the list, in list order, numbered 1, 2, ... */
  lemma {:induction false} ShareIsOwnedSublist(q: Query, s: int, list: seq<FragmentData>, k: nat)
    requires q.segments > 0 && k <= |list|
    ensures |Share(q, s, list, k)| == |Owned(q, s, k)|
    ensures forall j | 0 <= j < |Owned(q, s, k)| ::
              Owned(q, s, k)[j] < k && Share(q, s, list, k)[j] == list[Owned(q, s, k)[j]].(fragmentIdx := j + 1)
  {
    if k > 0 {
      ShareIsOwnedSublist(q, s, list, k - 1);
    }
  }

  /** The indices below k that each segment keeps. */
  function Parts(q: Query, k: nat): (parts: seq<seq<nat>>)
    requires q.segments > 0
    ensures |parts| == q.segments && forall s | 0 <= s < q.segments :: parts[s] == Owned(q, s, k)
  {
    seq(q.segments, s requires 0 <= s < q.segments => Owned(q, s, k))
  }

  /** The first n parts one after the other. */
  function Joined(parts: seq<seq<nat>>, n: nat): seq<nat>
    requires n <= |parts|
  {
    if n == 0 then [] else Joined(parts, n - 1) + parts[n - 1]
  }

  lemma CountAppend(a: seq<nat>, b: seq<nat>, i: nat)
    ensures multiset(a + b)[i] == multiset(a)[i] + multiset(b)[i]
    ensures multiset([])[i] == 0
  {
  }

  /** A sequence of increasing numbers holds each of its members once. */
  lemma {:induction false} CountIncreasing(a: seq<nat>, i: nat)
    requires forall x, y | 0 <= x < y < |a| :: a[x] < a[y]
    ensures multiset(a)[i] == if i in a then 1 else 0
  {
    if a != [] {
      var n := |a| - 1;
      assert a == a[..n] + [a[n]];
      CountAppend(a[..n], [a[n]], i);
      CountIncreasing(a[..n], i);
    }
  }

  lemma OwnedOnce(q: Query, s: int, k: nat, i: nat, owner: int)
    requires q.segments > 0 && owner == q.Owner(i)
    ensures multiset(Owned(q, s, k))[i] == if i < k && owner == s then 1 else 0
  {
    OwnedIndices(q, s, k);
    CountIncreasing(Owned(q, s, k), i);
  }

  lemma {:induction false} JoinedCount(parts: seq<seq<nat>>, n: nat, i: nat, owner: int)
    requires n <= |parts| && forall s | 0 <= s < n :: multiset(parts[s])[i] == if s == owner then 1 else 0
    ensures multiset(Joined(parts, n))[i] == if 0 <= owner < n then 1 else 0
  {
    if n > 0 {
      JoinedCount(parts, n - 1, i, owner);
      CountAppend(Joined(parts, n - 1), parts[n - 1], i);
    } else {
      CountAppend([], [], i);
    }
  }

  /** No segment keeps an index beyond the list. */
  lemma {:induction false} JoinedBelow(parts: seq<seq<nat>>, n: nat, k: nat)
    requires n <= |parts| && forall s | 0 <= s < n :: forall i <- parts[s] :: i < k
    ensures forall i <- Joined(parts, n) :: i < k
  {
    if n > 0 {
      JoinedBelow(parts, n - 1, k);
    }
  }

  /** i + Base() is not negative, or a multiple of the segment count. */
  predicate HasOwner(q: Query, i: nat)
    requires q.segments > 0
  {
    i + q.Base() >= 0 || (i + q.Base()) % q.segments == 0
  }

  lemma OwnerIsSegment(q: Query, i: nat)
    requires q.segments > 0
    ensures 0 <= q.Owner(i) < q.segments <==> HasOwner(q, i)
    ensures i + q.Base() < 0 ==> q.Owner(i) <= 0 && (q.Owner(i) == 0 <==> (i + q.Base()) % q.segments == 0)
  {
    if i + q.Base() < 0 {
      NegativeRemainder(i + q.Base(), q.segments);
    }
  }

  /**
   Across all segments an index below k is kept exactly once if and only if it has an owner,
   and otherwise never.
   */
  lemma ExactlyOneOwner(q: Query, k: nat, i: nat)
    requires q.segments > 0 && i < k
    ensures multiset(Joined(Parts(q, k), q.segments))[i] == if HasOwner(q, i) then 1 else 0
  {
    var owner := q.Owner(i);
    forall s | 0 <= s < q.segments
      ensures multiset(Parts(q, k)[s])[i] == if s == owner then 1 else 0
    {
      OwnedOnce(q, s, k, i, owner);
    }
    JoinedCount(Parts(q, k), q.segments, i, owner);
    OwnerIsSegment(q, i);
  }

  lemma NegativeRemainder(a: int, n: nat)
    requires n > 0 && a < 0
    ensures (-a) % n == 0 <==> a % n == 0
  {
    if a % n == 0 {
      assert a == (a / n) * n;
      assert -a == (-(a / n)) * n;
      MultipleHasNoRemainder(-(a / n), n);
    }
    if (-a) % n == 0 {
      assert a == (-((-a) / n)) * n;
      MultipleHasNoRemainder(-((-a) / n), n);
    }
  }

  lemma MultipleHasNoRemainder(k: int, n: nat)
    requires n > 0
    ensures (k * n) % n == 0
  {
    DivUnique(k * n, n, k, 0);
  }

  /** For a negative base some fragments are read by nobody. */
  lemma NegativeBaseLosesFragments()
    ensures var q := Query(3, -2, 0); forall s | 0 <= s < 3 :: Owned(q, s, 1) == []
  {
    var q := Query(3, -2, 0);
    assert q.Owner(0) == -2;
  }

  // ----- balance -----

  /** (n + N - 1 - r) / N, with r the first owned index. */
  function Quota(n: nat, count: nat, r: nat): nat
    requires count > 0 && r < count
  {
    (n + count - 1 - r) / count
  }

  lemma QuotaStep(n: nat, count: nat, r: nat)
    requires count > 0 && r < count
    ensures Quota(n + 1, count, r) == Quota(n, count, r) + if n % count == r then 1 else 0
  {
    var q, m := n / count, n % count;
    assert n == q * count + m;
    if m < r {
      DivUnique(n + count - 1 - r, count, q, m + count - 1 - r);
      DivUnique(n + count - r, count, q, m + count - r);
    } else if m == r {
      DivUnique(n + count - 1 - r, count, q, count - 1);
      DivUnique(n + count - r, count, q + 1, 0);
    } else {
      DivUnique(n + count - 1 - r, count, q + 1, m - 1 - r);
      DivUnique(n + count - r, count, q + 1, m - r);
    }
  }

  lemma DivUnique(a: int, n: nat, q: int, r: int)
    requires n > 0 && 0 <= r < n && a == q * n + r
    ensures a / n == q && a % n == r
  {
    var d := a / n - q;
    assert r - a % n == d * n;
    assert d >= 1 ==> d * n >= n;
    assert d <= -1 ==> d * n <= -1 * n;
  }

  /** i + base hits s on the wheel exactly when i hits (s - base) mod N. */
  lemma WheelShift(i: nat, base: int, s: nat, n: nat)
    requires n > 0 && s < n
    ensures (i + base) % n == s <==> i % n == (s - base) % n
  {
    var r := (s - base) % n;
    assert s - base == ((s - base) / n) * n + r;
    if i % n == r {
      var q := i / n - (s - base) / n;
      assert i + base == (i / n) * n - ((s - base) / n) * n + s == q * n + s;
      DivUnique(i + base, n, q, s);
    }
    if (i + base) % n == s {
      var q := (i + base) / n + (s - base) / n;
      assert i == ((i + base) / n) * n + s - base == q * n + r;
      DivUnique(i, n, q, r);
    }
  }

  // ----- how session and command turn the wheel -----

  /** With numbers that are not negative the owner is the remainder of their plain sum. */
  lemma OwnerIsRemainder(q: Query, i: nat)
    requires q.segments > 0 && q.session >= 0 && q.command >= 0
    ensures q.Owner(i) == (i + q.session + q.command) % q.segments
  {
    var n := q.segments;
    var short, whole := i + q.session % n + q.command, i + q.session + q.command;
    assert q.session == q.session / n * n + q.session % n;
    assert short == short / n * n + short % n;
    assert whole == (short / n + q.session / n) * n + short % n;
    DivUnique(whole, n, short / n + q.session / n, short % n);
  }

  /** The next command of a session moves every index to the next segment. */
  lemma NextCommandTurns(q: Query, i: nat)
    requires q.segments > 0 && q.session >= 0 && q.command >= 0
    ensures q.(command := q.command + 1).Owner(i) == (if q.Owner(i) + 1 == q.segments then 0 else q.Owner(i) + 1)
  {
    var n, sum := q.segments, i + q.session + q.command;
    OwnerIsRemainder(q, i);
    OwnerIsRemainder(q.(command := q.command + 1), i);
    assert sum == sum / n * n + sum % n;
    if sum % n + 1 == n {
      assert sum + 1 == (sum / n + 1) * n;
      DivUnique(sum + 1, n, sum / n + 1, 0);
    } else {
      DivUnique(sum + 1, n, sum / n, sum % n + 1);
    }
  }

  /** With a negative base, only segment 0 can keep an index before the wheel reaches zero. */
  function Turns(q: Query, s: nat, k: nat): nat
    requires q.segments > 0
  {
    if q.Base() >= 0 || s == 0 then k else if k + q.Base() > 0 then k + q.Base() else 0
  }

  /** The first of those turns that segment s keeps. */
  function FirstTurn(q: Query, s: nat): nat
    requires q.segments > 0 && s < q.segments
  {
    if q.Base() >= 0 || s == 0 then (s - q.Base()) % q.segments else s
  }

  /** The exact number of indices a segment keeps, for every base. */
  lemma {:induction false} OwnedCount(q: Query, s: nat, k: nat)
    requires q.segments > 0 && s < q.segments
    ensures |Owned(q, s, k)| == Quota(Turns(q, s, k), q.segments, FirstTurn(q, s))
  {
    var n, r := q.segments, FirstTurn(q, s);
    if k == 0 {
      DivUnique(n - 1 - r, n, 0, n - 1 - r);
    } else {
      OwnedCount(q, s, k - 1);
      OwnerIsSegment(q, k - 1);
      if q.Base() >= 0 || s == 0 {
        QuotaStep(k - 1, n, r);
        WheelShift(k - 1, q.Base(), s, n);
      } else if k - 1 + q.Base() >= 0 {
        QuotaStep(k - 1 + q.Base(), n, r);
      }
    }
  }

  /**
   No segment keeps more than the ceiling of an equal share, and none fewer than the floor
   unless the base is negative.
   */
  lemma Balanced(q: Query, s: nat, k: nat)
    requires q.segments > 0 && s < q.segments
    ensures |Owned(q, s, k)| <= k / q.segments + if k % q.segments == 0 then 0 else 1
    ensures q.Base() >= 0 || s == 0 ==> |Owned(q, s, k)| >= k / q.segments
  {
    OwnedCount(q, s, k);
    QuotaIsFloorOrCeiling(Turns(q, s, k), q.segments, FirstTurn(q, s));
    ShareGrows(Turns(q, s, k), k, q.segments);
  }

  lemma ShareGrows(m: nat, k: nat, n: nat)
    requires n > 0 && m <= k
    ensures m / n + (if m % n == 0 then 0 else 1) <= k / n + if k % n == 0 then 0 else 1
  {
    var a, b := m / n, k / n;
    assert m == a * n + m % n && k == b * n + k % n;
    assert a > b ==> a * n >= (b + 1) * n;
    assert a < b ==> (a + 1) * n <= b * n;
  }

  lemma QuotaIsFloorOrCeiling(k: nat, n: nat, r: nat)
    requires n > 0 && r < n
    ensures Quota(k, n, r) == k / n || (k % n != 0 && Quota(k, n, r) == k / n + 1)
  {
    var d, m := k / n, k % n;
    assert k == d * n + m;
    if m <= r {
      DivUnique(k + n - 1 - r, n, d, m + n - 1 - r);
    } else {
      DivUnique(k + n - 1 - r, n, d + 1, m - 1 - r);
    }
  }
}

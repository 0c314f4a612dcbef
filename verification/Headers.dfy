/**
 The HTTP header list of a scan: cells found by a key prefix, overridden, removed and appended
 in place; what the list says when each fragment is requested, and when that is the fragment.
 */
module Headers {
  import opened Decimal
  import opened Fragments

  /** A header cell; a missing value leaves the bare key. */
  function Cell(key: string, value: Option<string>): string {
    if value.None? then key else key + ": " + value.value
  }

  /** The prefix a search compares with. */
  function KeyOption(key: string, hasValue: bool): string {
    if hasValue then key + ":" else key
  }

  predicate IsPrefix(p: string, s: string) {
    p <= s
  }

  // ----- what a reader makes of the cells -----

  /** The position of the first colon, or the end. */
  function Colon(cell: string): (n: nat)
    ensures n <= |cell| && (n < |cell| ==> cell[n] == ':')
    ensures forall i | 0 <= i < n :: cell[i] != ':'
  {
    if cell == [] || cell[0] == ':' then 0 else 1 + Colon(cell[1..])
  }

  /** The name and the value of a cell: what is before the first colon, and after it and a blank. */
  function ReadCell(cell: string): Option<(string, string)> {
    var n := Colon(cell);
    if n == |cell| then None
    else Some((cell[..n], if n + 1 < |cell| && cell[n + 1] == ' ' then cell[n + 2..] else cell[n + 1..]))
  }

  /** The value that a cell gives to a name; a cell without a colon is no header. */
  function ValueFor(cell: string, name: string): seq<string> {
    match ReadCell(cell)
    case Some((n, value)) => if n == name then [value] else []
    case None => []
  }

  /** The values that the cells give to a name, in order. */
  function ReadValues(cells: seq<string>, name: string): seq<string> {
    if cells == [] then [] else ValueFor(cells[0], name) + ReadValues(cells[1..], name)
  }

  lemma ColonAt(cell: string, n: nat)
    requires n < |cell| && cell[n] == ':' && forall i | 0 <= i < n :: cell[i] != ':'
    ensures Colon(cell) == n
  {
  }

  /** What is written for a name and a value is read as these. */
  lemma CellReadsBack(key: string, value: string)
    requires ':' !in key
    ensures ReadCell(Cell(key, Some(value))) == Some((key, value))
  {
    var cell := Cell(key, Some(value));
    assert cell[..|key|] == key && cell[|key|] == ':' && cell[|key| + 1] == ' ' && cell[|key| + 2..] == value;
    forall i | 0 <= i < |key|
      ensures cell[i] != ':'
    {
      assert cell[i] == key[i] && key[i] in key;
    }
    ColonAt(cell, |key|);
  }

  lemma BareKeyIsUnread(key: string)
    requires ':' !in key
    ensures ReadCell(key) == None
  {
  }

  /** A cell is found by a value's prefix exactly when it is read under the key. */
  lemma FoundIsRead(cell: string, key: string)
    requires ':' !in key
    ensures IsPrefix(key + ":", cell) <==> ReadCell(cell).Some? && ReadCell(cell).value.0 == key
  {
    var n := Colon(cell);
    assert n < |cell| && cell[..n] == key ==> cell[..n + 1] == key + ":";
    if IsPrefix(key + ":", cell) {
      assert cell[..|key|] == (key + ":")[..|key|] == key && cell[|key|] == (key + ":")[|key|] == ':';
      forall i | 0 <= i < |key|
        ensures cell[i] != ':'
      {
        assert cell[i] == key[i] && key[i] in key;
      }
      ColonAt(cell, |key|);
    }
  }

  /** One value for a name, or none. */
  function Said(value: Option<string>): seq<string> {
    if value.Some? then [value.value] else []
  }

  // ----- the operations -----

  /** Rewrites the first cell that starts with the key's prefix, or appends a cell. */
  function Override(cells: seq<string>, key: string, value: Option<string>): seq<string> {
    if cells == [] then [Cell(key, value)]
    else if IsPrefix(KeyOption(key, value.Some?), cells[0]) then [Cell(key, value)] + cells[1..]
    else [cells[0]] + Override(cells[1..], key, value)
  }

  /** Deletes the first cell that starts with the key's prefix. */
  function Remove(cells: seq<string>, key: string, hasValue: bool): seq<string> {
    if cells == [] then []
    else if IsPrefix(KeyOption(key, hasValue), cells[0]) then cells[1..]
    else [cells[0]] + Remove(cells[1..], key, hasValue)
  }

  lemma {:induction false} OverrideAt(cells: seq<string>, key: string, value: Option<string>, k: nat)
    requires k <= |cells| && forall i | 0 <= i < k :: !IsPrefix(KeyOption(key, value.Some?), cells[i])
    ensures k < |cells| && IsPrefix(KeyOption(key, value.Some?), cells[k]) ==>
              Override(cells, key, value) == cells[k := Cell(key, value)]
    ensures k == |cells| ==> Override(cells, key, value) == cells + [Cell(key, value)]
  {
    if k > 0 {
      OverrideAt(cells[1..], key, value, k - 1);
      assert cells == [cells[0]] + cells[1..];
    }
  }

  /** The values of a list after its first was set. */
  function FirstSet(values: seq<string>, value: string): seq<string> {
    if values == [] then [value] else [value] + values[1..]
  }

  function FirstDropped(values: seq<string>): seq<string> {
    if values == [] then [] else values[1..]
  }

  lemma ReadsFirst(cell: string, later: seq<string>, name: string)
    ensures ReadValues([cell] + later, name) == ValueFor(cell, name) + ReadValues(later, name)
  {
    assert ([cell] + later)[0] == cell && ([cell] + later)[1..] == later;
  }

  /** An override with a value sets the key's first value, and no other name's. */
  lemma {:induction false} OverrideReads(cells: seq<string>, key: string, value: string, name: string)
    requires ':' !in key
    ensures ReadValues(Override(cells, key, Some(value)), name) ==
            if name == key then FirstSet(ReadValues(cells, key), value) else ReadValues(cells, name)
  {
    var cell := Cell(key, Some(value));
    CellReadsBack(key, value);
    if cells == [] {
      ReadsFirst(cell, [], name);
    } else {
      FoundIsRead(cells[0], key);
      assert cells == [cells[0]] + cells[1..];
      if IsPrefix(key + ":", cells[0]) {
        ReadsFirst(cell, cells[1..], name);
        if name == key {
          SetsFirst(ValueFor(cells[0], name), value, ReadValues(cells[1..], name));
        }
      } else {
        ReadsFirst(cells[0], Override(cells[1..], key, Some(value)), name);
        OverrideReads(cells[1..], key, value, name);
      }
    }
  }

  lemma SetsFirst(first: seq<string>, value: string, later: seq<string>)
    requires |first| == 1
    ensures FirstSet(first + later, value) == [value] + later
  {
    assert (first + later)[1..] == later;
  }

  /** Removing a key's cell drops its first value, and no other name's. */
  lemma {:induction false} RemoveReads(cells: seq<string>, key: string, name: string)
    requires ':' !in key
    ensures ReadValues(Remove(cells, key, true), name) ==
            if name == key then FirstDropped(ReadValues(cells, key)) else ReadValues(cells, name)
  {
    if cells != [] {
      FoundIsRead(cells[0], key);
      ReadsFirst(cells[0], Remove(cells[1..], key, true), name);
      RemoveReads(cells[1..], key, name);
    }
  }

  lemma {:induction false} RemoveAt(cells: seq<string>, key: string, hasValue: bool, k: nat)
    requires k <= |cells| && forall i | 0 <= i < k :: !IsPrefix(KeyOption(key, hasValue), cells[i])
    ensures k < |cells| && IsPrefix(KeyOption(key, hasValue), cells[k]) ==>
              Remove(cells, key, hasValue) == cells[..k] + cells[k + 1..]
    ensures k == |cells| ==> Remove(cells, key, hasValue) == cells
  {
    if k > 0 {
      RemoveAt(cells[1..], key, hasValue, k - 1);
      assert cells == [cells[0]] + cells[1..];
    }
  }

  // ----- the edits made for a fragment -----

  /** The header keys a fragment's request manages, in the order they are edited. */
  datatype Keys = Keys(all: seq<string>) {
    /** Colon-free, and none is the beginning of another. */
    predicate Valid() {
      && |all| == 7
      && (forall i | 0 <= i < 7 :: ':' !in all[i])
      && (forall i, j | 0 <= i < 7 && 0 <= j < 7 && i != j :: !IsPrefix(all[i], all[j]))
    }
  }

  const DATA_DIR: nat := 0
  const DATA_FRAGMENT: nat := 1
  const METADATA: nat := 2
  const INDEX: nat := 3
  const LAST: nat := 4
  const USER_DATA: nat := 5
  const PROFILE: nat := 6

  const PXF_KEYS := Keys(["X-GP-DATA-DIR", "X-GP-DATA-FRAGMENT", "X-GP-FRAGMENT-METADATA", "X-GP-FRAGMENT-INDEX",
                          "X-GP-LAST-FRAGMENT", "X-GP-FRAGMENT-USER-DATA", "X-GP-PROFILE"])

  /** What happens to one key's cells. */
  datatype Edit = Set(value: Option<string>) | Drop | Keep

  function ApplyEdit(cells: seq<string>, key: string, edit: Edit): seq<string> {
    match edit
    case Set(value) => Override(cells, key, value)
    case Drop => Remove(cells, key, true)
    case Keep => cells
  }

  /** One edit for each key. */
  type EditList = e: seq<Edit> | |e| == 7 witness [Keep, Keep, Keep, Keep, Keep, Keep, Keep]

  function Edits(f: FragmentData, count: nat): EditList {
    [Set(f.source), Set(f.index), Set(f.metadata), Set(f.index),
     if f.fragmentIdx == count then Set(Some("true")) else Keep,
     if f.userData.Some? then Set(f.userData) else Drop,
     if f.profile.Some? then Set(f.profile) else Keep]
  }

  /** The edits of the first n keys. */
  function EditTo(k: Keys, cells: seq<string>, edits: seq<Edit>, n: nat): seq<string>
    requires n <= |edits| == |k.all|
  {
    if n == 0 then cells else ApplyEdit(EditTo(k, cells, edits, n - 1), k.all[n - 1], edits[n - 1])
  }

  function EditAll(k: Keys, cells: seq<string>, edits: seq<Edit>): seq<string>
    requires |edits| == |k.all|
  {
    EditTo(k, cells, edits, |edits|)
  }

  class HeaderList {
    var cells: seq<string>

    constructor (cells: seq<string>)
      ensures this.cells == cells
    {
      this.cells := cells;
    }

    /** Walks the cells to the first that starts with the prefix. */
    method Search(prefix: string) returns (k: nat)
      ensures k <= |cells|
      ensures k < |cells| ==> IsPrefix(prefix, cells[k])
      ensures forall i | 0 <= i < k :: !IsPrefix(prefix, cells[i])
    {
      k := 0;
      while k < |cells|
        invariant k <= |cells|
        invariant forall i | 0 <= i < k :: !IsPrefix(prefix, cells[i])
      {
        if prefix <= cells[k] {
          return;
        }
        k := k + 1;
      }
    }

    method HeadersOverride(key: string, value: Option<string>)
      modifies this
      ensures cells == Override(old(cells), key, value)
      ensures ':' !in key && value.Some? ==> forall name ::
                ReadValues(cells, name) == if name == key then FirstSet(ReadValues(old(cells), key), value.value)
                                           else ReadValues(old(cells), name)
    {
      if ':' !in key && value.Some? {
        forall name {
          OverrideReads(cells, key, value.value, name);
        }
      }
      var k := Search(KeyOption(key, value.Some?));
      OverrideAt(cells, key, value, k);
      if k < |cells| {
        cells := cells[k := Cell(key, value)];
      } else {
        cells := cells + [Cell(key, value)];
      }
    }

    method HeadersRemove(key: string, hasValue: bool)
      modifies this
      ensures cells == Remove(old(cells), key, hasValue)
      ensures ':' !in key && hasValue ==> forall name ::
                ReadValues(cells, name) == if name == key then FirstDropped(ReadValues(old(cells), key))
                                           else ReadValues(old(cells), name)
    {
      if ':' !in key && hasValue {
        forall name {
          RemoveReads(cells, key, name);
        }
      }
      var k := Search(KeyOption(key, hasValue));
      RemoveAt(cells, key, hasValue, k);
      if k < |cells| {
        cells := cells[..k] + cells[k + 1..];
      }
    }

    /** The four headers that are always overridden. */
    method SetLocation(k: Keys, f: FragmentData, ghost edits: seq<Edit>)
      requires |k.all| == |edits| == 7
      requires edits[0] == Set(f.source) && edits[1] == Set(f.index) && edits[2] == Set(f.metadata) &&
               edits[3] == Set(f.index)
      modifies this
      ensures cells == EditTo(k, old(cells), edits, 4)
    {
      HeadersOverride(k.all[DATA_DIR], f.source);
      assert cells == EditTo(k, old(cells), edits, 1);
      HeadersOverride(k.all[DATA_FRAGMENT], f.index);
      assert cells == EditTo(k, old(cells), edits, 2);
      HeadersOverride(k.all[METADATA], f.metadata);
      assert cells == EditTo(k, old(cells), edits, 3);
      HeadersOverride(k.all[INDEX], f.index);
    }

    /** The three headers whose treatment depends on the fragment. */
    method SetOptional(k: Keys, f: FragmentData, count: nat, ghost before: seq<string>, ghost edits: seq<Edit>)
      requires |k.all| == 7 && edits == Edits(f, count) && cells == EditTo(k, before, edits, 4)
      modifies this
      ensures cells == EditTo(k, before, edits, 7)
    {
      if f.fragmentIdx == count {
        HeadersOverride(k.all[LAST], Some("true"));
      }
      assert cells == EditTo(k, before, edits, 5);
      if f.userData.Some? {
        HeadersOverride(k.all[USER_DATA], f.userData);
      } else {
        HeadersRemove(k.all[USER_DATA], true);
      }
      assert cells == EditTo(k, before, edits, 6);
      if f.profile.Some? {
        HeadersOverride(k.all[PROFILE], f.profile);
      }
    }

    method SetCurrentFragmentHeaders(k: Keys, f: FragmentData, count: nat)
      requires |k.all| == 7
      modifies this
      ensures cells == EditAll(k, old(cells), Edits(f, count))
    {
      ghost var before, edits := cells, Edits(f, count);
      SetLocation(k, f, edits);
      SetOptional(k, f, count, before, edits);
    }
  }

  // ----- selections of cells -----

  function Select(cells: seq<string>, p: string -> bool): seq<string> {
    if cells == [] then [] else (if p(cells[0]) then [cells[0]] else []) + Select(cells[1..], p)
  }

  predicate IsFor(cell: string, key: string) {
    IsPrefix(key + ":", cell)
  }

  function Near(key: string): string -> bool {
    cell => IsPrefix(key, cell)
  }

  function NearNone(keys: seq<string>): string -> bool {
    cell => forall k <- keys :: !IsPrefix(k, cell)
  }

  /** The cells that start with a key, bare ones included, in order. */
  function Slot(cells: seq<string>, key: string): seq<string> {
    Select(cells, Near(key))
  }

  /** The cells that start with none of the keys, in order. */
  function Unrelated(cells: seq<string>, keys: seq<string>): seq<string> {
    Select(cells, NearNone(keys))
  }

  lemma IsForIsNear(cell: string, key: string)
    ensures IsFor(cell, key) ==> IsPrefix(key, cell)
  {
    if IsFor(cell, key) {
      assert key <= key + ":" <= cell;
    }
  }

  lemma CellIsNear(key: string, value: Option<string>)
    ensures IsPrefix(key, Cell(key, value)) && (value.Some? <==> IsFor(Cell(key, value), key))
    ensures !IsFor(key, key)
  {
    if value.Some? {
      assert Cell(key, value)[..|key| + 1] == key + ":";
    }
  }

  /** The values of a key are those in its slot. */
  lemma {:induction false} ValuesInSlot(cells: seq<string>, key: string)
    ensures ReadValues(Slot(cells, key), key) == ReadValues(cells, key)
  {
    if cells != [] {
      ValuesInSlot(cells[1..], key);
      var read := ReadCell(cells[0]);
      assert read.Some? && read.value.0 == key ==> IsPrefix(key, cells[0]);
      ReadsFirst(cells[0], Slot(cells[1..], key), key);
      assert [] + Slot(cells[1..], key) == Slot(cells[1..], key);
    }
  }

  lemma ConsTail(c: string, cells: seq<string>)
    ensures ([c] + cells)[0] == c && ([c] + cells)[1..] == cells && [] + cells == cells
  {
  }

  /** An edit of a key edits the key's slot in the same way, */
  lemma {:induction false} EditInSlot(cells: seq<string>, key: string, edit: Edit)
    ensures Slot(ApplyEdit(cells, key, edit), key) == ApplyEdit(Slot(cells, key), key, edit)
  {
    match edit {
      case Set(value) => OverrideInSlot(cells, key, value);
      case Drop => RemoveInSlot(cells, key);
      case Keep =>
    }
  }

  lemma {:induction false} OverrideInSlot(cells: seq<string>, key: string, value: Option<string>)
    ensures Slot(Override(cells, key, value), key) == Override(Slot(cells, key), key, value)
  {
    var cell := Cell(key, value);
    CellIsNear(key, value);
    if cells == [] {
      assert [cell][1..] == [] && [cell] + [] == [cell];
    } else {
      IsForIsNear(cells[0], key);
      ConsTail(cell, cells[1..]);
      ConsTail(cells[0], Slot(cells[1..], key));
      ConsTail(cells[0], Override(cells[1..], key, value));
      OverrideInSlot(cells[1..], key, value);
    }
  }

  lemma {:induction false} RemoveInSlot(cells: seq<string>, key: string)
    ensures Slot(Remove(cells, key, true), key) == Remove(Slot(cells, key), key, true)
  {
    if cells != [] {
      IsForIsNear(cells[0], key);
      ConsTail(cells[0], Slot(cells[1..], key));
      ConsTail(cells[0], Remove(cells[1..], key, true));
      RemoveInSlot(cells[1..], key);
    }
  }

  /** and no selection that leaves the slot out can tell. */
  lemma {:induction false} EditKeepsOthers(cells: seq<string>, key: string, edit: Edit, p: string -> bool)
    requires forall c :: IsPrefix(key, c) ==> !p(c)
    ensures Select(ApplyEdit(cells, key, edit), p) == Select(cells, p)
  {
    match edit {
      case Set(value) => OverrideKeepsOthers(cells, key, value, p);
      case Drop => RemoveKeepsOthers(cells, key, p);
      case Keep =>
    }
  }

  lemma {:induction false} OverrideKeepsOthers(cells: seq<string>, key: string, value: Option<string>,
                                               p: string -> bool)
    requires forall c :: IsPrefix(key, c) ==> !p(c)
    ensures Select(Override(cells, key, value), p) == Select(cells, p)
  {
    var cell := Cell(key, value);
    CellIsNear(key, value);
    if cells == [] {
      assert [cell][1..] == [] && [cell] + [] == [cell];
    } else {
      IsForIsNear(cells[0], key);
      ConsTail(cell, cells[1..]);
      ConsTail(cells[0], Override(cells[1..], key, value));
      OverrideKeepsOthers(cells[1..], key, value, p);
    }
  }

  lemma {:induction false} RemoveKeepsOthers(cells: seq<string>, key: string, p: string -> bool)
    requires forall c :: IsPrefix(key, c) ==> !p(c)
    ensures Select(Remove(cells, key, true), p) == Select(cells, p)
  {
    if cells != [] {
      IsForIsNear(cells[0], key);
      ConsTail(cells[0], Remove(cells[1..], key, true));
      RemoveKeepsOthers(cells[1..], key, p);
    }
  }

  /** A cell starts with at most one of two keys, unless one key is the beginning of the other. */
  lemma OneKeyOnly(cell: string, key: string, other: string)
    requires IsPrefix(key, cell) && IsPrefix(other, cell)
    ensures IsPrefix(key, other) || IsPrefix(other, key)
  {
    assert |key| <= |other| ==> key == cell[..|key|] == other[..|key|];
    assert |other| <= |key| ==> other == cell[..|other|] == key[..|other|];
  }

  lemma OtherSlotIgnores(k: Keys, i: nat, j: nat)
    requires k.Valid() && i < 7 && j < 7 && i != j
    ensures forall c :: IsPrefix(k.all[i], c) ==> !Near(k.all[j])(c)
  {
    forall c | IsPrefix(k.all[i], c)
      ensures !IsPrefix(k.all[j], c)
    {
      if IsPrefix(k.all[j], c) {
        OneKeyOnly(c, k.all[i], k.all[j]);
      }
    }
  }

  /** A fragment's edits reach each key's slot once, and no other cell. */
  lemma {:induction false} EditToInSlot(k: Keys, cells: seq<string>, edits: seq<Edit>, n: nat, j: nat)
    requires k.Valid() && |edits| == 7 && n <= 7 && j < 7
    ensures Slot(EditTo(k, cells, edits, n), k.all[j]) ==
            if j < n then ApplyEdit(Slot(cells, k.all[j]), k.all[j], edits[j]) else Slot(cells, k.all[j])
  {
    if n > 0 {
      var before := EditTo(k, cells, edits, n - 1);
      EditToInSlot(k, cells, edits, n - 1, j);
      if j == n - 1 {
        EditInSlot(before, k.all[j], edits[j]);
      } else {
        OtherSlotIgnores(k, n - 1, j);
        EditKeepsOthers(before, k.all[n - 1], edits[n - 1], Near(k.all[j]));
      }
    }
  }

  lemma {:induction false} EditToKeepsUnrelated(k: Keys, cells: seq<string>, edits: seq<Edit>, n: nat)
    requires k.Valid() && |edits| == 7 && n <= 7
    ensures Unrelated(EditTo(k, cells, edits, n), k.all) == Unrelated(cells, k.all)
  {
    if n > 0 {
      EditToKeepsUnrelated(k, cells, edits, n - 1);
      assert k.all[n - 1] in k.all;
      EditKeepsOthers(EditTo(k, cells, edits, n - 1), k.all[n - 1], edits[n - 1], NearNone(k.all));
    }
  }

  // ----- one key over a scan -----

  /** The edits of every fragment of a scan. */
  type Plan = seq<EditList>

  function PlanOf(fs: seq<FragmentData>): (plan: Plan)
    ensures |plan| == |fs| && forall i | 0 <= i < |fs| :: plan[i] == Edits(fs[i], |fs|)
  {
    seq(|fs|, i requires 0 <= i < |fs| => Edits(fs[i], |fs|))
  }

  /** The header list that the n-th request goes out with. */
  function HeadersAfter(k: Keys, initial: seq<string>, plan: Plan, n: nat): seq<string>
    requires |k.all| == 7 && n <= |plan|
  {
    if n == 0 then initial else EditAll(k, HeadersAfter(k, initial, plan, n - 1), plan[n - 1])
  }

  /** The slot of key j by then: its own edits, one after the other. */
  function SlotAfter(slot: seq<string>, key: string, plan: Plan, j: nat, n: nat): seq<string>
    requires j < 7 && n <= |plan|
  {
    if n == 0 then slot else ApplyEdit(SlotAfter(slot, key, plan, j, n - 1), key, plan[n - 1][j])
  }

  /** One request: each slot gets its edit, and all other cells stay as they are. */
  lemma EditInRequest(k: Keys, cells: seq<string>, edits: seq<Edit>, j: nat)
    requires k.Valid() && |edits| == 7 && j < 7
    ensures Slot(EditAll(k, cells, edits), k.all[j]) == ApplyEdit(Slot(cells, k.all[j]), k.all[j], edits[j])
    ensures Unrelated(EditAll(k, cells, edits), k.all) == Unrelated(cells, k.all)
  {
    EditToInSlot(k, cells, edits, |edits|, j);
    EditToKeepsUnrelated(k, cells, edits, |edits|);
  }

  lemma {:induction false} SlotOfHeaders(k: Keys, initial: seq<string>, plan: Plan, j: nat, n: nat)
    requires k.Valid() && j < 7 && n <= |plan|
    ensures Slot(HeadersAfter(k, initial, plan, n), k.all[j]) ==
            SlotAfter(Slot(initial, k.all[j]), k.all[j], plan, j, n)
  {
    if n > 0 {
      SlotOfHeaders(k, initial, plan, j, n - 1);
      EditInRequest(k, HeadersAfter(k, initial, plan, n - 1), plan[n - 1], j);
    }
  }

  lemma {:induction false} UnrelatedOfHeaders(k: Keys, initial: seq<string>, plan: Plan, n: nat)
    requires k.Valid() && n <= |plan|
    ensures Unrelated(HeadersAfter(k, initial, plan, n), k.all) == Unrelated(initial, k.all)
  {
    if n > 0 {
      UnrelatedOfHeaders(k, initial, plan, n - 1);
      EditInRequest(k, HeadersAfter(k, initial, plan, n - 1), plan[n - 1], 0);
    }
  }

  /** What a fragment has for a header that is always overridden. */
  function Field(f: FragmentData, j: nat): Option<string>
    requires j < 4
  {
    if j == DATA_DIR then f.source else if j == METADATA then f.metadata else f.index
  }

  function Value(fs: seq<FragmentData>, j: nat, i: nat): Option<string>
    requires j < 4 && i < |fs|
  {
    Field(fs[i], j)
  }

  /** One of the first n fragments lacks the value. */
  predicate Missing(fs: seq<FragmentData>, j: nat, n: nat)
    requires j < 4 && n <= |fs|
  {
    exists i | 0 <= i < n :: Value(fs, j, i).None?
  }

  /** The last value, among the first n fragments, that comes after a missing one. */
  function Leftover(fs: seq<FragmentData>, j: nat, n: nat): Option<string>
    requires j < 4 && n <= |fs|
  {
    if n == 0 then None
    else if Value(fs, j, n - 1).Some? && Missing(fs, j, n - 1) then Value(fs, j, n - 1)
    else Leftover(fs, j, n - 1)
  }

  /** At the start: no cell, or one that sets the key. */
  predicate CleanSlot(slot: seq<string>, key: string) {
    slot == [] || (|slot| == 1 && IsFor(slot[0], key))
  }

  /** The first missing value leaves the bare key for good; later values stand behind it. */
  lemma {:induction false} SlotIs(slot: seq<string>, key: string, fs: seq<FragmentData>, j: nat, n: nat)
    requires CleanSlot(slot, key) && j < 4 && 1 <= n <= |fs|
    ensures SlotAfter(slot, key, PlanOf(fs), j, n) ==
            Form(key, Missing(fs, j, n), Leftover(fs, j, n), Value(fs, j, n - 1))
  {
    var value := Value(fs, j, n - 1);
    var before := SlotAfter(slot, key, PlanOf(fs), j, n - 1);
    assert PlanOf(fs)[n - 1][j] == Set(value);
    MissingGrows(fs, j, n - 1);
    if n == 1 {
      OverrideClean(before, key, value);
    } else {
      SlotIs(slot, key, fs, j, n - 1);
      if !Missing(fs, j, n - 1) {
        LeftoverNeedsMissing(fs, j, n - 1);
      }
      OverrideForm(key, Missing(fs, j, n - 1), Leftover(fs, j, n - 1), Value(fs, j, n - 2), value);
    }
  }

  /** The forms of a slot: one cell, the bare key, or the bare key and a cell behind it. */
  function Form(key: string, missing: bool, left: Option<string>, last: Option<string>): seq<string> {
    if !missing then [Cell(key, last)] else if left.None? then [key] else [key, Cell(key, left)]
  }

  lemma OverrideForm(key: string, missing: bool, left: Option<string>, last: Option<string>, value: Option<string>)
    requires !missing ==> last.Some? && left.None?
    ensures Override(Form(key, missing, left, last), key, value) ==
            Form(key, missing || value.None?, if missing && value.Some? then value else left, value)
  {
    if !missing {
      CellIsNear(key, last);
      OverrideClean([Cell(key, last)], key, value);
    } else if left.None? {
      OverrideBare(key, value);
    } else {
      OverrideBehindBare(key, left.value, value);
    }
  }

  lemma MissingGrows(fs: seq<FragmentData>, j: nat, n: nat)
    requires j < 4 && n < |fs|
    ensures Missing(fs, j, n + 1) <==> Missing(fs, j, n) || Value(fs, j, n).None?
  {
  }

  lemma {:induction false} LeftoverNeedsMissing(fs: seq<FragmentData>, j: nat, n: nat)
    requires j < 4 && n <= |fs| && !Missing(fs, j, n)
    ensures Leftover(fs, j, n) == None
  {
    if n > 0 {
      MissingGrows(fs, j, n - 1);
      LeftoverNeedsMissing(fs, j, n - 1);
    }
  }

  lemma OverrideClean(slot: seq<string>, key: string, value: Option<string>)
    requires CleanSlot(slot, key)
    ensures Override(slot, key, value) == [Cell(key, value)]
  {
    if slot != [] {
      IsForIsNear(slot[0], key);
      assert slot[1..] == [];
    }
  }

  /** A value does not find the bare key, a missing value does; */
  lemma OverrideBare(key: string, value: Option<string>)
    ensures Override([key], key, value) == if value.Some? then [key, Cell(key, value)] else [key]
  {
    CellIsNear(key, value);
    assert [key][1..] == [];
  }

  /** and then a later missing value leaves the value behind it alone. */
  lemma OverrideBehindBare(key: string, old': string, value: Option<string>)
    ensures var slot := [key, Cell(key, Some(old'))];
            Override(slot, key, value) == if value.Some? then [key, Cell(key, value)] else slot
  {
    var cell := Cell(key, Some(old'));
    CellIsNear(key, Some(old'));
    assert [key, cell][1..] == [cell] && [cell][1..] == [];
    assert [key] + [cell] == [key, cell];
  }

  /** A value stands between two missing ones, the later being fragment n's. */
  predicate Interrupted(fs: seq<FragmentData>, j: nat, n: nat)
    requires j < 4 && 1 <= n <= |fs|
  {
    && Value(fs, j, n - 1).None?
    && exists a, b | 0 <= a < b < n - 1 :: Value(fs, j, a).None? && Value(fs, j, b).Some?
  }

  lemma {:induction false} LeftoverIff(fs: seq<FragmentData>, j: nat, n: nat)
    requires j < 4 && n <= |fs|
    ensures Leftover(fs, j, n).Some? <==> exists a, b | 0 <= a < b < n :: Value(fs, j, a).None? && Value(fs, j, b).Some?
  {
    if n > 0 {
      LeftoverIff(fs, j, n - 1);
      if Value(fs, j, n - 1).Some? && Missing(fs, j, n - 1) {
        var a :| 0 <= a < n - 1 && Value(fs, j, a).None?;
        assert Value(fs, j, a).None? && Value(fs, j, n - 1).Some?;
      } else if a, b :| 0 <= a < b < n && Value(fs, j, a).None? && Value(fs, j, b).Some? {
        assert b == n - 1 ==> Missing(fs, j, n - 1);
      }
    }
  }

  /** One cell with the value, or none without. */
  function Wanted(key: string, value: Option<string>): seq<string> {
    if value.Some? then [Cell(key, value)] else []
  }

  lemma ShortReads(key: string, value: Option<string>)
    requires ':' !in key
    ensures ReadValues([Cell(key, value)], key) == Said(value)
    ensures ReadValues([key], key) == []
    ensures ReadValues([key, Cell(key, value)], key) == Said(value)
  {
    var cell := Cell(key, value);
    BareKeyIsUnread(key);
    if value.Some? {
      CellReadsBack(key, value.value);
    }
    ReadsFirst(cell, [], key);
    ReadsFirst(key, [], key);
    ReadsFirst(key, [cell], key);
    assert [key] + [cell] == [key, cell] && [cell] + [] == [cell] && [key] + [] == [key];
  }

  /**
   At request n a key says what the fragment says if and only if no value stands between two
   missing ones of which the later is the fragment's.
   */
  lemma KeyDescribesIff(k: Keys, initial: seq<string>, fs: seq<FragmentData>, j: nat, n: nat)
    requires k.Valid() && j < 4 && 1 <= n <= |fs| && CleanSlot(Slot(initial, k.all[j]), k.all[j])
    ensures ReadValues(HeadersAfter(k, initial, PlanOf(fs), n), k.all[j]) == Said(Value(fs, j, n - 1)) <==>
            !Interrupted(fs, j, n)
  {
    var key, slot := k.all[j], Slot(initial, k.all[j]);
    SlotOfHeaders(k, initial, PlanOf(fs), j, n);
    ValuesInSlot(HeadersAfter(k, initial, PlanOf(fs), n), key);
    SlotIs(slot, key, fs, j, n);
    SlotSays(SlotAfter(slot, key, PlanOf(fs), j, n), key, fs, j, n);
  }

  lemma SlotSays(after: seq<string>, key: string, fs: seq<FragmentData>, j: nat, n: nat)
    requires j < 4 && 1 <= n <= |fs|
    requires ':' !in key && after == Form(key, Missing(fs, j, n), Leftover(fs, j, n), Value(fs, j, n - 1))
    ensures ReadValues(after, key) == Said(Value(fs, j, n - 1)) <==> !Interrupted(fs, j, n)
  {
    MissingGrows(fs, j, n - 1);
    LeftoverIff(fs, j, n - 1);
    FormSays(key, Missing(fs, j, n), Leftover(fs, j, n), Value(fs, j, n - 1));
    if !Missing(fs, j, n - 1) {
      LeftoverNeedsMissing(fs, j, n - 1);
    }
  }

  lemma FormSays(key: string, missing: bool, left: Option<string>, last: Option<string>)
    requires ':' !in key
    ensures ReadValues(Form(key, missing, left, last), key) == Said(if missing then left else last)
  {
    ShortReads(key, last);
    ShortReads(key, left);
  }

  /** Null, "v", null: the third request still carries the second fragment's value. */
  lemma StaleValueIsSent(key: string, v: string)
    requires ':' !in key
    ensures var cells := Override(Override(Override([], key, None), key, Some(v)), key, None);
            cells == [key, Cell(key, Some(v))] && ReadValues(cells, key) == [v]
  {
    OverrideBare(key, Some(v));
    OverrideBehindBare(key, v, None);
    ShortReads(key, Some(v));
  }

  /**
   On any list with at most one value for the key, overriding it without a value leaves none if
   and only if there was none or it is in the first cell that starts with the key.
   */
  lemma {:induction false} MissingValueClearsIff(cells: seq<string>, key: string)
    requires ':' !in key && |ReadValues(cells, key)| <= 1
    ensures ReadValues(Override(cells, key, None), key) == [] <==>
            ReadValues(cells, key) == [] || (Slot(cells, key) != [] && ReadValues([Slot(cells, key)[0]], key) != [])
  {
    BareKeyIsUnread(key);
    if cells == [] {
      ReadsFirst(key, [], key);
    } else {
      var later := cells[1..];
      FoundIsRead(cells[0], key);
      IsForIsNear(cells[0], key);
      ReadsFirst(key, later, key);
      ReadsFirst(cells[0], Override(later, key, None), key);
      ReadsFirst(cells[0], [], key);
      ConsTail(cells[0], Slot(later, key));
      assert [cells[0]] + [] == [cells[0]];
      if !IsPrefix(key, cells[0]) {
        MissingValueClearsIff(later, key);
      }
    }
  }

  // ----- the other keys -----

  lemma {:induction false} UserSlot(slot: seq<string>, key: string, fs: seq<FragmentData>, n: nat)
    requires CleanSlot(slot, key) && n <= |fs|
    ensures n >= 1 ==> SlotAfter(slot, key, PlanOf(fs), USER_DATA, n) == Wanted(key, fs[n - 1].userData)
  {
    if n > 0 {
      var before := SlotAfter(slot, key, PlanOf(fs), USER_DATA, n - 1);
      UserSlot(slot, key, fs, n - 1);
      if n > 1 {
        CellIsNear(key, fs[n - 2].userData);
      }
      assert CleanSlot(before, key);
      if fs[n - 1].userData.Some? {
        OverrideClean(before, key, fs[n - 1].userData);
      } else {
        assert before != [] ==> before[1..] == [];
      }
    }
  }

  predicate Numbered(fs: seq<FragmentData>) {
    forall i | 0 <= i < |fs| :: fs[i].fragmentIdx == i + 1
  }

  lemma {:induction false} LastSlot(key: string, fs: seq<FragmentData>, n: nat)
    requires Numbered(fs) && n <= |fs|
    ensures SlotAfter([], key, PlanOf(fs), LAST, n) == if n == |fs| > 0 then [Cell(key, Some("true"))] else []
  {
    if n > 0 {
      LastSlot(key, fs, n - 1);
      assert PlanOf(fs)[n - 1][LAST] == if n == |fs| then Set(Some("true")) else Keep;
    }
  }

  /** The last profile among the first n fragments. */
  function LatestProfile(fs: seq<FragmentData>, n: nat): Option<string>
    requires n <= |fs|
  {
    if n == 0 then None else if fs[n - 1].profile.Some? then fs[n - 1].profile else LatestProfile(fs, n - 1)
  }

  lemma {:induction false} ProfileSlot(slot: seq<string>, key: string, fs: seq<FragmentData>, n: nat)
    requires CleanSlot(slot, key) && n <= |fs|
    ensures SlotAfter(slot, key, PlanOf(fs), PROFILE, n) ==
            if LatestProfile(fs, n).Some? then [Cell(key, LatestProfile(fs, n))] else slot
  {
    if n > 0 {
      ProfileSlot(slot, key, fs, n - 1);
      CellIsNear(key, LatestProfile(fs, n - 1));
      if fs[n - 1].profile.Some? {
        OverrideClean(SlotAfter(slot, key, PlanOf(fs), PROFILE, n - 1), key, fs[n - 1].profile);
      }
    }
  }

  /** A list to start from: one cell at most for each key, and no last mark. */
  predicate Ready(k: Keys, initial: seq<string>)
    requires |k.all| == 7
  {
    && (forall j | 0 <= j < 7 :: CleanSlot(Slot(initial, k.all[j]), k.all[j]))
    && Slot(initial, k.all[LAST]) == []
  }

  lemma OptionalCells(k: Keys, initial: seq<string>, fs: seq<FragmentData>, n: nat, cells: seq<string>)
    requires k.Valid() && Ready(k, initial) && Numbered(fs) && 1 <= n <= |fs| &&
             cells == HeadersAfter(k, initial, PlanOf(fs), n)
    ensures ReadValues(cells, k.all[USER_DATA]) == Said(fs[n - 1].userData)
    ensures ReadValues(cells, k.all[LAST]) == if n == |fs| then ["true"] else []
  {
    var user, last := k.all[USER_DATA], k.all[LAST];
    SlotOfHeaders(k, initial, PlanOf(fs), USER_DATA, n);
    UserSlot(Slot(initial, user), user, fs, n);
    ValuesInSlot(cells, user);
    ShortReads(user, fs[n - 1].userData);
    SlotOfHeaders(k, initial, PlanOf(fs), LAST, n);
    LastSlot(last, fs, n);
    ValuesInSlot(cells, last);
    ShortReads(last, Some("true"));
  }

  /** The profile a request carries: the latest of the fragments so far, or the initial one. */
  lemma ProfileIsLatest(k: Keys, initial: seq<string>, fs: seq<FragmentData>, n: nat)
    requires k.Valid() && Ready(k, initial) && n <= |fs|
    ensures ReadValues(HeadersAfter(k, initial, PlanOf(fs), n), k.all[PROFILE]) ==
            if LatestProfile(fs, n).Some? then [LatestProfile(fs, n).value] else ReadValues(initial, k.all[PROFILE])
  {
    var key := k.all[PROFILE];
    SlotOfHeaders(k, initial, PlanOf(fs), PROFILE, n);
    ProfileSlot(Slot(initial, key), key, fs, n);
    ValuesInSlot(HeadersAfter(k, initial, PlanOf(fs), n), key);
    ValuesInSlot(initial, key);
    ShortReads(key, LatestProfile(fs, n));
  }

  /** It is the fragment's own exactly when the fragment has one or no earlier one is left over. */
  lemma ProfileIsOwnIff(k: Keys, initial: seq<string>, fs: seq<FragmentData>, n: nat)
    requires k.Valid() && Ready(k, initial) && 1 <= n <= |fs| && Slot(initial, k.all[PROFILE]) == []
    ensures ReadValues(HeadersAfter(k, initial, PlanOf(fs), n), k.all[PROFILE]) == Said(fs[n - 1].profile) <==>
            fs[n - 1].profile.Some? || forall i | 0 <= i < n :: fs[i].profile.None?
  {
    ProfileIsLatest(k, initial, fs, n);
    ValuesInSlot(initial, k.all[PROFILE]);
    LatestIff(fs, n);
  }

  lemma {:induction false} LatestIff(fs: seq<FragmentData>, n: nat)
    requires n <= |fs|
    ensures LatestProfile(fs, n).None? <==> forall i | 0 <= i < n :: fs[i].profile.None?
  {
    if n > 0 {
      LatestIff(fs, n - 1);
    }
  }

  // ----- every request of a scan -----

  /** The four headers that are always overridden say what the fragment says. */
  predicate Locates(k: Keys, cells: seq<string>, f: FragmentData)
    requires |k.all| == 7
  {
    forall j | 0 <= j < 4 :: ReadValues(cells, k.all[j]) == Said(Field(f, j))
  }

  /** The request's headers say exactly what the fragment says; an absent value has no cell. */
  predicate Describes(k: Keys, cells: seq<string>, f: FragmentData, isLast: bool)
    requires |k.all| == 7
  {
    && Locates(k, cells, f)
    && ReadValues(cells, k.all[LAST]) == (if isLast then ["true"] else [])
    && ReadValues(cells, k.all[USER_DATA]) == Said(f.userData)
  }

  /** Every value of fragment n is sent as it is. */
  predicate Undisturbed(fs: seq<FragmentData>, n: nat)
    requires 1 <= n <= |fs|
  {
    forall j | 0 <= j < 4 :: !Interrupted(fs, j, n)
  }

  /** The n-th request describes the n-th fragment. */
  predicate DescribedAt(k: Keys, initial: seq<string>, fs: seq<FragmentData>, n: nat)
    requires |k.all| == 7 && 1 <= n <= |fs|
  {
    Describes(k, HeadersAfter(k, initial, PlanOf(fs), n), fs[n - 1], n == |fs|)
  }

  /**
   Request n describes fragment n if and only if none of its missing values comes after a value
   that itself comes after a missing one; all unrelated cells keep their values and order.
   */
  lemma RequestDescribesIff(k: Keys, initial: seq<string>, fs: seq<FragmentData>, n: nat)
    requires k.Valid() && Ready(k, initial) && Numbered(fs) && 1 <= n <= |fs|
    ensures DescribedAt(k, initial, fs, n) <==> Undisturbed(fs, n)
    ensures Unrelated(HeadersAfter(k, initial, PlanOf(fs), n), k.all) == Unrelated(initial, k.all)
  {
    var cells := HeadersAfter(k, initial, PlanOf(fs), n);
    LocatesIff(k, initial, fs, n, cells);
    OptionalCells(k, initial, fs, n, cells);
    UnrelatedOfHeaders(k, initial, PlanOf(fs), n);
  }

  lemma LocatesIff(k: Keys, initial: seq<string>, fs: seq<FragmentData>, n: nat, cells: seq<string>)
    requires k.Valid() && Ready(k, initial) && 1 <= n <= |fs| && cells == HeadersAfter(k, initial, PlanOf(fs), n)
    ensures Locates(k, cells, fs[n - 1]) <==> Undisturbed(fs, n)
  {
    forall j | 0 <= j < 4
      ensures ReadValues(cells, k.all[j]) == Said(Field(fs[n - 1], j)) <==> !Interrupted(fs, j, n)
    {
      KeyDescribesIff(k, initial, fs, j, n);
    }
  }

  /** No value stands between two missing ones. */
  predicate Steady(fs: seq<FragmentData>, j: nat)
    requires j < 4
  {
    forall a, b, c | 0 <= a < b < c < |fs| :: !(Value(fs, j, a).None? && Value(fs, j, b).Some? && Value(fs, j, c).None?)
  }

  lemma SteadyIff(fs: seq<FragmentData>, j: nat)
    requires j < 4
    ensures Steady(fs, j) <==> forall n | 1 <= n <= |fs| :: !Interrupted(fs, j, n)
  {
    if !Steady(fs, j) {
      var a, b, c :| 0 <= a < b < c < |fs| && Value(fs, j, a).None? && Value(fs, j, b).Some? && Value(fs, j, c).None?;
      assert Interrupted(fs, j, c + 1);
    } else {
      forall n | 1 <= n <= |fs|
        ensures !Interrupted(fs, j, n)
      {
      }
    }
  }

  lemma UndisturbedIff(fs: seq<FragmentData>)
    ensures (forall n | 1 <= n <= |fs| :: Undisturbed(fs, n)) <==> forall j | 0 <= j < 4 :: Steady(fs, j)
  {
    forall j | 0 <= j < 4
      ensures Steady(fs, j) <==> forall n | 1 <= n <= |fs| :: !Interrupted(fs, j, n)
    {
      SteadyIff(fs, j);
    }
    if forall n | 1 <= n <= |fs| :: Undisturbed(fs, n) {
      forall j, n | 0 <= j < 4 && 1 <= n <= |fs|
        ensures !Interrupted(fs, j, n)
      {
        assert Undisturbed(fs, n);
      }
    } else {
      var n :| 1 <= n <= |fs| && !Undisturbed(fs, n);
      var j :| 0 <= j < 4 && Interrupted(fs, j, n);
      assert !Steady(fs, j);
    }
  }

  /** All requests of a scan describe their fragments exactly when every field is steady. */
  lemma EveryRequestDescribesIff(k: Keys, initial: seq<string>, fs: seq<FragmentData>)
    requires k.Valid() && Ready(k, initial) && Numbered(fs)
    ensures (forall n | 1 <= n <= |fs| :: DescribedAt(k, initial, fs, n)) <==> forall j | 0 <= j < 4 :: Steady(fs, j)
  {
    forall n | 1 <= n <= |fs|
      ensures DescribedAt(k, initial, fs, n) <==> Undisturbed(fs, n)
    {
      RequestDescribesIff(k, initial, fs, n);
    }
    UndisturbedIff(fs);
  }

  // ----- what the server reads -----

  /**
   What decides the answer to a request: the values of the keys that select the data, in the
   order of the keys, and all other cells. Bare keys are no headers, and the last mark only tells the
   server to release its session afterwards.
   */
  datatype Request = Request(location: seq<seq<string>>, userData: seq<string>, profile: seq<string>,
                             others: seq<string>)

  function ReadRequest(k: Keys, cells: seq<string>): Request
    requires |k.all| == 7
  {
    Request(seq(4, j requires 0 <= j < 4 => ReadValues(cells, k.all[j])),
            ReadValues(cells, k.all[USER_DATA]), ReadValues(cells, k.all[PROFILE]), Unrelated(cells, k.all))
  }

  /** The request that says what the fragment says, and otherwise what the scan started with. */
  function OwnRequest(k: Keys, initial: seq<string>, f: FragmentData): Request
    requires |k.all| == 7
  {
    Request(seq(4, j requires 0 <= j < 4 => Said(Field(f, j))), Said(f.userData),
            if f.profile.Some? then Said(f.profile) else ReadValues(initial, k.all[PROFILE]),
            Unrelated(initial, k.all))
  }

  /** The profile at request n is the fragment's, or it has none and the initial one is in force. */
  predicate ProfileHolds(k: Keys, initial: seq<string>, fs: seq<FragmentData>, n: nat)
    requires |k.all| == 7 && 1 <= n <= |fs|
  {
    || fs[n - 1].profile.Some?
    || LatestProfile(fs, n).None?
    || [LatestProfile(fs, n).value] == ReadValues(initial, k.all[PROFILE])
  }

  /** Request n asks for fragment n exactly when nothing of an earlier fragment is left over. */
  lemma RequestIsOwnIff(k: Keys, initial: seq<string>, fs: seq<FragmentData>, n: nat)
    requires k.Valid() && Ready(k, initial) && Numbered(fs) && 1 <= n <= |fs|
    ensures ReadRequest(k, HeadersAfter(k, initial, PlanOf(fs), n)) == OwnRequest(k, initial, fs[n - 1]) <==>
            Undisturbed(fs, n) && ProfileHolds(k, initial, fs, n)
  {
    var cells, f := HeadersAfter(k, initial, PlanOf(fs), n), fs[n - 1];
    LocatesIff(k, initial, fs, n, cells);
    OptionalCells(k, initial, fs, n, cells);
    UnrelatedOfHeaders(k, initial, PlanOf(fs), n);
    ProfileIsLatest(k, initial, fs, n);
    LocationIff(k, cells, initial, f);
  }

  lemma LocationIff(k: Keys, cells: seq<string>, initial: seq<string>, f: FragmentData)
    requires |k.all| == 7
    ensures ReadRequest(k, cells).location == OwnRequest(k, initial, f).location <==> Locates(k, cells, f)
  {
    var read, own := ReadRequest(k, cells).location, OwnRequest(k, initial, f).location;
    assert forall j | 0 <= j < 4 :: read[j] == ReadValues(cells, k.all[j]) && own[j] == Said(Field(f, j));
    assert read == own <==> forall j | 0 <= j < 4 :: read[j] == own[j];
  }

  // ----- the keys -----

  lemma PxfKeysValid()
    ensures PXF_KEYS.Valid()
  {
    forall i | 0 <= i < 7
      ensures ':' !in PXF_KEYS.all[i]
    {
      KeyIsPlain(PXF_KEYS.all[i], i);
    }
    forall i, j | 0 <= i < 7 && 0 <= j < 7 && i != j
      ensures !IsPrefix(PXF_KEYS.all[i], PXF_KEYS.all[j])
    {
      KeysDiffer(PXF_KEYS.all[i], PXF_KEYS.all[j], i, j);
    }
  }

  lemma KeyIsPlain(key: string, i: nat)
    requires i < 7 && key == PXF_KEYS.all[i]
    ensures ':' !in key
  {
    if i == 0 {
      assert key == "X-GP-DATA-DIR";
    } else if i == 1 {
      assert key == "X-GP-DATA-FRAGMENT";
    } else if i == 2 {
      assert key == "X-GP-FRAGMENT-METADATA";
    } else if i == 3 {
      assert key == "X-GP-FRAGMENT-INDEX";
    } else if i == 4 {
      assert key == "X-GP-LAST-FRAGMENT";
    } else if i == 5 {
      assert key == "X-GP-FRAGMENT-USER-DATA";
    } else {
      assert key == "X-GP-PROFILE";
    }
  }

  /** A few letters tell the keys apart, also where one is longer. */
  lemma KeyLetters(key: string, i: nat)
    requires i < 7 && key == PXF_KEYS.all[i]
    ensures |key| >= 12
    ensures key[5] == (if i < 2 then 'D' else if i == 4 then 'L' else if i == 6 then 'P' else 'F')
    ensures |key| > 14 || i == 0 || i == 6
    ensures i == 0 ==> key[10] == 'D'
    ensures i == 1 ==> key[10] == 'F'
    ensures i == 2 ==> key[14] == 'M'
    ensures i == 3 ==> key[14] == 'I'
    ensures i == 5 ==> key[14] == 'U'
  {
  }

  lemma KeysDiffer(key: string, other: string, i: nat, j: nat)
    requires i < 7 && j < 7 && i != j && key == PXF_KEYS.all[i] && other == PXF_KEYS.all[j]
    ensures !IsPrefix(key, other)
  {
    KeyLetters(key, i);
    KeyLetters(other, j);
  }

  /** The names under which the wrapper's request says what its fragment says. */
  lemma RequestSaysFragment(initial: seq<string>, fs: seq<FragmentData>, n: nat, cells: seq<string>, f: FragmentData)
    requires PXF_KEYS.Valid() && Ready(PXF_KEYS, initial) && Numbered(fs) && 1 <= n <= |fs| && Undisturbed(fs, n)
    requires cells == HeadersAfter(PXF_KEYS, initial, PlanOf(fs), n) && f == fs[n - 1]
    ensures ReadValues(cells, "X-GP-DATA-DIR") == Said(f.source)
    ensures ReadValues(cells, "X-GP-DATA-FRAGMENT") == ReadValues(cells, "X-GP-FRAGMENT-INDEX") == Said(f.index)
    ensures ReadValues(cells, "X-GP-FRAGMENT-METADATA") == Said(f.metadata)
    ensures ReadValues(cells, "X-GP-FRAGMENT-USER-DATA") == Said(f.userData)
    ensures ReadValues(cells, "X-GP-LAST-FRAGMENT") == if n == |fs| then ["true"] else []
    ensures f.profile.Some? ==> ReadValues(cells, "X-GP-PROFILE") == Said(f.profile)
  {
    RequestDescribesIff(PXF_KEYS, initial, fs, n);
    ProfileIsLatest(PXF_KEYS, initial, fs, n);
    assert ReadValues(cells, PXF_KEYS.all[0]) == Said(Field(f, 0));
    assert ReadValues(cells, PXF_KEYS.all[1]) == Said(Field(f, 1));
    assert ReadValues(cells, PXF_KEYS.all[2]) == Said(Field(f, 2));
    assert ReadValues(cells, PXF_KEYS.all[3]) == Said(Field(f, 3));
  }
}

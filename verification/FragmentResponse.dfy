/**
 The fragmenter's JSON response, read by an event-driven state machine: the parser reports
 field names, scalars and array elements, and handlers fill in the list of fragments.
 */
module FragmentResponse {
  import opened Decimal
  import opened Fragments

  // ----- documents and the events the JSON parser reports for them -----

  datatype Json =
    | JNull
    | JBool(b: bool)
    | JNumber(text: string)
    | JString(text: string)
    | JArray(elems: seq<Json>)
    | JObject(fields: seq<Field>)

  datatype Field = Field(name: string, value: Json)

  datatype Token = NullToken | BoolToken | NumberToken | StringToken | ArrayToken | ObjectToken

  datatype Event =
    | FieldStart(name: string, token: Token)
    | Scalar(text: string, token: Token)
    | ElementStart
    | ElementEnd

  function FirstToken(j: Json): Token {
    match j
    case JNull => NullToken
    case JBool(_) => BoolToken
    case JNumber(_) => NumberToken
    case JString(_) => StringToken
    case JArray(_) => ArrayToken
    case JObject(_) => ObjectToken
  }

  function ScalarText(j: Json): string
    requires !j.JArray? && !j.JObject?
  {
    match j
    case JNull => "null"
    case JBool(b) => if b then "true" else "false"
    case JNumber(text) => text
    case JString(text) => text
  }

  function Events(j: Json): seq<Event>
    decreases j, 0
  {
    match j
    case JArray(elems) => ElementEvents(elems, |elems|)
    case JObject(fields) => FieldEvents(fields, |fields|)
    case _ => [Scalar(ScalarText(j), FirstToken(j))]
  }

  /** The events of the first n elements. */
  function ElementEvents(elems: seq<Json>, n: nat): seq<Event>
    requires n <= |elems|
    decreases elems, n
  {
    if n == 0 then []
    else ElementEvents(elems, n - 1) + ([ElementStart] + Events(elems[n - 1]) + [ElementEnd])
  }

  function FieldEvents(fields: seq<Field>, n: nat): seq<Event>
    requires n <= |fields|
    decreases fields, n
  {
    if n == 0 then []
    else FieldEvents(fields,
        n - 1) + ([FieldStart(fields[n - 1].name, FirstToken(fields[n - 1].value))] + Events(fields[n - 1].value))
  }

  // ----- the handlers as a state machine -----

  datatype Mode = StartMode | IndexMode | UserDataMode | ProfileMode | SourceNameMode | MetadataMode | ReplicasMode

  datatype State = State(mode: Mode, fragments: seq<FragmentData>, hasReplicas: bool, depth: int)

  const EMPTY_FRAGMENT := FragmentData(None, None, None, None, None, None, 0)

  function LowerChar(c: char): char {
    if 'A' <= c <= 'Z' then (c as int + 32) as char else c
  }

  /** Field names are compared ignoring ASCII case. */
  function Lower(s: string): string {
    if s == [] then [] else [LowerChar(s[0])] + Lower(s[1..])
  }

  function Capital(k: nat): char
    requires k < 26
  {
    ('A' as int + k) as char
  }

  function Small(k: nat): char
    requires k < 26
  {
    ('a' as int + k) as char
  }

  /** The same character, or the two cases of one letter of the alphabet. */
  predicate SameLetter(c: char, d: char) {
    c == d || exists k | 0 <= k < 26 :: (c == Capital(k) && d == Small(k)) || (c == Small(k) && d == Capital(k))
  }

  lemma FoldedAlike(c: char, d: char)
    ensures LowerChar(c) == LowerChar(d) <==> SameLetter(c, d)
  {
    if c != d && LowerChar(c) == LowerChar(d) {
      var k := LowerChar(c) as int - 'a' as int;
      assert {c, d} == {Capital(k), Small(k)};
    }
  }

  /** t is s with every character folded. */
  predicate Folded(s: string, t: string) {
    |t| == |s| && forall i | 0 <= i < |s| :: t[i] == LowerChar(s[i])
  }

  lemma {:induction false} LowerIsFolded(s: string)
    ensures Folded(s, Lower(s))
  {
    if s != [] {
      LowerIsFolded(s[1..]);
    }
  }

  lemma FoldedOnce(s: string, t: string, u: string)
    requires Folded(s, t) && Folded(s, u)
    ensures t == u
  {
  }

  lemma FoldedSameIff(a: string, b: string, x: string, y: string)
    requires Folded(a, x) && Folded(b, y)
    ensures x == y <==> |a| == |b| && forall i | 0 <= i < |a| :: SameLetter(a[i], b[i])
  {
    forall i | 0 <= i < |a| && i < |b|
      ensures x[i] == y[i] <==> SameLetter(a[i], b[i])
    {
      FoldedAlike(a[i], b[i]);
    }
    if |a| == |b| && forall i | 0 <= i < |a| :: SameLetter(a[i], b[i]) {
      assert forall i | 0 <= i < |x| :: x[i] == y[i];
    }
  }

  /** Two names are taken for one exactly when they differ in nothing but the case of letters. */
  lemma SameNameIff(a: string, b: string)
    ensures Lower(a) == Lower(b) <==> |a| == |b| && forall i | 0 <= i < |a| :: SameLetter(a[i], b[i])
  {
    LowerIsFolded(a);
    LowerIsFolded(b);
    FoldedSameIff(a, b, Lower(a), Lower(b));
  }

  function OnFieldStart(s: State, name: string, token: Token): Option<State> {
    var n := Lower(name);
    match token
    case NumberToken => Some(if n == "index" then s.(mode := IndexMode) else s)
    case StringToken | NullToken =>
      if n == "userdata" then Some(s.(mode := UserDataMode))
      else if n == "sourcename" then Some(s.(mode := SourceNameMode))
      else if n == "metadata" then Some(s.(mode := MetadataMode))
      else if n == "profile" then Some(s.(mode := ProfileMode))
      else None
    case ArrayToken =>
      if n == "pxffragments" then (if s.mode == StartMode then Some(s) else None)
      else if n == "replicas" then Some(s.(mode := ReplicasMode, hasReplicas := false))
      else None
    case _ => Some(s)
  }

  /** The new field value; None is a raised error. */
  function CheckAndAssign(field: Option<string>, text: string, token: Token, expected: Token,
                          nullable: bool): Option<Option<string>> {
    if token == NullToken && nullable then Some(field)
    else if token == expected then Some(Some(text))
    else None
  }

  function OnScalar(s: State, text: string, token: Token): Option<State> {
    if s.fragments == [] then None
    else
      var k := |s.fragments| - 1;
      var d := s.fragments[k];
      match s.mode
      case StartMode => Some(s)
      case ReplicasMode => Some(if token == StringToken then s.(hasReplicas := true) else s)
      case UserDataMode => Update(s, CheckAndAssign(d.userData, text, token, StringToken, true), v => d.(userData := v))
      case MetadataMode => Update(s, CheckAndAssign(d.metadata, text, token, StringToken, true), v => d.(metadata := v))
      case ProfileMode => Update(s, CheckAndAssign(d.profile, text, token, StringToken, true), v => d.(profile := v))
      case SourceNameMode => Update(s, CheckAndAssign(d.source, text, token, StringToken, false), v => d.(source := v))
      case IndexMode => Update(s, CheckAndAssign(d.index, text, token, NumberToken, true), v => d.(index := v))
  }

  function Update(s: State, v: Option<Option<string>>, put: Option<string> -> FragmentData): Option<State>
    requires s.fragments != []
  {
    if v.None? then None else Some(s.(fragments := s.fragments[..|s.fragments| - 1] + [put(v.value)]))
  }

  function OnElementStart(s: State): State {
    if s.depth + 1 > 1 then s.(depth := s.depth + 1)
    else State(StartMode, s.fragments + [EMPTY_FRAGMENT], false, s.depth + 1)
  }

  function OnElementEnd(s: State): State {
    if s.depth - 1 == 0 && !s.hasReplicas &&
        s.fragments != [] then s.(depth := s.depth - 1, fragments := s.fragments[..|s.fragments| - 1])
    else s.(depth := s.depth - 1)
  }

  function Handle(s: State, e: Event): Option<State> {
    match e
    case FieldStart(name, token) => OnFieldStart(s, name, token)
    case Scalar(text, token) => OnScalar(s, text, token)
    case ElementStart => Some(OnElementStart(s))
    case ElementEnd => Some(OnElementEnd(s))
  }

  function HandleAll(s: State, es: seq<Event>): Option<State>
    decreases |es|
  {
    if es == [] then Some(s)
    else match Handle(s, es[0])
      case None => None
      case Some(next) => HandleAll(next, es[1..])
  }

  const INITIAL_STATE := State(StartMode, [], false, 0)

  /** The parser object whose fields the handlers update. */
  class FragmentParser {
    var mode: Mode
    var fragments: seq<FragmentData>
    var hasReplicas: bool
    var depth: int

    function Current(): State
      reads this
    {
      State(mode, fragments, hasReplicas, depth)
    }

    constructor ()
      ensures Current() == INITIAL_STATE
    {
      mode, fragments, hasReplicas, depth := StartMode, [], false, 0;
    }

    method ObjectFieldStart(name: string, token: Token) returns (ok: bool)
      modifies this
      ensures ok <==> old(OnFieldStart(Current(), name, token)).Some?
      ensures ok ==> Some(Current()) == old(OnFieldStart(Current(), name, token))
    {
      var n := Lower(name);
      if token == NumberToken {
        if n == "index" {
          mode := IndexMode;
        }
      } else if token == StringToken || token == NullToken {
        if n == "userdata" {
          mode := UserDataMode;
        } else if n == "sourcename" {
          mode := SourceNameMode;
        } else if n == "metadata" {
          mode := MetadataMode;
        } else if n == "profile" {
          mode := ProfileMode;
        } else {
          return false;
        }
      } else if token == ArrayToken {
        if n == "pxffragments" {
          if mode != StartMode {
            return false;
          }
        } else if n == "replicas" {
          mode, hasReplicas := ReplicasMode, false;
        } else {
          return false;
        }
      }
      return true;
    }

    method ScalarValue(text: string, token: Token) returns (ok: bool)
      modifies this
      ensures ok <==> old(OnScalar(Current(), text, token)).Some?
      ensures ok ==> Some(Current()) == old(OnScalar(Current(), text, token))
    {
      if fragments == [] {
        return false;
      }
      var k := |fragments| - 1;
      var d := fragments[k];
      var v := Some(None);
      match mode {
        case StartMode =>
          return true;
        case ReplicasMode =>
          if token == StringToken {
            hasReplicas := true;
          }
          return true;
        case UserDataMode =>
          v := CheckAndAssign(d.userData, text, token, StringToken, true);
          d := if v.Some? then d.(userData := v.value) else d;
        case MetadataMode =>
          v := CheckAndAssign(d.metadata, text, token, StringToken, true);
          d := if v.Some? then d.(metadata := v.value) else d;
        case ProfileMode =>
          v := CheckAndAssign(d.profile, text, token, StringToken, true);
          d := if v.Some? then d.(profile := v.value) else d;
        case SourceNameMode =>
          v := CheckAndAssign(d.source, text, token, StringToken, false);
          d := if v.Some? then d.(source := v.value) else d;
        case IndexMode =>
          v := CheckAndAssign(d.index, text, token, NumberToken, true);
          d := if v.Some? then d.(index := v.value) else d;
      }
      if v.None? {
        return false;
      }
      fragments := fragments[..k] + [d];
      return true;
    }

    method ArrayElementStart()
      modifies this
      ensures Current() == OnElementStart(old(Current()))
    {
      depth := depth + 1;
      if depth > 1 {
        return;
      }
      fragments := fragments + [EMPTY_FRAGMENT];
      hasReplicas, mode := false, StartMode;
    }

    method ArrayElementEnd()
      modifies this
      ensures Current() == OnElementEnd(old(Current()))
    {
      depth := depth - 1;
      if depth == 0 && !hasReplicas && fragments != [] {
        fragments := fragments[..|fragments| - 1];
      }
    }
  }

  /** Feeds the document's events to the handlers; None when a handler raises an error. */
  method ParseGetFragmentsResponse(doc: Json) returns (r: Option<seq<FragmentData>>)
    ensures r == Outcome(doc)
    ensures Shaped(doc) ==> r == Some(Expected(doc.fields[0].value.elems, |doc.fields[0].value.elems|))
  {
    if Shaped(doc) {
      ResponseIsParsed(doc);
    }
    var events := Events(doc);
    var p := new FragmentParser();
    for i := 0 to |events|
      invariant fresh(p)
      invariant HandleAll(INITIAL_STATE, events) == HandleAll(p.Current(), events[i..])
    {
      assert events[i..][1..] == events[i + 1..];
      var ok := true;
      match events[i] {
        case FieldStart(name, token) => ok := p.ObjectFieldStart(name, token);
        case Scalar(text, token) => ok := p.ScalarValue(text, token);
        case ElementStart => p.ArrayElementStart();
        case ElementEnd => p.ArrayElementEnd();
      }
      if !ok {
        return None;
      }
    }
    return Some(p.fragments);
  }

  // ----- what a document means -----

  predicate IsScalar(j: Json) {
    !j.JArray? && !j.JObject?
  }

  /** A field the response format allows. */
  predicate ShapedField(f: Field) {
    var n := Lower(f.name);
    if n == "index" then f.value.JNumber?
    else if n == "sourcename" then f.value.JString?
    else if n == "replicas" then f.value.JArray? && forall e <- f.value.elems :: IsScalar(e)
    else (n == "userdata" || n == "metadata" || n == "profile") && (f.value.JString? || f.value.JNull?)
  }

  /** A number or truth value under another name, which means nothing to the format. */
  predicate Foreign(f: Field) {
    (f.value.JNumber? || f.value.JBool?) && Lower(f.name) !in {"index", "sourcename", "userdata", "metadata", "profile"}
  }

  /** A string, null or array where the handlers expect none. */
  predicate Raising(f: Field) {
    var n := Lower(f.name);
    || (f.value.JString? && n !in {"userdata", "sourcename", "metadata", "profile"})
    || (f.value.JNull? && n !in {"userdata", "metadata", "profile"})
    || (f.value.JArray? && n !in {"pxffragments", "replicas"})
  }

  predicate LooseField(f: Field) {
    ShapedField(f) || Foreign(f) || Raising(f)
  }

  predicate LooseElement(j: Json) {
    IsScalar(j) || (j.JObject? && forall f <- j.fields :: LooseField(f))
  }

  /** {"PXFFragments": [...]}, every object's fields in any order, repeated, missing or unexpected. */
  predicate Loose(doc: Json) {
    && doc.JObject? && |doc.fields| == 1 && Lower(doc.fields[0].name) == "pxffragments"
    && doc.fields[0].value.JArray?
    && forall e <- doc.fields[0].value.elems :: LooseElement(e)
  }

  /** Without unexpected fields. */
  predicate Shaped(doc: Json) {
    Loose(doc) && forall e <- doc.fields[0].value.elems :: e.JObject? ==> forall f <- e.fields :: ShapedField(f)
  }

  /** The text of the last field of that name that is not null, among the first n. */
  function LastText(fields: seq<Field>, name: string, n: nat): Option<string>
    requires n <= |fields|
  {
    if n == 0 then None
    else
      var f := fields[n - 1];
      if Lower(f.name) == name && (f.value.JString? || f.value.JNumber?) then Some(f.value.text)
      else LastText(fields, name, n - 1)
  }

  /** Whether the last replicas array, among the first n fields, holds a string. */
  predicate Replicated(fields: seq<Field>, n: nat)
    requires n <= |fields|
  {
    n > 0 &&
    var f := fields[n - 1];
    if Lower(f.name) == "replicas" && f.value.JArray? then exists e <- f.value.elems :: e.JString?
    else Replicated(fields, n - 1)
  }

  function Described(fields: seq<Field>, n: nat): FragmentData
    requires n <= |fields|
  {
    FragmentData(None, LastText(fields, "index", n), LastText(fields, "sourcename", n), LastText(fields, "metadata", n),
                 LastText(fields, "userdata", n), LastText(fields, "profile", n), 0)
  }

  /** The fragment that an element describes, if it is replicated. */
  function Meant(e: Json): seq<FragmentData> {
    if e.JObject? && Replicated(e.fields, |e.fields|) then [Described(e.fields, |e.fields|)] else []
  }

  /** The fragments of the first n elements, in document order. */
  function Expected(elems: seq<Json>, n: nat): seq<FragmentData>
    requires n <= |elems|
  {
    if n == 0 then [] else Expected(elems, n - 1) + Meant(elems[n - 1])
  }

  // ----- the handlers compute that meaning -----

  lemma {:induction false} HandleConcat(s: State, a: seq<Event>, b: seq<Event>)
    ensures HandleAll(s, a + b) == match HandleAll(s, a) case None => None case Some(mid) => HandleAll(mid, b)
    decreases |a|
  {
    if a == [] {
      assert a + b == b;
    } else {
      assert (a + b)[1..] == a[1..] + b;
      if Handle(s, a[0]).Some? {
        HandleConcat(Handle(s, a[0]).value, a[1..], b);
      }
    }
  }

  lemma HandleOne(s: State, e: Event)
    ensures HandleAll(s, [e]) == Handle(s, e)
  {
    assert [e][1..] == [];
  }

  lemma HandleTwo(s: State, e: Event, e': Event)
    requires Handle(s, e).Some?
    ensures HandleAll(s, [e] + [e']) == Handle(Handle(s, e).value, e')
  {
    HandleConcat(s, [e], [e']);
    HandleOne(s, e);
    HandleOne(Handle(s, e).value, e');
  }

  /** Inside a replicas array only strings matter. */
  lemma {:induction false} ReplicasHandled(s: State, elems: seq<Json>, n: nat)
    requires s.mode == ReplicasMode && s.depth == 1 && s.fragments != []
    requires n <= |elems| && forall e <- elems :: IsScalar(e)
    ensures HandleAll(s, ElementEvents(elems, n)) ==
            Some(s.(hasReplicas := s.hasReplicas || exists i :: 0 <= i < n && elems[i].JString?))
  {
    if n > 0 {
      ReplicasHandled(s, elems, n - 1);
      var mid := s.(hasReplicas := s.hasReplicas || exists i :: 0 <= i < n - 1 && elems[i].JString?);
      var e := elems[n - 1];
      assert e in elems;
      HandleConcat(s, ElementEvents(elems, n - 1), [ElementStart] + Events(e) + [ElementEnd]);
      ReplicaHandled(mid, e);
    }
  }

  lemma ReplicaHandled(s: State, e: Json)
    requires s.mode == ReplicasMode && s.depth == 1 && s.fragments != [] && IsScalar(e)
    ensures HandleAll(s, [ElementStart] + Events(e) + [ElementEnd]) ==
            Some(s.(hasReplicas := s.hasReplicas || e.JString?))
  {
    var inner := s.(depth := 2);
    HandleConcat(s, [ElementStart] + Events(e), [ElementEnd]);
    HandleTwo(s, ElementStart, Events(e)[0]);
    HandleOne(inner.(hasReplicas := s.hasReplicas || e.JString?), ElementEnd);
  }

  // ----- foreign fields -----

  function FieldMode(f: Field): Mode {
    var n := Lower(f.name);
    if n == "index" then IndexMode
    else if n == "sourcename" then SourceNameMode
    else if n == "userdata" then UserDataMode
    else if n == "metadata" then MetadataMode
    else if n == "profile" then ProfileMode
    else ReplicasMode
  }

  /** The handlers' mode after the first n fields: that of the last field that is not foreign. */
  function ModeAfter(fields: seq<Field>, n: nat): Mode
    requires n <= |fields|
  {
    if n == 0 then StartMode
    else if Foreign(fields[n - 1]) then ModeAfter(fields, n - 1)
    else FieldMode(fields[n - 1])
  }

  /** A foreign field is taken for a value of the field before it, unless that is none or replicas. */
  predicate Tolerated(fields: seq<Field>, i: nat)
    requires i < |fields|
  {
    && !Raising(fields[i])
    && (Foreign(fields[i]) ==>
          var mode := ModeAfter(fields, i);
          mode == StartMode || mode == ReplicasMode || (mode == IndexMode && fields[i].value.JNumber?))
  }

  predicate ToleratedUpTo(fields: seq<Field>, n: nat)
    requires n <= |fields|
  {
    forall i | 0 <= i < n :: Tolerated(fields, i)
  }

  /** The index the handlers end up with. */
  function LeftIndex(fields: seq<Field>, n: nat): Option<string>
    requires n <= |fields|
  {
    if n == 0 then None
    else
      var f := fields[n - 1];
      if f.value.JNumber? &&
          (Lower(f.name) == "index" || (Foreign(f) && ModeAfter(fields, n - 1) == IndexMode)) then Some(f.value.text)
      else LeftIndex(fields, n - 1)
  }

  /** The fragment the handlers end up with. */
  function Read(fields: seq<Field>, n: nat): FragmentData
    requires n <= |fields|
  {
    Described(fields, n).(index := LeftIndex(fields, n))
  }

  function FieldEvent(f: Field): seq<Event> {
    [FieldStart(f.name, FirstToken(f.value))] + Events(f.value)
  }

  /** The state while an element's fields are read. */
  ghost predicate Inside(r: Option<State>, done: seq<FragmentData>, fields: seq<Field>, n: nat)
    requires n <= |fields|
  {
    && r.Some? && r.value.depth == 1 && r.value.mode == ModeAfter(fields, n)
    && r.value.fragments == done + [Read(fields, n)] && r.value.hasReplicas == Replicated(fields, n)
  }

  lemma ShapedIsExpected(f: Field)
    requires ShapedField(f)
    ensures !Foreign(f) && !Raising(f)
  {
  }

  /** An unexpected string, null or array is an error wherever it stands. */
  lemma RaisingHandled(s: State, f: Field)
    requires Raising(f)
    ensures HandleAll(s, FieldEvent(f)) == None
  {
    var start := FieldStart(f.name, FirstToken(f.value));
    if f.value.JNull? && Lower(f.name) == "sourcename" {
      HandleTwo(s, start, Events(f.value)[0]);
    } else {
      assert OnFieldStart(s, f.name, FirstToken(f.value)) == None;
      HandleConcat(s, [start], Events(f.value));
      HandleOne(s, start);
    }
  }

  /** One field of the format updates the fragment being read as the document says. */
  lemma FieldHandled(s: State, done: seq<FragmentData>, fields: seq<Field>, n: nat)
    requires n < |fields| && ShapedField(fields[n]) && Inside(Some(s), done, fields, n)
    ensures Inside(HandleAll(s, FieldEvent(fields[n])), done, fields, n + 1)
  {
    if Lower(fields[n].name) == "replicas" {
      ReplicasFieldHandled(s, done, fields, n);
    } else {
      ValueHandled(s, done, fields, n);
    }
  }

  lemma ReplicasFieldHandled(s: State, done: seq<FragmentData>, fields: seq<Field>, n: nat)
    requires n < |fields| && ShapedField(fields[n]) && Inside(Some(s), done, fields, n) &&
             Lower(fields[n].name) == "replicas"
    ensures Inside(HandleAll(s, FieldEvent(fields[n])), done, fields, n + 1)
  {
    var f := fields[n];
    var start := FieldStart(f.name, FirstToken(f.value));
    HandleConcat(s, [start], Events(f.value));
    HandleOne(s, start);
    ReplicasHandled(s.(mode := ReplicasMode, hasReplicas := false), f.value.elems, |f.value.elems|);
    assert Read(fields, n + 1) == Read(fields, n);
  }

  lemma ValueHandled(s: State, done: seq<FragmentData>, fields: seq<Field>, n: nat)
    requires n < |fields| && ShapedField(fields[n]) && Inside(Some(s), done, fields, n) &&
             Lower(fields[n].name) != "replicas"
    ensures Inside(HandleAll(s, FieldEvent(fields[n])), done, fields, n + 1)
  {
    var f := fields[n];
    HandleTwo(s, FieldStart(f.name, FirstToken(f.value)), Events(f.value)[0]);
    ShapedIsExpected(f);
    assert s.fragments[|s.fragments| - 1] == Read(fields, n) && s.fragments[..|s.fragments| - 1] == done;
    assert Replicated(fields, n + 1) == Replicated(fields, n);
  }

  /** A foreign field is ignored, taken for an index, or an error, as the mode decides. */
  lemma ForeignHandled(s: State, done: seq<FragmentData>, fields: seq<Field>, n: nat)
    requires n < |fields| && Foreign(fields[n]) && !Raising(fields[n]) && Inside(Some(s), done, fields, n)
    ensures if Tolerated(fields, n) then Inside(HandleAll(s, FieldEvent(fields[n])), done, fields, n + 1)
            else HandleAll(s, FieldEvent(fields[n])) == None
  {
    var f := fields[n];
    HandleTwo(s, FieldStart(f.name, FirstToken(f.value)), Events(f.value)[0]);
  }

  /** One loose field is handled, or is an error, as it is tolerated or not. */
  lemma LooseFieldHandled(s: State, done: seq<FragmentData>, fields: seq<Field>, n: nat)
    requires n < |fields| && LooseField(fields[n]) && Inside(Some(s), done, fields, n)
    ensures if Tolerated(fields, n) then Inside(HandleAll(s, FieldEvent(fields[n])), done, fields, n + 1)
            else HandleAll(s, FieldEvent(fields[n])) == None
  {
    if Raising(fields[n]) {
      RaisingHandled(s, fields[n]);
    } else if Foreign(fields[n]) {
      ForeignHandled(s, done, fields, n);
    } else {
      FieldHandled(s, done, fields, n);
    }
  }

  lemma {:induction false} FieldsHandled(s: State, done: seq<FragmentData>, fields: seq<Field>, n: nat)
    requires n <= |fields| && forall f <- fields :: LooseField(f)
    requires Inside(Some(s), done, fields, 0)
    ensures if ToleratedUpTo(fields, n) then Inside(HandleAll(s, FieldEvents(fields, n)), done, fields, n)
            else HandleAll(s, FieldEvents(fields, n)) == None
  {
    if n > 0 {
      FieldsHandled(s, done, fields, n - 1);
      HandleConcat(s, FieldEvents(fields, n - 1), FieldEvent(fields[n - 1]));
      assert ToleratedUpTo(fields, n) <==> ToleratedUpTo(fields, n - 1) && Tolerated(fields, n - 1);
      if ToleratedUpTo(fields, n - 1) {
        assert fields[n - 1] in fields;
        LooseFieldHandled(HandleAll(s, FieldEvents(fields, n - 1)).value, done, fields, n - 1);
      }
    }
  }

  /** An element is an error exactly when one of its foreign fields is. */
  predicate Acceptable(e: Json) {
    e.JObject? ==> ToleratedUpTo(e.fields, |e.fields|)
  }

  predicate Kept(e: Json) {
    e.JObject? && Replicated(e.fields, |e.fields|)
  }

  /** What the handlers make of one element. */
  function Taken(e: Json): seq<FragmentData> {
    if Kept(e) then [Read(e.fields, |e.fields|)] else []
  }

  lemma ElementHandled(s: State, e: Json)
    requires s.depth == 0 && LooseElement(e)
    ensures var r := HandleAll(s, [ElementStart] + Events(e) + [ElementEnd]);
            if Acceptable(e) then
              && r.Some? && r.value.depth == 0
              && r.value.fragments == s.fragments + Taken(e)
            else r == None
  {
    var entered := OnElementStart(s);
    HandleConcat(s, [ElementStart] + Events(e), [ElementEnd]);
    HandleConcat(s, [ElementStart], Events(e));
    HandleOne(s, ElementStart);
    if e.JObject? {
      FieldsHandled(entered, s.fragments, e.fields, |e.fields|);
    } else {
      HandleOne(entered, Events(e)[0]);
    }
    if Acceptable(e) {
      HandleOne(HandleAll(entered, Events(e)).value, ElementEnd);
    }
  }

  /** The fragments the handlers make of the first n elements. */
  function Collected(elems: seq<Json>, n: nat): seq<FragmentData>
    requires n <= |elems|
  {
    if n == 0 then [] else Collected(elems, n - 1) + Taken(elems[n - 1])
  }

  predicate AllAcceptable(elems: seq<Json>, n: nat)
    requires n <= |elems|
  {
    forall i | 0 <= i < n :: Acceptable(elems[i])
  }

  /** r is the state s with the taken fragments added outside all elements, or an error. */
  ghost predicate Added(r: Option<State>, s: State, acceptable: bool, taken: seq<FragmentData>) {
    if acceptable then r.Some? && r.value.depth == 0 && r.value.fragments == s.fragments + taken else r == None
  }

  lemma AddedTwice(r: Option<State>, mid: State, s: State, first: seq<FragmentData>, ok: bool, more: seq<FragmentData>)
    requires Added(Some(mid), s, true, first) && Added(r, mid, ok, more)
    ensures Added(r, s, ok, first + more)
  {
  }

  lemma ElementAdded(s: State, e: Json)
    requires s.depth == 0 && LooseElement(e)
    ensures Added(HandleAll(s, [ElementStart] + Events(e) + [ElementEnd]), s, Acceptable(e), Taken(e))
  {
    ElementHandled(s, e);
  }

  lemma {:induction false} ElementsHandled(s: State, elems: seq<Json>, n: nat)
    requires s.depth == 0 && n <= |elems| && forall e <- elems :: LooseElement(e)
    ensures Added(HandleAll(s, ElementEvents(elems, n)), s, AllAcceptable(elems, n), Collected(elems, n))
  {
    if n > 0 {
      ElementsHandled(s, elems, n - 1);
      var e := elems[n - 1];
      var before, events := ElementEvents(elems, n - 1), [ElementStart] + Events(e) + [ElementEnd];
      HandleConcat(s, before, events);
      assert AllAcceptable(elems, n) <==> AllAcceptable(elems, n - 1) && Acceptable(e);
      if AllAcceptable(elems, n - 1) {
        var mid := HandleAll(s, before).value;
        assert e in elems;
        ElementAdded(mid, e);
        AddedTwice(HandleAll(mid, events), mid, s, Collected(elems, n - 1), Acceptable(e), Taken(e));
      }
    }
  }

  lemma TakenIff(e: Json)
    requires LooseElement(e) && Acceptable(e)
    ensures |Taken(e)| == |Meant(e)| <= 1 && (Taken(e) == Meant(e) <==> KeepsIndex(e))
  {
    if Kept(e) {
      AcceptableIsReadable(e);
      KeepsIndexIff(e);
    }
  }

  /** The first n parts one after the other. */
  function Chained(parts: seq<seq<FragmentData>>, n: nat): seq<FragmentData>
    requires n <= |parts|
  {
    if n == 0 then [] else Chained(parts, n - 1) + parts[n - 1]
  }

  /** Chains of parts of equal lengths are equal exactly when the parts are. */
  lemma {:induction false} ChainedIff(a: seq<seq<FragmentData>>, b: seq<seq<FragmentData>>, n: nat)
    requires n <= |a| == |b| && forall i | 0 <= i < |a| :: |a[i]| == |b[i]|
    ensures |Chained(a, n)| == |Chained(b, n)|
    ensures Chained(a, n) == Chained(b, n) <==> forall i | 0 <= i < n :: a[i] == b[i]
  {
    if n > 0 {
      ChainedIff(a, b, n - 1);
      LastDecides(Chained(a, n - 1), a[n - 1], Chained(b, n - 1), b[n - 1]);
    }
  }

  lemma {:induction false} ChainsOf(elems: seq<Json>, taken: seq<seq<FragmentData>>, meant: seq<seq<FragmentData>>,
                                    n: nat)
    requires n <= |elems| == |taken| == |meant|
    requires forall i | 0 <= i < |elems| :: taken[i] == Taken(elems[i]) && meant[i] == Meant(elems[i])
    ensures Collected(elems, n) == Chained(taken, n) && Expected(elems, n) == Chained(meant, n)
  {
    if n > 0 {
      ChainsOf(elems, taken, meant, n - 1);
    }
  }

  /** The handlers collect the expected fragments exactly when each keeps its own index. */
  lemma CollectedIff(elems: seq<Json>)
    requires (forall e <- elems :: LooseElement(e)) && AllAcceptable(elems, |elems|)
    ensures Collected(elems, |elems|) == Expected(elems, |elems|) <==> AllKeepIndex(elems, |elems|)
  {
    var n := |elems|;
    var taken := seq(n, i requires 0 <= i < n => Taken(elems[i]));
    var meant := seq(n, i requires 0 <= i < n => Meant(elems[i]));
    forall i | 0 <= i < n
      ensures |taken[i]| == |meant[i]| && (taken[i] == meant[i] <==> KeepsIndex(elems[i]))
    {
      assert elems[i] in elems;
      TakenIff(elems[i]);
    }
    ChainsOf(elems, taken, meant, n);
    ChainedIff(taken, meant, n);
  }

  predicate AllKeepIndex(elems: seq<Json>, n: nat)
    requires n <= |elems|
  {
    forall i | 0 <= i < n :: KeepsIndex(elems[i])
  }

  lemma LastDecides(a: seq<FragmentData>, x: seq<FragmentData>, b: seq<FragmentData>, y: seq<FragmentData>)
    requires |a| == |b|
    ensures a + x == b + y <==> a == b && x == y
  {
    if a + x == b + y {
      assert (a + x)[..|a|] == a && (b + y)[..|a|] == b;
      assert (a + x)[|a|..] == x && (b + y)[|a|..] == y;
    }
  }

  /** The last index field among the first n. */
  function LastIndexField(fields: seq<Field>, n: nat): (p: Option<nat>)
    requires n <= |fields|
    ensures p.Some? ==> p.value < n && IsIndex(fields[p.value])
    ensures p.Some? ==> forall i | p.value < i < n :: !IsIndex(fields[i])
    ensures p.None? ==> forall i | 0 <= i < n :: !IsIndex(fields[i])
  {
    if n == 0 then None else if IsIndex(fields[n - 1]) then Some(n - 1) else LastIndexField(fields, n - 1)
  }

  predicate IsIndex(f: Field) {
    f.value.JNumber? && Lower(f.name) == "index"
  }

  /** Field i is in the run of foreign fields directly behind field p. */
  predicate InRun(fields: seq<Field>, p: nat, i: nat)
    requires p < i < |fields|
  {
    forall k | p < k <= i :: Foreign(fields[k])
  }

  /** The last number of that run, before n; without one, p itself. */
  function LastOfRun(fields: seq<Field>, p: nat, n: nat): (i: nat)
    requires p < n <= |fields| && fields[p].value.JNumber?
    ensures p <= i < n && fields[i].value.JNumber?
    decreases n
  {
    if n == p + 1 then p
    else if fields[n - 1].value.JNumber? && InRun(fields, p, n - 1) then n - 1
    else LastOfRun(fields, p, n - 1)
  }

  /**
   In a kept element, the last number in the run of foreign fields directly behind the last
   index field, if there is one, has the index's text.
   */
  predicate KeepsIndex(e: Json) {
    Kept(e) && LastIndexField(e.fields, |e.fields|).Some? ==>
      var p := LastIndexField(e.fields, |e.fields|).value;
      e.fields[LastOfRun(e.fields, p, |e.fields|)].value.text == e.fields[p].value.text
  }

  /** Only numbers and truth values come unexpected. */
  predicate Readable(fields: seq<Field>) {
    forall i | 0 <= i < |fields| :: ShapedField(fields[i]) || (Foreign(fields[i]) && !Raising(fields[i]))
  }

  lemma {:induction false} LastTextOfIndex(fields: seq<Field>, n: nat)
    requires n <= |fields| && Readable(fields)
    ensures LastText(fields, "index", n) ==
            match LastIndexField(fields, n) case Some(p) => Some(fields[p].value.text) case None => None
  {
    if n > 0 {
      LastTextOfIndex(fields, n - 1);
    }
  }

  /** The handlers are in index mode exactly as long as foreign fields follow the last index field. */
  lemma {:induction false} IndexModeIff(fields: seq<Field>, n: nat)
    requires n <= |fields| && Readable(fields)
    ensures ModeAfter(fields, n) == IndexMode <==>
            LastIndexField(fields, n).Some? && forall k | LastIndexField(fields, n).value < k < n :: Foreign(fields[k])
  {
    if n > 0 {
      IndexModeIff(fields, n - 1);
      if ShapedField(fields[n - 1]) {
        ShapedIsExpected(fields[n - 1]);
      }
    }
  }

  lemma {:induction false} LeftIndexIs(fields: seq<Field>, n: nat)
    requires n <= |fields| && Readable(fields)
    ensures LeftIndex(fields, n) ==
            match LastIndexField(fields, n)
            case Some(p) => Some(fields[LastOfRun(fields, p, n)].value.text)
            case None => None
  {
    if n > 0 {
      LeftIndexIs(fields, n - 1);
      TakenForIndexIff(fields, n);
      if !IsIndex(fields[n - 1]) {
        assert LastIndexField(fields, n) == LastIndexField(fields, n - 1);
      }
    }
  }

  /** A foreign number is taken for the index exactly when it is in the run behind the last one. */
  lemma TakenForIndexIff(fields: seq<Field>, n: nat)
    requires 0 < n <= |fields| && Readable(fields)
    ensures Foreign(fields[n - 1]) && ModeAfter(fields, n - 1) == IndexMode <==>
            LastIndexField(fields, n - 1).Some? && InRun(fields, LastIndexField(fields, n - 1).value, n - 1)
  {
    IndexModeIff(fields, n - 1);
  }

  /** The condition on the document says that the index read is the index described. */
  lemma KeepsIndexIff(e: Json)
    requires e.JObject? && Kept(e) && Readable(e.fields)
    ensures KeepsIndex(e) <==> Read(e.fields, |e.fields|) == Described(e.fields, |e.fields|)
  {
    LastTextOfIndex(e.fields, |e.fields|);
    LeftIndexIs(e.fields, |e.fields|);
  }

  lemma AcceptableIsReadable(e: Json)
    requires e.JObject? && LooseElement(e) && Acceptable(e)
    ensures Readable(e.fields)
  {
    forall i | 0 <= i < |e.fields|
      ensures ShapedField(e.fields[i]) || (Foreign(e.fields[i]) && !Raising(e.fields[i]))
    {
      assert e.fields[i] in e.fields && Tolerated(e.fields, i);
    }
  }

  ghost function Outcome(doc: Json): Option<seq<FragmentData>> {
    match HandleAll(INITIAL_STATE, Events(doc)) case None => None case Some(s) => Some(s.fragments)
  }

  lemma DocumentEvents(doc: Json, elems: seq<Json>)
    requires Loose(doc) && elems == doc.fields[0].value.elems
    ensures Events(doc) == [FieldStart(doc.fields[0].name, ArrayToken)] + ElementEvents(elems, |elems|)
  {
    var f := doc.fields[0];
    assert FieldEvents(doc.fields, 0) == [];
    assert FieldEvents(doc.fields, 1) == [] + FieldEvent(f) == FieldEvent(f);
  }

  lemma LooseOutcome(doc: Json, elems: seq<Json>)
    requires Loose(doc) && elems == doc.fields[0].value.elems
    ensures Outcome(doc) == if AllAcceptable(elems, |elems|) then Some(Collected(elems, |elems|)) else None
  {
    DocumentEvents(doc, elems);
    var start := FieldStart(doc.fields[0].name, ArrayToken);
    ListStarts(INITIAL_STATE, doc.fields[0].name);
    ListOutcome(INITIAL_STATE, start, elems, ElementEvents(elems, |elems|));
  }

  lemma ListStarts(s: State, name: string)
    requires s.mode == StartMode && Lower(name) == "pxffragments"
    ensures Handle(s, FieldStart(name, ArrayToken)) == Some(s)
  {
  }

  lemma ListOutcome(s: State, start: Event, elems: seq<Json>, later: seq<Event>)
    requires s.fragments == [] && s.depth == 0 && Handle(s, start) == Some(s)
    requires (forall e <- elems :: LooseElement(e)) && later == ElementEvents(elems, |elems|)
    ensures var r := HandleAll(s, [start] + later);
            if AllAcceptable(elems, |elems|) then r.Some? && r.value.fragments == Collected(elems, |elems|)
            else r == None
  {
    HandleConcat(s, [start], later);
    HandleOne(s, start);
    ElementsHandled(s, elems, |elems|);
    assert [] + Collected(elems, |elems|) == Collected(elems, |elems|);
  }

  /**
   A response with fields in any order, repeated, missing or unexpected, is read as the
   document means it, that is as the elements with a string replica, in document order and
   with the document's values, if and only if no unexpected field is an error and no number
   behind an index changes it.
   */
  lemma ResponseIsParsedIff(doc: Json, elems: seq<Json>)
    requires Loose(doc) && elems == doc.fields[0].value.elems
    ensures Outcome(doc) == Some(Expected(elems, |elems|)) <==>
            AllAcceptable(elems, |elems|) && AllKeepIndex(elems, |elems|)
  {
    LooseOutcome(doc, elems);
    if AllAcceptable(elems, |elems|) {
      CollectedIff(elems);
    }
  }

  /** A field of the format is never foreign, so nothing stands behind an index. */
  lemma {:induction false} ShapedRunIsEmpty(fields: seq<Field>, p: nat, n: nat)
    requires p < n <= |fields| && fields[p].value.JNumber? && forall f <- fields :: ShapedField(f)
    ensures LastOfRun(fields, p, n) == p
  {
    if n > p + 1 {
      ShapedRunIsEmpty(fields, p, n - 1);
      assert fields[n - 1] in fields;
      ShapedIsExpected(fields[n - 1]);
    }
  }

  lemma ShapedIsAcceptable(e: Json)
    requires e.JObject? ==> forall f <- e.fields :: ShapedField(f)
    ensures Acceptable(e) && KeepsIndex(e)
  {
    if e.JObject? {
      forall i | 0 <= i < |e.fields|
        ensures Tolerated(e.fields, i)
      {
        assert e.fields[i] in e.fields;
        ShapedIsExpected(e.fields[i]);
      }
      var last := LastIndexField(e.fields, |e.fields|);
      if last.Some? {
        ShapedRunIsEmpty(e.fields, last.value, |e.fields|);
      }
    }
  }

  /** So without unexpected fields every response is read as it means. */
  lemma ResponseIsParsed(doc: Json)
    requires Shaped(doc)
    ensures var elems := doc.fields[0].value.elems; Outcome(doc) == Some(Expected(elems, |elems|))
  {
    var elems := doc.fields[0].value.elems;
    forall i | 0 <= i < |elems|
      ensures Acceptable(elems[i]) && KeepsIndex(elems[i])
    {
      assert elems[i] in elems;
      ShapedIsAcceptable(elems[i]);
    }
    ResponseIsParsedIff(doc, elems);
  }

  /** A number of another name directly after the index is taken for the index. */
  lemma ForeignNumberOverwritesIndex(fields: seq<Field>, first: string, second: string)
    requires |fields| == 3 && first != second
    requires Lower(fields[0].name) == "index" && fields[0].value == JNumber(first)
    requires Foreign(fields[1]) && fields[1].value == JNumber(second)
    requires Lower(fields[2].name) == "replicas" && fields[2].value == JArray([JString("host")])
    ensures Acceptable(JObject(fields)) && Kept(JObject(fields)) && !KeepsIndex(JObject(fields))
    ensures Read(fields, 3).index == Some(second) && Described(fields, 3).index == Some(first)
  {
    assert ModeAfter(fields, 1) == IndexMode && ModeAfter(fields, 2) == IndexMode;
    assert LeftIndex(fields, 2) == Some(second) && LeftIndex(fields, 3) == LeftIndex(fields, 2);
    assert LastText(fields, "index", 1) == Some(first);
    assert LastText(fields, "index", 3) == LastText(fields, "index", 2) == LastText(fields, "index", 1);
    assert JString("host") in [JString("host")];
    KeepsIndexIff(JObject(fields));
  }

  // ----- what the server sends is what the wrapper receives -----

  /** A fragment as the server holds it; binary values are the text they are encoded as. */
  datatype ServerFragment = ServerFragment(source: string, index: int, replicas: Option<seq<string>>,
                                           metadata: Option<string>, userData: Option<string>, profile: Option<string>)

  function TextOrNull(text: Option<string>): Json {
    if text.Some? then JString(text.value) else JNull
  }

  function Hosts(hosts: seq<string>): (r: seq<Json>)
    ensures |r| == |hosts| && forall i | 0 <= i < |r| :: r[i] == JString(hosts[i])
  {
    seq(|hosts|, i requires 0 <= i < |hosts| => JString(hosts[i]))
  }

  /** The properties that the server's object mapper writes. */
  function Properties(f: ServerFragment): seq<Field> {
    [Field("sourceName", JString(f.source)),
     Field("index", JNumber(FormatInt(f.index))),
     Field("replicas", if f.replicas.Some? then JArray(Hosts(f.replicas.value)) else JNull),
     Field("metadata", TextOrNull(f.metadata)),
     Field("userData", TextOrNull(f.userData)),
     Field("profile", TextOrNull(f.profile))]
  }

  function ResponseTo(fs: seq<ServerFragment>): Json {
    JObject([Field("PXFFragments", JArray(seq(|fs|, i requires 0 <= i < |fs| => JObject(Properties(fs[i])))))])
  }

  function Received(f: ServerFragment): FragmentData {
    FragmentData(None, Some(FormatInt(f.index)), Some(f.source), f.metadata, f.userData, f.profile, 0)
  }

  /** A fragment without a host is not received. */
  function ReceivedOne(f: ServerFragment): seq<FragmentData> {
    if f.replicas.Some? && f.replicas.value != [] then [Received(f)] else []
  }

  /** What is received of the first n of the server's fragments. */
  function ReceivedAll(fs: seq<ServerFragment>, n: nat): seq<FragmentData>
    requires n <= |fs|
  {
    if n == 0 then [] else ReceivedAll(fs, n - 1) + ReceivedOne(fs[n - 1])
  }

  /** The names of the six properties. */
  function ServerName(i: nat): string
    requires i < 6
  {
    if i == 0 then "sourceName" else if i == 1 then "index" else if i == 2 then "replicas"
    else if i == 3 then "metadata" else if i == 4 then "userData" else "profile"
  }

  /** The folded names of the six properties. */
  function NameAt(i: nat): string
    requires i < 6
  {
    if i == 0 then "sourcename" else if i == 1 then "index" else if i == 2 then "replicas"
    else if i == 3 then "metadata" else if i == 4 then "userdata" else "profile"
  }

  lemma NamesDiffer(i: nat, j: nat)
    requires i < 6 && j < 6 && i != j
    ensures NameAt(i) != NameAt(j)
  {
    assert NameAt(i)[0] != NameAt(j)[0] || |NameAt(i)| != |NameAt(j)|;
  }

  lemma LettersFold(s: string, t: string, i: nat)
    requires i < 6 && s == ServerName(i) && t == NameAt(i)
    ensures Folded(s, t)
  {
  }

  lemma NameFolds(s: string, i: nat)
    requires i < 6 && s == ServerName(i)
    ensures Lower(s) == NameAt(i)
  {
    LettersFold(s, NameAt(i), i);
    LowerIsFolded(s);
    FoldedOnce(s, Lower(s), NameAt(i));
  }

  lemma ListNameFolds(s: string, t: string)
    requires s == "PXFFragments" && t == "pxffragments"
    ensures Lower(s) == t
  {
    assert Folded(s, t);
    LowerIsFolded(s);
    FoldedOnce(s, Lower(s), t);
  }

  predicate Holds(fields: seq<Field>, f: ServerFragment) {
    && |fields| == 6
    && fields[0].value == JString(f.source) && fields[1].value == JNumber(FormatInt(f.index))
    && fields[2].value == (if f.replicas.Some? then JArray(Hosts(f.replicas.value)) else JNull)
    && fields[3].value == TextOrNull(f.metadata) && fields[4].value == TextOrNull(f.userData)
    && fields[5].value == TextOrNull(f.profile)
  }

  /** The six properties under these names, in whatever case. */
  predicate Writes(fields: seq<Field>, f: ServerFragment) {
    Holds(fields, f) && forall i | 0 <= i < 6 :: Lower(fields[i].name) == NameAt(i)
  }

  predicate WritesAll(doc: Json, fs: seq<ServerFragment>, elems: seq<Json>) {
    && doc.JObject? && |doc.fields| == 1 && Lower(doc.fields[0].name) == "pxffragments"
    && doc.fields[0].value == JArray(elems) && |elems| == |fs|
    && forall i | 0 <= i < |fs| :: elems[i].JObject? && Writes(elems[i].fields, fs[i])
  }

  lemma PropertiesHold(f: ServerFragment, fields: seq<Field>)
    requires fields == Properties(f)
    ensures Holds(fields, f) && forall i | 0 <= i < 6 :: fields[i].name == ServerName(i)
  {
  }

  lemma SpelledIsNamed(fields: seq<Field>)
    requires |fields| == 6 && forall i | 0 <= i < 6 :: fields[i].name == ServerName(i)
    ensures forall i | 0 <= i < 6 :: Lower(fields[i].name) == NameAt(i)
  {
    forall i | 0 <= i < 6
      ensures Lower(fields[i].name) == NameAt(i)
    {
      NameFolds(fields[i].name, i);
    }
  }

  lemma PropertiesWrite(f: ServerFragment, fields: seq<Field>)
    requires fields == Properties(f)
    ensures Writes(fields, f)
  {
    PropertiesHold(f, fields);
    SpelledIsNamed(fields);
  }

  lemma ResponseWrites(fs: seq<ServerFragment>, doc: Json)
    requires doc == ResponseTo(fs)
    ensures doc.JObject? && |doc.fields| == 1 && doc.fields[0].value.JArray?
    ensures WritesAll(doc, fs, doc.fields[0].value.elems)
  {
    ListNameFolds(doc.fields[0].name, "pxffragments");
    var elems := doc.fields[0].value.elems;
    forall i | 0 <= i < |fs|
      ensures elems[i].JObject? && Writes(elems[i].fields, fs[i])
    {
      PropertiesWrite(fs[i], elems[i].fields);
    }
  }

  /** Only field i has that name. */
  predicate OnlyOne(fields: seq<Field>, name: string, i: nat) {
    forall j | 0 <= j < |fields| :: Lower(fields[j].name) == name <==> j == i
  }

  lemma NameIsOnce(fields: seq<Field>, name: string, i: nat)
    requires |fields| == 6 && (forall j | 0 <= j < 6 :: Lower(fields[j].name) == NameAt(j)) && i < 6 &&
             name == NameAt(i)
    ensures OnlyOne(fields, name, i)
  {
    forall j | 0 <= j < 6
      ensures Lower(fields[j].name) == name <==> j == i
    {
      if j != i {
        NamesDiffer(i, j);
      }
    }
  }

  /** Its text is the text of that name. */
  lemma {:induction false} OnlyText(fields: seq<Field>, name: string, i: nat, n: nat)
    requires n <= |fields| && i < |fields| && OnlyOne(fields, name, i)
    ensures LastText(fields, name, n) ==
            if i < n && (fields[i].value.JString? || fields[i].value.JNumber?) then Some(fields[i].value.text) else None
  {
    if n > 0 {
      OnlyText(fields, name, i, n - 1);
    }
  }

  lemma {:induction false} OnlyReplicas(fields: seq<Field>, i: nat, n: nat)
    requires n <= |fields| && i < |fields| && OnlyOne(fields, "replicas", i)
    ensures Replicated(fields, n) <==>
            i < n && fields[i].value.JArray? && exists e <- fields[i].value.elems :: e.JString?
  {
    if n > 0 {
      OnlyReplicas(fields, i, n - 1);
    }
  }

  lemma PropertyText(fields: seq<Field>, name: string, i: nat)
    requires |fields| == 6 && (forall j | 0 <= j < 6 :: Lower(fields[j].name) == NameAt(j)) && i < 6 &&
             name == NameAt(i)
    ensures LastText(fields, name, 6) ==
            if fields[i].value.JString? || fields[i].value.JNumber? then Some(fields[i].value.text) else None
  {
    NameIsOnce(fields, name, i);
    OnlyText(fields, name, i, 6);
  }

  lemma PropertiesDescribe(f: ServerFragment, fields: seq<Field>)
    requires Writes(fields, f)
    ensures Described(fields, 6) == Received(f)
  {
    PropertyText(fields, "sourcename", 0);
    PropertyText(fields, "index", 1);
    PropertyText(fields, "metadata", 3);
    PropertyText(fields, "userdata", 4);
    PropertyText(fields, "profile", 5);
  }

  lemma PropertiesReplicate(f: ServerFragment, fields: seq<Field>)
    requires Writes(fields, f)
    ensures Replicated(fields, 6) <==> f.replicas.Some? && f.replicas.value != []
  {
    NameIsOnce(fields, "replicas", 2);
    OnlyReplicas(fields, 2, 6);
    if f.replicas.Some? && f.replicas.value != [] {
      assert Hosts(f.replicas.value)[0] in Hosts(f.replicas.value);
    }
  }

  /** Each property is of the format, or the replicas are null, which is an error. */
  lemma PropertyIsLoose(f: ServerFragment, fields: seq<Field>, i: nat)
    requires Writes(fields, f) && i < 6
    ensures if i == 2 && f.replicas.None? then Raising(fields[i]) else ShapedField(fields[i])
  {
    if i == 2 && f.replicas.Some? {
      assert forall e <- Hosts(f.replicas.value) :: IsScalar(e);
    }
  }

  lemma PropertiesAreLoose(f: ServerFragment, fields: seq<Field>)
    requires Writes(fields, f)
    ensures forall p <- fields :: LooseField(p)
    ensures if f.replicas.None? then Raising(fields[2]) else forall p <- fields :: ShapedField(p)
  {
    forall i | 0 <= i < 6
      ensures if i == 2 && f.replicas.None? then Raising(fields[i]) else ShapedField(fields[i])
    {
      PropertyIsLoose(f, fields, i);
    }
  }

  lemma ResponseIsLoose(fs: seq<ServerFragment>, doc: Json, elems: seq<Json>)
    requires WritesAll(doc, fs, elems)
    ensures Loose(doc)
    ensures (forall i | 0 <= i < |fs| :: fs[i].replicas.Some?) ==> Shaped(doc)
  {
    forall i | 0 <= i < |fs|
      ensures LooseElement(elems[i])
      ensures fs[i].replicas.Some? ==> forall f <- elems[i].fields :: ShapedField(f)
    {
      PropertiesAreLoose(fs[i], elems[i].fields);
    }
  }

  lemma ElementMeans(f: ServerFragment, e: Json)
    requires e.JObject? && Writes(e.fields, f)
    ensures Meant(e) == ReceivedOne(f)
  {
    PropertiesDescribe(f, e.fields);
    PropertiesReplicate(f, e.fields);
  }

  lemma {:induction false} ResponseMeans(fs: seq<ServerFragment>, elems: seq<Json>, n: nat)
    requires n <= |fs| == |elems| && forall i | 0 <= i < |fs| :: Meant(elems[i]) == ReceivedOne(fs[i])
    ensures Expected(elems, n) == ReceivedAll(fs, n)
  {
    if n > 0 {
      ResponseMeans(fs, elems, n - 1);
    }
  }

  lemma NullHostsFail(e: Json)
    requires e.JObject? && |e.fields| == 6 && Raising(e.fields[2])
    ensures !Acceptable(e)
  {
    assert !Tolerated(e.fields, 2);
  }

  lemma WrittenIsReceived(fs: seq<ServerFragment>, doc: Json, elems: seq<Json>)
    requires WritesAll(doc, fs, elems)
    ensures Outcome(doc) ==
            if forall i | 0 <= i < |fs| :: fs[i].replicas.Some? then Some(ReceivedAll(fs, |fs|)) else None
  {
    ResponseIsLoose(fs, doc, elems);
    if forall i | 0 <= i < |fs| :: fs[i].replicas.Some? {
      ResponseIsParsed(doc);
      forall i | 0 <= i < |fs|
        ensures Meant(elems[i]) == ReceivedOne(fs[i])
      {
        ElementMeans(fs[i], elems[i]);
      }
      ResponseMeans(fs, elems, |fs|);
    } else {
      var i :| 0 <= i < |fs| && fs[i].replicas.None?;
      PropertiesAreLoose(fs[i], elems[i].fields);
      NullHostsFail(elems[i]);
      LooseOutcome(doc, elems);
    }
  }

  /**
   The wrapper receives exactly the fragments that the server sends and that have a host, in
   order and value for value; a fragment whose hosts are null makes the whole response an error.
   */
  lemma ServerResponseIsReceived(fs: seq<ServerFragment>)
    ensures Outcome(ResponseTo(fs)) ==
            if forall i | 0 <= i < |fs| :: fs[i].replicas.Some? then Some(ReceivedAll(fs, |fs|)) else None
  {
    var doc := ResponseTo(fs);
    ResponseWrites(fs, doc);
    WrittenIsReceived(fs, doc, doc.fields[0].value.elems);
  }
}

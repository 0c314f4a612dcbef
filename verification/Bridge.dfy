/**
 The scan of one segment: a read loop that stitches the bodies of its fragments together over
 one reused connection, and the statement about all the segments of a query.
 */
module Bridge {
  import opened Decimal
  import opened Transfer
  import opened Fragments
  import opened Headers

  // ----- specification -----

  /** One read: the next bytes of the first fragment that has any. */
  function ReadSpec(remaining: seq<seq<Byte>>, size: nat): (seq<Byte>, seq<seq<Byte>>) {
    if remaining == [] then ([], [])
    else if remaining[0] == [] then ReadSpec(remaining[1..], size)
    else
      var m := Min(size, |remaining[0]|);
      (remaining[0][..m], [remaining[0][m..]] + remaining[1..])
  }

  /** A body cut into pieces of the given size, the last one possibly shorter. */
  function Split(body: seq<Byte>, size: nat): seq<seq<Byte>>
    requires size > 0
    decreases |body|
  {
    if body == [] then []
    else
      var m := Min(size, |body|);
      [body[..m]] + Split(body[m..], size)
  }

  /** The chunks of a scan: each body split on its own. */
  function SplitAll(bodies: seq<seq<Byte>>, size: nat): seq<seq<Byte>>
    requires size > 0
  {
    if bodies == [] then [] else Split(bodies[0], size) + SplitAll(bodies[1..], size)
  }

  lemma {:induction false} FlatConcat(a: seq<seq<Byte>>, b: seq<seq<Byte>>)
    ensures Flat(a + b) == Flat(a) + Flat(b)
  {
    if a == [] {
      assert a + b == b;
    } else {
      assert (a + b)[1..] == a[1..] + b;
      FlatConcat(a[1..], b);
    }
  }

  /** Splitting loses nothing, makes no empty chunk and fills all chunks but the last. */
  lemma {:induction false} SplitIsWhole(body: seq<Byte>, size: nat)
    requires size > 0
    ensures Flat(Split(body, size)) == body
    ensures forall c <- Split(body, size) :: 0 < |c| <= size
    ensures forall j | 0 <= j < |Split(body, size)| - 1 :: |Split(body, size)[j]| == size
    decreases |body|
  {
    if body != [] {
      var m := Min(size, |body|);
      SplitIsWhole(body[m..], size);
      assert body[..m] + body[m..] == body;
    }
  }

  lemma {:induction false} SplitAllIsWhole(bodies: seq<seq<Byte>>, size: nat)
    requires size > 0
    ensures Flat(SplitAll(bodies, size)) == Flat(bodies)
    ensures forall c <- SplitAll(bodies, size) :: 0 < |c| <= size
  {
    if bodies != [] {
      SplitIsWhole(bodies[0], size);
      SplitAllIsWhole(bodies[1..], size);
      FlatConcat(Split(bodies[0], size), SplitAll(bodies[1..], size));
    }
  }

  /** A read takes the first chunk of what the scan still owes, and an empty read owes nothing. */
  lemma {:induction false} ReadTakesFirstChunk(remaining: seq<seq<Byte>>, size: nat)
    requires size > 0
    ensures var (data, rest) := ReadSpec(remaining, size);
            SplitAll(remaining, size) == if data == [] then [] else [data] + SplitAll(rest, size)
    ensures var (data, rest) := ReadSpec(remaining, size); data == [] ==> rest == []
    ensures var (data, rest) := ReadSpec(remaining, size); |Flat(rest)| + |data| == |Flat(remaining)|
  {
    if remaining != [] {
      if remaining[0] == [] {
        ReadTakesFirstChunk(remaining[1..], size);
        assert SplitAll(remaining, size) == SplitAll(remaining[1..], size);
      } else {
        FirstChunk(remaining, size);
      }
    }
  }

  lemma FirstChunk(remaining: seq<seq<Byte>>, size: nat)
    requires size > 0 && remaining != [] && remaining[0] != []
    ensures var (data, rest) := ReadSpec(remaining, size);
            data != [] && SplitAll(remaining, size) == [data] + SplitAll(rest, size)
            && |Flat(rest)| + |data| == |Flat(remaining)|
  {
    var m := Min(size, |remaining[0]|);
    var data, left, later := remaining[0][..m], remaining[0][m..], remaining[1..];
    ConsTail(left, later);
    assert Split(remaining[0], size) == [data] + Split(left, size);
    GroupChunks([data], Split(left, size), SplitAll(later, size));
    assert |Flat([left] + later)| == |left| + |Flat(later)|;
  }

  lemma ConsTail(first: seq<Byte>, later: seq<seq<Byte>>)
    ensures ([first] + later)[0] == first && ([first] + later)[1..] == later
  {
  }

  lemma GroupChunks(a: seq<seq<Byte>>, b: seq<seq<Byte>>, c: seq<seq<Byte>>)
    ensures a + b + c == a + (b + c)
  {
  }

  lemma ReadFirst(stream: seq<Byte>, later: seq<seq<Byte>>, size: nat, data: seq<Byte>, left: seq<Byte>)
    requires size > 0 && data + left == stream && |data| == Min(size, |stream|)
    ensures data == [] ==> stream == left == []
    ensures data != [] ==> ReadSpec([stream] + later, size) == (data, [left] + later)
  {
    assert ([stream] + later)[1..] == later;
    assert data == stream[..|data|] && left == stream[|data|..];
  }

  // ----- the scan -----

  /** The wrapper looks at a response when it opens and when it ends. */
  predicate Fine(answer: seq<Perform>) {
    OpensWell(answer) && EndsWell(answer)
  }

  predicate AllFine(answers: seq<seq<Perform>>, from: nat) {
    forall i | from <= i < |answers| :: Fine(answers[i])
  }

  function Bodies(answers: seq<seq<Perform>>): (r: seq<seq<Byte>>)
    ensures |r| == |answers|
  {
    if answers == [] then [] else [Body(answers[0])] + Bodies(answers[1..])
  }

  /**
   What a query talks to: the header keys, the headers that every request starts from, and how
   the server answers what it reads in the headers, with any finite transfer.
   */
  datatype Service = Service(keys: Keys, initial: seq<string>, serve: Request -> seq<Perform>) {
    predicate Valid() {
      keys.Valid()
    }
  }

  /** The answer to the request for fragment n, with the headers in force at that point. */
  function Answer(v: Service, fs: seq<FragmentData>, n: nat): seq<Perform>
    requires v.Valid() && n < |fs|
  {
    v.serve(ReadRequest(v.keys, HeadersAfter(v.keys, v.initial, PlanOf(fs), n + 1)))
  }

  function Answers(v: Service, fs: seq<FragmentData>): (r: seq<seq<Perform>>)
    requires v.Valid()
    ensures |r| == |fs| && forall n | 0 <= n < |fs| :: r[n] == Answer(v, fs, n)
  {
    seq(|fs|, n requires 0 <= n < |fs| => Answer(v, fs, n))
  }

  /** Each request's headers come from the ones before, and the answer from its headers. */
  ghost predicate Planned(v: Service, fs: seq<FragmentData>, lists: seq<seq<string>>, answers: seq<seq<Perform>>) {
    && v.Valid() && |lists| == |fs| + 1 && |answers| == |fs|
    && forall n: nat | n < |fs| :: IsRequest(v, fs, n, lists[n], lists[n + 1], answers[n])
  }

  /** Request n edits the headers it finds, and is answered by what it leaves. */
  predicate IsRequest(v: Service, fs: seq<FragmentData>, n: nat, before: seq<string>, after: seq<string>,
                      answer: seq<Perform>)
    requires v.Valid() && n < |fs|
  {
    after == EditAll(v.keys, before, Edits(fs[n], |fs|)) && answer == v.serve(ReadRequest(v.keys, after))
  }

  lemma IsPlanned(v: Service, fs: seq<FragmentData>, lists: seq<seq<string>>)
    requires v.Valid() && |lists| == |fs| + 1
    requires forall n | 0 <= n <= |fs| :: lists[n] == HeadersAfter(v.keys, v.initial, PlanOf(fs), n)
    ensures Planned(v, fs, lists, Answers(v, fs))
  {
    forall n: nat | n < |fs|
      ensures IsRequest(v, fs, n, lists[n], lists[n + 1], Answers(v, fs)[n])
    {
      assert PlanOf(fs)[n] == Edits(fs[n], |fs|);
    }
  }

  /** The fragments to request and the one header list they are requested with. */
  class Requests {
    const v: Service
    const fragments: seq<FragmentData>
    const headers: HeaderList
    /** The number of requests made. */
    var made: nat
    /** The header list after each request, and the answer to it. */
    ghost const lists: seq<seq<string>>
    ghost const answers: seq<seq<Perform>>

    ghost predicate Valid()
      reads this, headers
    {
      Planned(v, fragments, lists, answers) && made <= |fragments| && headers.cells == lists[made]
    }

    constructor (v: Service, fragments: seq<FragmentData>)
      requires v.Valid()
      ensures Valid() && made == 0 && fresh(headers) && answers == Answers(v, fragments)
    {
      ghost var after := seq(|fragments| + 1, n requires 0 <= n <= |fragments| =>
          HeadersAfter(v.keys, v.initial, PlanOf(fragments), n));
      IsPlanned(v, fragments, after);
      this.v, this.fragments, made := v, fragments, 0;
      lists, answers := after, Answers(v, fragments);
      headers := new HeaderList(v.initial);
    }

    /** Sets the next fragment's headers and sends them. */
    method Next() returns (answer: seq<Perform>)
      requires Valid() && made < |answers|
      modifies this, headers
      ensures Valid() && made == old(made) + 1 && answer == answers[old(made)]
    {
      assert IsRequest(v, fragments, made, lists[made], lists[made + 1], answers[made]);
      headers.SetCurrentFragmentHeaders(v.keys, fragments[made], |fragments|);
      made := made + 1;
      answer := v.serve(ReadRequest(v.keys, headers.cells));
    }
  }

  /** The scan state: the requests, and one connection for all of them. */
  class Scan {
    const requests: Requests
    const handle: Download
    /** Position in the fragment list; past the end is the null cell. */
    var current: nat
    ghost const answers: seq<seq<Perform>>

    ghost predicate Valid()
      reads this, handle, handle.buffer
    {
      handle.Valid() && current <= |answers|
    }

    /** The current fragment was the last to be requested. */
    ghost predicate InStep()
      reads this, requests, requests.headers
    {
      requests.Valid() && requests.answers == answers && requests.made == Min(current + 1, |answers|)
    }

    /** The current response will end well, and those to the later requests will open and end well. */
    ghost predicate Outlook()
      reads this, handle
    {
      current < |answers| ==> handle.EndsGood() && AllFine(answers, current + 1)
    }

    /** What is still owed to the reader, fragment by fragment, the current one first. */
    ghost function Remaining(): seq<seq<Byte>>
      requires Valid()
      reads this, handle, handle.buffer, handle.buffer.ptr
    {
      if current == |answers| then [] else [handle.Stream()] + Bodies(answers[current + 1..])
    }

    /** ImportStart on a nonempty fragment list: requests the first fragment. */
    constructor (requests: Requests)
      requires requests.Valid() && requests.made == 0 && requests.answers != []
      modifies requests, requests.headers
      ensures Valid() && InStep() && current == 0 && this.requests == requests && answers == requests.answers
      ensures fresh(handle) && fresh(handle.buffer) && (handle.buffer.ptr == null || fresh(handle.buffer.ptr))
      ensures Remaining() == Bodies(answers)
      ensures handle.StartsGood() && Outlook() <==> AllFine(answers, 0)
    {
      FirstBody(requests.answers);
      var answer := requests.Next();
      this.requests, answers, current := requests, requests.answers, 0;
      handle := new Download(answer);
    }

    /** Reads until the buffer is full or the transfer has no more. */
    method FillBuffer(size: nat) returns (data: seq<Byte>)
      requires Valid()
      modifies handle, handle.buffer, handle.buffer.ptr
      ensures Valid() && (handle.buffer.ptr == old(handle.buffer.ptr) || fresh(handle.buffer.ptr))
      ensures data + handle.Stream() == old(handle.Stream())
      ensures |data| == Min(size, |old(handle.Stream())|)
      ensures Outlook() == old(Outlook())
    {
      data := [];
      while |data| < size
        invariant Valid() && (handle.buffer.ptr == old(handle.buffer.ptr) || fresh(handle.buffer.ptr))
        invariant data + handle.Stream() == old(handle.Stream()) && |data| <= size
        invariant Outlook() == old(Outlook())
        decreases size - |data|
      {
        var piece := handle.Read(size - |data|);
        if piece == [] {
          break;
        }
        Assoc(data, piece, handle.Stream());
        data := data + piece;
      }
    }

    /** Fills from the current fragment only. */
    method FillFromCurrent(size: nat, ghost owed: seq<seq<Byte>>, ghost goal: (seq<Byte>, seq<seq<Byte>>))
      returns (data: seq<Byte>)
      requires Valid() && size > 0 && current < |answers| && owed == Remaining() && goal == ReadSpec(owed, size)
      modifies handle, handle.buffer, handle.buffer.ptr
      ensures Valid() && (handle.buffer.ptr == old(handle.buffer.ptr) || fresh(handle.buffer.ptr))
      ensures data == [] ==> handle.Stream() == [] && Remaining() == owed
      ensures data != [] ==> goal == (data, Remaining())
      ensures Outlook() == old(Outlook())
      ensures InStep() == old(InStep())
    {
      ghost var later := Bodies(answers[current + 1..]);
      ghost var stream := handle.Stream();
      data := FillBuffer(size);
      assert InStep() == old(InStep());
      ReadFirst(stream, later, size, data, handle.Stream());
    }

    /** Moves to the next fragment, if there is one, and sends its request. */
    method Ask() returns (answer: Option<seq<Perform>>)
      requires InStep() && current < |answers|
      modifies this, requests, requests.headers
      ensures InStep() && current == old(current) + 1
      ensures answer == if current < |answers| then Some(answers[current]) else None
    {
      current := current + 1;
      if current == |requests.fragments| {
        return None;
      }
      var sent := requests.Next();
      answer := Some(sent);
    }

    /** The next request's transfer reuses the drained buffer as it is. */
    method NextFragment(ghost later: seq<seq<Byte>>) returns (more: bool)
      requires Valid() && InStep() && current < |answers| && handle.Stream() == [] &&
               later == Bodies(answers[current + 1..])
      requires handle.healthy && handle.EndsGood()
      modifies this, requests, requests.headers, handle, handle.buffer, handle.buffer.ptr
      ensures Valid() && (handle.buffer.ptr == old(handle.buffer.ptr) || fresh(handle.buffer.ptr))
      ensures current == old(current) + 1 && more == (current < |answers|)
      ensures Remaining() == later && InStep()
      ensures old(Outlook()) <==> Outlook() && (more ==> handle.StartsGood())
    {
      var answer := Ask();
      if answer.None? {
        return false;
      }
      BodiesFrom(answers, current);
      assert handle.buffer.Buffered() == [];
      handle.Restart(answer.value);
      assert [] + Body(answer.value) == Body(answer.value);
      return true;
    }

    /** The next request, and a look at its connection. */
    method OpenNext(ghost later: seq<seq<Byte>>) returns (ok: bool, more: bool)
      requires Valid() && InStep() && current < |answers| && handle.Stream() == [] &&
               later == Bodies(answers[current + 1..])
      requires handle.healthy && handle.EndsGood()
      modifies this, requests, requests.headers, handle, handle.buffer, handle.buffer.ptr
      ensures Valid() && (handle.buffer.ptr == old(handle.buffer.ptr) || fresh(handle.buffer.ptr))
      ensures current == old(current) + 1 && more == (current < |answers|) && later == Remaining() && InStep()
      ensures old(Outlook()) <==> ok && Outlook()
    {
      ok := true;
      more := NextFragment(later);
      if more {
        ok := Check();
      }
    }

    method Check() returns (ok: bool)
      requires Valid()
      modifies handle, handle.buffer, handle.buffer.ptr
      ensures Valid() && (handle.buffer.ptr == old(handle.buffer.ptr) || fresh(handle.buffer.ptr))
      ensures handle.Stream() == old(handle.Stream()) && Remaining() == old(Remaining())
      ensures Outlook() == old(Outlook()) && handle.EndsGood() == old(handle.EndsGood())
      ensures ok == handle.healthy == old(handle.StartsGood())
      ensures handle.Stream() == [] ==> ok == handle.EndsGood()
      ensures InStep() == old(InStep())
    {
      ok := handle.CheckConnectivity();
    }

    /** Between two turns of the read loop: goal is what the whole read is to achieve. */
    ghost predicate Reading(size: nat, data: seq<Byte>, more: bool, owed: seq<seq<Byte>>,
                            goal: (seq<Byte>, seq<seq<Byte>>))
      requires Valid()
      reads this, handle, handle.buffer, handle.buffer.ptr
    {
      && more == (current < |answers|)
      && (data == [] ==> owed == Remaining() && goal == ReadSpec(owed, size) && (more ==> handle.Stream() == []))
      && (data != [] ==> more && goal == (data, Remaining()))
    }

    /** One turn of the read loop: the next fragment, and what can be read from it. */
    method ReadNext(size: nat, ghost owed: seq<seq<Byte>>, ghost goal: (seq<Byte>, seq<seq<Byte>>))
      returns (ok: bool, more: bool, data: seq<Byte>, ghost later: seq<seq<Byte>>)
      requires Valid() && InStep() && size > 0 && current < |answers| && Reading(size, [], true, owed, goal)
      modifies this, requests, requests.headers, handle, handle.buffer, handle.buffer.ptr
      ensures Valid() && (handle.buffer.ptr == old(handle.buffer.ptr) || fresh(handle.buffer.ptr))
      ensures ok ==> InStep() && current > old(current) && Reading(size, data, more, later, goal)
      ensures old(Outlook()) <==> ok && Outlook()
    {
      data, more := [], true;
      later := Bodies(answers[current + 1..]);
      SkipEmpty(later, size);
      assert owed == [[]] + later;
      ok := Check();
      if ok {
        ok, more, data := ReadOpened(size, later, goal);
      }
    }

    /** Opens the next fragment and reads from it. */
    method ReadOpened(size: nat, ghost later: seq<seq<Byte>>, ghost goal: (seq<Byte>, seq<seq<Byte>>))
      returns (ok: bool, more: bool, data: seq<Byte>)
      requires Valid() && InStep() && size > 0 && current < |answers| && handle.Stream() == []
      requires later == Bodies(answers[current + 1..]) && goal == ReadSpec(later, size)
      requires handle.healthy && handle.EndsGood()
      modifies this, requests, requests.headers, handle, handle.buffer, handle.buffer.ptr
      ensures Valid() && (handle.buffer.ptr == old(handle.buffer.ptr) || fresh(handle.buffer.ptr))
      ensures ok ==> InStep() && current > old(current) && Reading(size, data, more, later, goal)
      ensures old(Outlook()) <==> ok && Outlook()
    {
      data := [];
      ok, more := OpenNext(later);
      if ok && more {
        data := FillFromCurrent(size, later, goal);
      }
    }

    /** The next chunk of the scan; ok is false when the server reports an error. */
    method PxfBridgeRead(size: nat) returns (ok: bool, data: seq<Byte>)
      requires Valid() && InStep() && size > 0 && current < |answers|
      modifies this, requests, requests.headers, handle, handle.buffer, handle.buffer.ptr
      ensures Valid() && (handle.buffer.ptr == old(handle.buffer.ptr) || fresh(handle.buffer.ptr))
      ensures ok ==> (data, Remaining()) == ReadSpec(old(Remaining()), size)
      ensures ok ==> (data != [] <==> current < |answers|) && InStep()
      ensures old(Outlook()) <==> ok && Outlook()
    {
      ghost var owed := Remaining();
      ghost var goal := ReadSpec(owed, size);
      data := FillFromCurrent(size, owed, goal);
      ok := true;
      var more := true;
      while data == [] && more
        invariant Valid() && (handle.buffer.ptr == old(handle.buffer.ptr) || fresh(handle.buffer.ptr))
        invariant ok && InStep() && Reading(size, data, more, owed, goal)
        invariant Outlook() == old(Outlook())
        decreases |answers| - current
      {
        ok, more, data, owed := ReadNext(size, owed, goal);
        if !ok {
          return;
        }
      }
    }
  }

  lemma FirstBody(answers: seq<seq<Perform>>)
    requires answers != []
    ensures Bodies(answers) == [Body(answers[0])] + Bodies(answers[1..])
  {
  }

  lemma BodiesFrom(answers: seq<seq<Perform>>, i: nat)
    requires i < |answers|
    ensures Bodies(answers[i..]) == [Body(answers[i])] + Bodies(answers[i + 1..])
  {
    assert answers[i..][1..] == answers[i + 1..];
  }

  lemma SkipEmpty(later: seq<seq<Byte>>, size: nat)
    ensures ReadSpec([[]] + later, size) == ReadSpec(later, size)
  {
    assert ([[]] + later)[1..] == later;
  }

  // ----- a whole scan -----

  /** Looks at the connection and reads to the end; without an error the chunks are those owed. */
  method ReadAll(scan: Scan, size: nat) returns (ok: bool, chunks: seq<seq<Byte>>)
    requires size > 0 && scan.Valid() && scan.InStep() && scan.current < |scan.answers|
    modifies scan, scan.requests, scan.requests.headers, scan.handle, scan.handle.buffer, scan.handle.buffer.ptr
    ensures ok ==> chunks == SplitAll(old(scan.Remaining()), size)
    ensures ok <==> old(scan.handle.StartsGood() && scan.Outlook())
  {
    chunks := [];
    ok := scan.Check();
    if !ok {
      return;
    }
    var done := false;
    ghost var owed := scan.Remaining();
    ghost var all := SplitAll(owed, size);
    while !done
      invariant scan.Valid() && scan.InStep() &&
                (scan.handle.buffer.ptr == old(scan.handle.buffer.ptr) || fresh(scan.handle.buffer.ptr))
      invariant ok && owed == scan.Remaining() && chunks + SplitAll(owed, size) == all
      invariant if done then owed == [] else scan.current < |scan.answers|
      invariant old(scan.handle.StartsGood()) && scan.Outlook() == old(scan.Outlook())
      decreases !done, |Flat(owed)|
    {
      ReadTakesFirstChunk(owed, size);
      var data;
      ok, data := scan.PxfBridgeRead(size);
      if !ok {
        return;
      }
      owed := scan.Remaining();
      if data == [] {
        done := true;
      } else {
        AppendChunk(chunks, data, SplitAll(owed, size));
        chunks := chunks + [data];
      }
    }
  }

  /** ImportStart: the first request goes out. */
  method ImportStart(v: Service, fragments: seq<FragmentData>, ghost answers: seq<seq<Perform>>) returns (scan: Scan)
    requires v.Valid() && fragments != [] && answers == Answers(v, fragments)
    ensures fresh(scan) && fresh(scan.requests) && fresh(scan.requests.headers) && fresh(scan.handle) &&
            fresh(scan.handle.buffer)
    ensures scan.handle.buffer.ptr == null || fresh(scan.handle.buffer.ptr)
    ensures scan.Valid() && scan.InStep() && scan.current < |scan.answers| && scan.Remaining() == Bodies(answers)
    ensures scan.handle.StartsGood() && scan.Outlook() <==> AllFine(answers, 0)
  {
    var requests := new Requests(v, fragments);
    scan := new Scan(requests);
  }

  /**
   Requests and reads a segment's fragments; without an error the chunks are those specified, and
   there is none exactly when every answer opens and ends well.
   */
  method ScanSegment(v: Service, fragments: seq<FragmentData>, size: nat) returns (ok: bool, chunks: seq<seq<Byte>>)
    requires v.Valid() && size > 0
    ensures ok ==> chunks == SplitAll(Bodies(Answers(v, fragments)), size)
    ensures ok <==> AllFine(Answers(v, fragments), 0)
  {
    if fragments == [] {
      return true, [];
    }
    var scan := ImportStart(v, fragments, Answers(v, fragments));
    ok, chunks := ReadAll(scan, size);
  }

  lemma AppendChunk(chunks: seq<seq<Byte>>, data: seq<Byte>, later: seq<seq<Byte>>)
    ensures chunks + [data] + later == chunks + ([data] + later)
  {
  }

  /** The chunks segment s delivers when the whole query reads `list` without error. */
  function SegmentChunks(q: Query, s: int, list: seq<FragmentData>, v: Service, size: nat): seq<seq<Byte>>
    requires q.segments > 0 && size > 0 && v.Valid()
  {
    SplitAll(Bodies(Answers(v, Share(q, s, list, |list|))), size)
  }

  /** The server answers the requests of a segment without an error that the wrapper sees. */
  predicate Answered(q: Query, s: int, list: seq<FragmentData>, v: Service)
    requires q.segments > 0 && v.Valid()
  {
    AllFine(Answers(v, Share(q, s, list, |list|)), 0)
  }

  /** A server that never reports an error answers every segment without one. */
  lemma HealthyServerAnswers(q: Query, s: int, list: seq<FragmentData>, v: Service)
    requires q.segments > 0 && v.Valid() && forall request :: Healthy(v.serve(request))
    ensures Answered(q, s, list, v)
  {
    var answers := Answers(v, Share(q, s, list, |list|));
    forall i | 0 <= i < |answers|
      ensures Fine(answers[i])
    {
      HealthyIsWell(answers[i], false);
    }
  }

  /** A segment's work from the dispatched list to its last chunk. */
  method RunSegment(q: Query, segment: int, list: seq<FragmentData>, v: Service, size: nat)
    returns (ok: bool, chunks: seq<seq<Byte>>)
    requires q.segments > 0 && size > 0 && v.Valid()
    ensures ok ==> chunks == SegmentChunks(q, segment, list, v, size)
    ensures ok <==> list != [] && Answered(q, segment, list, v)
  {
    var received := DispatchToSegment(list);
    var mine := new FragmentList(received);
    ok := mine.FilterFragmentsForSegment(q, segment);
    if !ok {
      return false, [];
    }
    ShareOfReceived(q, segment, list, received, |list|);
    SameAnswers(v, Share(q, segment, list, |list|), mine.cells);
    ok, chunks := ScanSegment(v, mine.cells, size);
  }

  /** The dispatch changes nothing but the authority of what a segment keeps. */
  lemma {:induction false} ShareOfReceived(q: Query, s: int, list: seq<FragmentData>, received: seq<FragmentData>,
                                           k: nat)
    requires q.segments > 0 && |received| == |list| && k <= |list|
    requires forall i | 0 <= i < |list| :: received[i] == list[i].(authority := None)
    ensures |Share(q, s, received, k)| == |Share(q, s, list, k)|
    ensures forall j | 0 <= j < |Share(q, s, list, k)| ::
            Share(q, s, received, k)[j] == Share(q, s, list, k)[j].(authority := None)
  {
    if k > 0 {
      ShareOfReceived(q, s, list, received, k - 1);
    }
  }

  /** The authority is not part of a request. */
  lemma SameAnswers(v: Service, fs: seq<FragmentData>, fs': seq<FragmentData>)
    requires v.Valid() && |fs'| == |fs| && forall j | 0 <= j < |fs| :: fs'[j] == fs[j].(authority := None)
    ensures Answers(v, fs') == Answers(v, fs)
  {
    assert PlanOf(fs') == PlanOf(fs);
  }

  // ----- which body a request fetches -----

  /** The body of a fragment: what the server sends for the request that says just that. */
  function BodyOf(v: Service, f: FragmentData): seq<Byte>
    requires v.Valid()
  {
    Body(v.serve(OwnRequest(v.keys, v.initial, f)))
  }

  function AllBodies(v: Service, list: seq<FragmentData>): (r: seq<seq<Byte>>)
    requires v.Valid()
    ensures |r| == |list| && forall i | 0 <= i < |list| :: r[i] == BodyOf(v, list[i])
  {
    seq(|list|, i requires 0 <= i < |list| => BodyOf(v, list[i]))
  }

  predicate Within(n: nat, indices: seq<nat>) {
    forall j | 0 <= j < |indices| :: indices[j] < n
  }

  /** The bodies at the given indices, in that order. */
  function Pick(bodies: seq<seq<Byte>>, indices: seq<nat>): (r: seq<seq<Byte>>)
    requires Within(|bodies|, indices)
    ensures |r| == |indices| && forall j | 0 <= j < |r| :: r[j] == bodies[indices[j]]
  {
    seq(|indices|, j requires 0 <= j < |indices| => bodies[indices[j]])
  }

  /** Nothing of an earlier fragment is left over in the request for fragment n. */
  predicate Separate(v: Service, fs: seq<FragmentData>, n: nat)
    requires v.Valid() && n < |fs|
  {
    Undisturbed(fs, n + 1) && ProfileHolds(v.keys, v.initial, fs, n + 1)
  }

  predicate AllSeparate(v: Service, fs: seq<FragmentData>)
    requires v.Valid()
  {
    forall n | 0 <= n < |fs| :: Separate(v, fs, n)
  }

  lemma {:induction false} BodiesByIndex(answers: seq<seq<Perform>>)
    ensures |Bodies(answers)| == |answers|
    ensures forall j | 0 <= j < |answers| :: Bodies(answers)[j] == Body(answers[j])
  {
    if answers != [] {
      BodiesByIndex(answers[1..]);
    }
  }

  /** A request fetches what its own fragment's would, if nothing is left over. */
  lemma OwnBody(v: Service, fs: seq<FragmentData>, n: nat)
    requires v.Valid() && Ready(v.keys, v.initial) && Numbered(fs) && n < |fs| && Separate(v, fs, n)
    ensures Body(Answer(v, fs, n)) == BodyOf(v, fs[n])
  {
    RequestIsOwnIff(v.keys, v.initial, fs, n + 1);
  }

  /** And if something is, there is a server that tells the difference. */
  lemma OtherBody(v: Service, fs: seq<FragmentData>, n: nat) returns (v': Service)
    requires v.Valid() && Ready(v.keys, v.initial) && Numbered(fs) && n < |fs| && !Separate(v, fs, n)
    ensures v'.keys == v.keys && v'.initial == v.initial && Body(Answer(v', fs, n)) != BodyOf(v', fs[n])
  {
    RequestIsOwnIff(v.keys, v.initial, fs, n + 1);
    var sent := ReadRequest(v.keys, HeadersAfter(v.keys, v.initial, PlanOf(fs), n + 1));
    v' := v.(serve := (r: Request) => if r == sent then [Perform([[0]], false, true)] else []);
    assert Flat([[0]]) == [0] + Flat([]) == [0];
    assert Body([Perform([[0]], false, true)]) == [0] + [];
  }

  lemma NumberIsNotAsked(v: Service, f: FragmentData, idx: int)
    requires v.Valid()
    ensures BodyOf(v, f.(fragmentIdx := idx)) == BodyOf(v, f)
  {
    var a, b := OwnRequest(v.keys, v.initial, f.(fragmentIdx := idx)), OwnRequest(v.keys, v.initial, f);
    assert a.location == b.location;
  }

  /** Fragments that agree on which values they have leave nothing over. */
  lemma UniformIsSeparate(v: Service, fs: seq<FragmentData>)
    requires v.Valid()
    requires forall i, j, k | 0 <= i < |fs| && 0 <= k < |fs| && 0 <= j < 4 ::
             Value(fs, j, i).Some? == Value(fs, j, k).Some?
    requires forall i, k | 0 <= i < |fs| && 0 <= k < |fs| :: fs[i].profile.Some? == fs[k].profile.Some?
    ensures AllSeparate(v, fs)
  {
    forall n | 0 <= n < |fs|
      ensures Separate(v, fs, n)
    {
      LatestIff(fs, n + 1);
    }
  }

  /** The bodies that are fetched for a numbered sublist of the list. */
  lemma SublistBodies(v: Service, list: seq<FragmentData>, indices: seq<nat>, fs: seq<FragmentData>)
    requires v.Valid() && Ready(v.keys, v.initial) && AllSeparate(v, fs) && Within(|list|, indices)
    requires |fs| == |indices| && forall j | 0 <= j < |fs| :: fs[j] == list[indices[j]].(fragmentIdx := j + 1)
    ensures Bodies(Answers(v, fs)) == Pick(AllBodies(v, list), indices)
  {
    var answers := Answers(v, fs);
    BodiesByIndex(answers);
    forall j | 0 <= j < |fs|
      ensures Bodies(answers)[j] == BodyOf(v, list[indices[j]])
    {
      OwnBody(v, fs, j);
      NumberIsNotAsked(v, list[indices[j]], j + 1);
    }
  }

  /** Segment s's chunks are the bodies of its owned fragments, each split on its own, in list order. */
  lemma SegmentChunksAreOwnedBodies(q: Query, s: int, list: seq<FragmentData>, v: Service, size: nat)
    requires q.segments > 0 && size > 0 && v.Valid() && Ready(v.keys, v.initial) &&
             AllSeparate(v, Share(q, s, list, |list|))
    ensures Within(|list|, Owned(q, s, |list|))
    ensures SegmentChunks(q, s, list, v, size) == SplitAll(Pick(AllBodies(v, list), Owned(q, s, |list|)), size)
  {
    ShareIsOwnedSublist(q, s, list, |list|);
    SublistBodies(v, list, Owned(q, s, |list|), Share(q, s, list, |list|));
  }

  // ----- all segments -----

  ghost predicate IsQuery(q: Query, list: seq<FragmentData>, v: Service, size: nat, chunks: seq<seq<seq<Byte>>>)
    requires q.segments > 0 && size > 0 && v.Valid()
  {
    |chunks| == q.segments && FirstSegments(q, list, v, size, chunks)
  }

  ghost predicate FirstSegments(q: Query, list: seq<FragmentData>, v: Service, size: nat, chunks: seq<seq<seq<Byte>>>)
    requires q.segments > 0 && size > 0 && v.Valid()
  {
    forall s | 0 <= s < |chunks| :: chunks[s] == SegmentChunks(q, s, list, v, size)
  }

  lemma OneMore(q: Query, list: seq<FragmentData>, v: Service, size: nat, chunks: seq<seq<seq<Byte>>>,
                data: seq<seq<Byte>>)
    requires q.segments > 0 && size > 0 && v.Valid() && FirstSegments(q, list, v, size, chunks)
    requires data == SegmentChunks(q, |chunks|, list, v, size)
    ensures FirstSegments(q, list, v, size, chunks + [data])
  {
  }

  /** The chunks of all segments of a query. */
  method RunQuery(q: Query, list: seq<FragmentData>, v: Service, size: nat)
    returns (ok: bool, chunks: seq<seq<seq<Byte>>>)
    requires q.segments > 0 && size > 0 && v.Valid()
    ensures ok ==> IsQuery(q, list, v, size, chunks)
    ensures ok <==> list != [] && forall s | 0 <= s < q.segments :: Answered(q, s, list, v)
  {
    chunks := [];
    for s := 0 to q.segments
      invariant |chunks| == s && FirstSegments(q, list, v, size, chunks)
      invariant (s > 0 ==> list != []) && forall i | 0 <= i < s :: Answered(q, i, list, v)
    {
      var data;
      ok, data := RunSegment(q, s, list, v, size);
      if !ok {
        return;
      }
      OneMore(q, list, v, size, chunks, data);
      chunks := chunks + [data];
    }
    ok := true;
  }

  /** The bytes of the first n segments, in order of delivery. */
  function Delivered(chunks: seq<seq<seq<Byte>>>, n: nat): seq<Byte>
    requires n <= |chunks|
  {
    if n == 0 then [] else Delivered(chunks, n - 1) + Flat(chunks[n - 1])
  }

  lemma PickConcat(bodies: seq<seq<Byte>>, a: seq<nat>, b: seq<nat>)
    requires Within(|bodies|, a) && Within(|bodies|, b)
    ensures Within(|bodies|, a + b) && Flat(Pick(bodies, a + b)) == Flat(Pick(bodies, a)) + Flat(Pick(bodies, b))
  {
    assert Pick(bodies, a + b) == Pick(bodies, a) + Pick(bodies, b);
    FlatConcat(Pick(bodies, a), Pick(bodies, b));
  }

  lemma PickOne(bodies: seq<seq<Byte>>, x: nat)
    requires x < |bodies|
    ensures Within(|bodies|, [x]) && Flat(Pick(bodies, [x])) == bodies[x]
  {
    var one := Pick(bodies, [x]);
    assert one[1..] == [] && one[0] + [] == one[0];
  }

  /** What all segments deliver are the bodies at the joined indices, one after the other. */
  lemma {:induction false} DeliveredIsJoined(bodies: seq<seq<Byte>>, size: nat, parts: seq<seq<nat>>,
                                             chunks: seq<seq<seq<Byte>>>, n: nat)
    requires size > 0 && n <= |parts| == |chunks| && forall s | 0 <= s < |parts| :: Within(|bodies|, parts[s])
    requires forall s | 0 <= s < |parts| :: chunks[s] == SplitAll(Pick(bodies, parts[s]), size)
    ensures Within(|bodies|, Joined(parts, n)) && Delivered(chunks, n) == Flat(Pick(bodies, Joined(parts, n)))
  {
    if n > 0 {
      DeliveredIsJoined(bodies, size, parts, chunks, n - 1);
      PickConcat(bodies, Joined(parts, n - 1), parts[n - 1]);
      SplitAllIsWhole(Pick(bodies, parts[n - 1]), size);
    }
  }

  lemma RemoveSame(a: seq<nat>, x: nat, rest: seq<nat>, b: seq<nat>, b1: seq<nat>, b2: seq<nat>)
    requires a == [] + ([x] + rest) && b == b1 + ([x] + b2) && multiset(a) == multiset(b)
    ensures multiset(rest) == multiset(b1 + b2)
  {
    assert multiset(a) == multiset{x} + multiset(rest);
    assert multiset(b) == multiset(b1) + (multiset{x} + multiset(b2));
    assert multiset(b1 + b2) == multiset(b) - multiset{x};
    assert multiset(rest) == multiset(a) - multiset{x};
  }

  lemma PickInside(bodies: seq<seq<Byte>>, a: seq<nat>, x: nat, b: seq<nat>)
    requires Within(|bodies|, a) && x < |bodies| && Within(|bodies|, b)
    ensures Within(|bodies|, a + ([x] + b)) &&
            Flat(Pick(bodies, a + ([x] + b))) == Flat(Pick(bodies, a)) + (bodies[x] + Flat(Pick(bodies, b)))
  {
    PickOne(bodies, x);
    PickConcat(bodies, [x], b);
    PickConcat(bodies, a, [x] + b);
  }

  /** The same indices in another order give the same bytes in another order. */
  lemma {:induction false} SameBytes(bodies: seq<seq<Byte>>, a: seq<nat>, b: seq<nat>)
    requires Within(|bodies|, a) && Within(|bodies|, b) && multiset(a) == multiset(b)
    ensures multiset(Flat(Pick(bodies, a))) == multiset(Flat(Pick(bodies, b)))
    decreases |a|
  {
    if a == [] {
      assert |multiset(b)| == 0 && b == [];
    } else {
      var x, rest := a[0], a[1..];
      var b1, b2 := SplitAround(a, b, |bodies|);
      assert a == [] + ([x] + rest);
      RemoveSame(a, x, rest, b, b1, b2);
      SameBytes(bodies, rest, b1 + b2);
      PickInside(bodies, [], x, rest);
      PickInside(bodies, b1, x, b2);
      PickConcat(bodies, b1, b2);
      BytesMove(bodies[x], Flat(Pick(bodies, rest)), Flat(Pick(bodies, b1)), Flat(Pick(bodies, b2)));
    }
  }

  lemma SplitAround(a: seq<nat>, b: seq<nat>, n: nat) returns (b1: seq<nat>, b2: seq<nat>)
    requires a != [] && multiset(a) == multiset(b) && Within(n, b)
    ensures b == b1 + ([a[0]] + b2) && Within(n, b1) && Within(n, b2) && Within(n, b1 + b2)
  {
    assert a[0] in multiset(a);
    var i :| 0 <= i < |b| && b[i] == a[0];
    b1, b2 := b[..i], b[i + 1..];
  }

  lemma BytesMove(x: seq<Byte>, rest: seq<Byte>, b1: seq<Byte>, b2: seq<Byte>)
    requires multiset(rest) == multiset(b1 + b2)
    ensures multiset(x + rest) == multiset(b1 + (x + b2))
  {
  }

  function Indices(n: nat): (r: seq<nat>)
    ensures |r| == n && forall i | 0 <= i < n :: r[i] == i
  {
    seq(n, i requires 0 <= i < n => i)
  }

  /** With an owner for every index, the joined parts are all indices, each once. */
  lemma JoinedIsAll(q: Query, k: nat)
    requires q.segments > 0 && forall i | 0 <= i < k :: HasOwner(q, i)
    ensures multiset(Joined(Parts(q, k), q.segments)) == multiset(Indices(k))
  {
    var joined: seq<nat>, all: seq<nat> := Joined(Parts(q, k), q.segments), Indices(k);
    forall s | 0 <= s < q.segments
      ensures forall i <- Parts(q, k)[s] :: i < k
    {
      OwnedIndices(q, s, k);
    }
    JoinedBelow(Parts(q, k), q.segments, k);
    forall i: nat
      ensures multiset(joined)[i] == multiset(all)[i]
    {
      CountIncreasing(Indices(k), i);
      if i < k {
        assert Indices(k)[i] == i;
        ExactlyOneOwner(q, k, i);
      } else {
        assert i !in joined && i !in multiset(joined);
      }
    }
  }

  ghost predicate SeparateQuery(q: Query, list: seq<FragmentData>, v: Service)
    requires q.segments > 0 && v.Valid()
  {
    Ready(v.keys, v.initial) && forall s | 0 <= s < q.segments :: AllSeparate(v, Share(q, s, list, |list|))
  }

  /** Each segment delivers the bodies of the fragments it owns, split one by one, in list order. */
  lemma SegmentsDeliverOwned(q: Query, list: seq<FragmentData>, v: Service, size: nat, chunks: seq<seq<seq<Byte>>>,
                             bodies: seq<seq<Byte>>, parts: seq<seq<nat>>)
    requires q.segments > 0 && size > 0 && v.Valid() && IsQuery(q, list, v, size, chunks) && SeparateQuery(q, list, v)
    requires bodies == AllBodies(v, list) && parts == Parts(q, |list|)
    ensures forall s | 0 <= s < |parts| ::
            Within(|bodies|, parts[s]) && chunks[s] == SplitAll(Pick(bodies, parts[s]), size)
  {
    forall s | 0 <= s < |parts|
      ensures Within(|bodies|, parts[s]) && chunks[s] == SplitAll(Pick(bodies, parts[s]), size)
    {
      SegmentChunksAreOwnedBodies(q, s, list, v, size);
    }
  }

  /**
   The chunks of all segments. Each segment delivers the bodies of the fragments it owns, each
   split on its own and in list order; across the segments fragment i is delivered exactly once
   if and only if it has an owner; and when all have one, the bytes delivered are, byte for
   byte, those of all the bodies.
   */
  lemma EveryFragmentReadOnce(q: Query, list: seq<FragmentData>, v: Service, size: nat, chunks: seq<seq<seq<Byte>>>,
                              bodies: seq<seq<Byte>>, parts: seq<seq<nat>>)
    requires q.segments > 0 && size > 0 && v.Valid() && IsQuery(q, list, v, size, chunks) && SeparateQuery(q, list, v)
    requires bodies == AllBodies(v, list) && parts == Parts(q, |list|)
    ensures forall s | 0 <= s < |parts| ::
            Within(|bodies|, parts[s]) && chunks[s] == SplitAll(Pick(bodies, parts[s]), size)
    ensures forall i | 0 <= i < |list| :: multiset(Joined(parts, |parts|))[i] == if HasOwner(q, i) then 1 else 0
    ensures (forall i | 0 <= i < |list| :: HasOwner(q, i)) ==>
            multiset(Delivered(chunks, |chunks|)) == multiset(Flat(bodies))
  {
    SegmentsDeliverOwned(q, list, v, size, chunks, bodies, parts);
    forall i | 0 <= i < |list|
      ensures multiset(Joined(parts, |parts|))[i] == if HasOwner(q, i) then 1 else 0
    {
      ExactlyOneOwner(q, |list|, i);
    }
    if forall i | 0 <= i < |list| :: HasOwner(q, i) {
      JoinedIsAll(q, |list|);
      AllBytesDelivered(bodies, size, parts, chunks);
    }
  }

  lemma AllBytesDelivered(bodies: seq<seq<Byte>>, size: nat, parts: seq<seq<nat>>, chunks: seq<seq<seq<Byte>>>)
    requires size > 0 && |parts| == |chunks| && forall s | 0 <= s < |parts| :: Within(|bodies|, parts[s])
    requires forall s | 0 <= s < |parts| :: chunks[s] == SplitAll(Pick(bodies, parts[s]), size)
    requires multiset(Joined(parts, |parts|)) == multiset(Indices(|bodies|))
    ensures multiset(Delivered(chunks, |chunks|)) == multiset(Flat(bodies))
  {
    DeliveredIsJoined(bodies, size, parts, chunks, |parts|);
    SameBytes(bodies, Joined(parts, |parts|), Indices(|bodies|));
    assert Pick(bodies, Indices(|bodies|)) == bodies;
  }

  /** The query as the wrapper runs it, with its own header keys. */
  method RunPxfQuery(q: Query, list: seq<FragmentData>, initial: seq<string>, serve: Request -> seq<Perform>, size: nat)
    returns (ok: bool, chunks: seq<seq<seq<Byte>>>)
    requires q.segments > 0 && size > 0
    ensures PXF_KEYS.Valid()
    ensures ok && SeparateQuery(q, list, Service(PXF_KEYS, initial, serve)) && q.Base() >= 0 ==>
              multiset(Delivered(chunks, |chunks|)) ==
                  multiset(Flat(AllBodies(Service(PXF_KEYS, initial, serve), list)))
    ensures ok <==> (list != [] &&
                     forall s | 0 <= s < q.segments :: Answered(q, s, list, Service(PXF_KEYS, initial, serve)))
  {
    PxfKeysValid();
    var v := Service(PXF_KEYS, initial, serve);
    ok, chunks := RunQuery(q, list, v, size);
    if ok && SeparateQuery(q, list, v) && q.Base() >= 0 {
      EveryFragmentReadOnce(q, list, v, size, chunks, AllBodies(v, list), Parts(q, |list|));
    }
  }
}

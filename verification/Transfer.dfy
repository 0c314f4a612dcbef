/**
 The chunked transfer buffers: a growing array with cursors bot <= top <= max, filled and
 emptied by libcurl callbacks. Each direction is shown to be a FIFO byte stream.
 */
module Transfer {

  type Byte = bv8

  function Flat(chunks: seq<seq<Byte>>): seq<Byte> {
    if chunks == [] then [] else chunks[0] + Flat(chunks[1..])
  }

  lemma {:induction false} FlatAppend(chunks: seq<seq<Byte>>, c: seq<Byte>)
    ensures Flat(chunks + [c]) == Flat(chunks) + c
  {
    if chunks == [] {
      assert chunks + [c] == [c] && [c][1..] == [];
    } else {
      assert (chunks + [c])[1..] == chunks[1..] + [c];
      FlatAppend(chunks[1..], c);
    }
  }

  lemma Assoc(a: seq<Byte>, b: seq<Byte>, c: seq<Byte>)
    ensures a + b + c == a + (b + c)
  {
  }

  function Min(a: nat, b: nat): nat {
    if a < b then a else b
  }

  /** The buffer shared by both directions. */
  class ChurlBuffer {
    var ptr: array?<Byte>
    var max: nat
    var bot: nat
    var top: nat

    constructor ()
      ensures Valid() && Buffered() == [] && ptr == null
    {
      ptr, max, bot, top := null, 0, 0, 0;
    }

    ghost predicate Valid()
      reads this
    {
      && bot <= top <= max
      && (ptr == null ==> max == 0)
      && (ptr != null ==> ptr.Length == max)
    }

    /** The bytes stored and not yet taken. */
    ghost function Buffered(): (s: seq<Byte>)
      requires Valid()
      reads this, ptr
      ensures |s| == top - bot
    {
      if ptr == null then [] else ptr[bot..top]
    }

    predicate LargeEnough(required: nat)
      reads this
    {
      top + required <= max
    }

    /** memcpy to the top of a buffer that has room. */
    method Store(data: seq<Byte>)
      requires Valid() && LargeEnough(|data|)
      modifies this`top, ptr
      ensures Valid() && ptr == old(ptr)
      ensures Buffered() == old(Buffered()) + data
      ensures top == old(top) + |data|
    {
      if ptr != null {
        forall i | 0 <= i < |data| {
          ptr[top + i] := data[i];
        }
      }
      top := top + |data|;
    }

    /** memcpy from the bottom. */
    method Take(n: nat) returns (data: seq<Byte>)
      requires Valid() && n <= top - bot
      modifies this`bot
      ensures Valid()
      ensures |data| == n && data + Buffered() == old(Buffered())
    {
      if ptr == null {
        return [];
      }
      data := ptr[bot..bot + n];
      bot := bot + n;
    }

    method Compact()
      requires Valid()
      modifies this`bot, this`top, ptr
      ensures Valid() && bot == 0 && Buffered() == old(Buffered())
    {
      if bot == 0 {
        return;
      }
      var n := top - bot;
      if ptr != null {
        forall i | 0 <= i < n {
          ptr[i] := ptr[bot + i];
        }
      }
      bot, top := 0, n;
    }

    /** repalloc keeps the stored bytes; called on a compacted buffer that is too small. */
    method Realloc(required: nat)
      requires Valid() && bot == 0 && !LargeEnough(required)
      modifies this`ptr, this`max
      ensures Valid() && fresh(ptr) && LargeEnough(required)
      ensures Buffered() == old(Buffered())
    {
      var n := top - bot + required + 1024;
      var grown := new Byte[n];
      if ptr != null {
        forall i | 0 <= i < top {
          grown[i] := ptr[i];
        }
      }
      ptr, max := grown, n;
    }

    /** Replaces the block without copying, so nothing may be left in it. */
    method Enlarge(required: nat)
      requires Valid() && bot == top == 0
      modifies this`ptr, this`max
      ensures Valid() && fresh(ptr) && LargeEnough(required)
      ensures Buffered() == []
    {
      max := required + 1024;
      ptr := new Byte[max];
    }
  }

  // ----- download -----

  /** One curl_multi_perform: the bodies handed to write_callback and the state it reports. */
  datatype Perform = Perform(chunks: seq<seq<Byte>>, running: bool, healthy: bool)

  /** The bytes a transfer will still deliver; it ends with the script or a stopped step. */
  function Coming(running: bool, script: seq<Perform>): seq<Byte> {
    if !running || script == [] then []
    else Flat(script[0].chunks) + Coming(script[0].running, script[1..])
  }

  function Body(script: seq<Perform>): seq<Byte> {
    Coming(true, script)
  }

  /** Whether the response is good when the transfer is over. */
  predicate GoodAtEnd(running: bool, healthy: bool, script: seq<Perform>)
    decreases script
  {
    if !running || script == [] then healthy
    else GoodAtEnd(script[0].running, script[0].healthy, script[1..])
  }

  /** Whether it is good at the first byte, or at the end if there is none. */
  predicate GoodAtStart(running: bool, healthy: bool, started: bool, script: seq<Perform>)
    decreases script
  {
    if !running || started || script == [] then healthy
    else GoodAtStart(script[0].running, script[0].healthy, Flat(script[0].chunks) != [], script[1..])
  }

  predicate OpensWell(script: seq<Perform>) {
    GoodAtStart(true, true, false, script)
  }

  predicate EndsWell(script: seq<Perform>) {
    GoodAtEnd(true, true, script)
  }

  /** The steps that a transfer makes: all, or those up to the first that stops it. */
  function Steps(script: seq<Perform>): (r: seq<Perform>)
    ensures script != [] ==> r != []
  {
    if script == [] then [] else [script[0]] + if script[0].running then Steps(script[1..]) else []
  }

  /** Those up to the first that brings a byte. */
  function FirstSteps(script: seq<Perform>): (r: seq<Perform>)
    ensures script != [] ==> r != []
  {
    if script == [] then []
    else [script[0]] + if script[0].running && Flat(script[0].chunks) == [] then FirstSteps(script[1..]) else []
  }

  /** A transfer opens or ends well when the last of these steps reports a good response. */
  lemma {:induction false} WellByLastStep(script: seq<Perform>)
    requires script != []
    ensures EndsWell(script) <==> Steps(script)[|Steps(script)| - 1].healthy
    ensures OpensWell(script) <==> FirstSteps(script)[|FirstSteps(script)| - 1].healthy
  {
    EndByLastStep(script, true);
    StartByLastStep(script, true);
  }

  lemma {:induction false} EndByLastStep(script: seq<Perform>, healthy: bool)
    requires script != []
    ensures GoodAtEnd(true, healthy, script) <==> Steps(script)[|Steps(script)| - 1].healthy
  {
    if script[0].running && script[1..] != [] {
      EndByLastStep(script[1..], script[0].healthy);
    }
  }

  lemma {:induction false} StartByLastStep(script: seq<Perform>, healthy: bool)
    requires script != []
    ensures GoodAtStart(true, healthy, false, script) <==> FirstSteps(script)[|FirstSteps(script)| - 1].healthy
  {
    if script[0].running && Flat(script[0].chunks) == [] && script[1..] != [] {
      StartByLastStep(script[1..], script[0].healthy);
    }
  }

  /** No step reports an error. */
  predicate Healthy(script: seq<Perform>) {
    forall step <- script :: step.healthy
  }

  lemma {:induction false} HealthyIsWell(script: seq<Perform>, started: bool)
    requires Healthy(script)
    ensures GoodAtEnd(true, true, script) && GoodAtStart(true, true, started, script)
  {
    if script != [] && script[0].running {
      assert script[0] in script;
      HealthyIsWell(script[1..], Flat(script[0].chunks) != []);
    }
  }

  class Download {
    const buffer: ChurlBuffer
    var running: bool
    var healthy: bool
    /** What the network will still do. */
    var script: seq<Perform>

    ghost predicate Valid()
      reads this, buffer
    {
      buffer.Valid()
    }

    /** The response will be good at the end. */
    ghost predicate EndsGood()
      reads this
    {
      GoodAtEnd(running, healthy, script)
    }

    /** The response will be good once a byte is stored, or at the end. */
    ghost predicate StartsGood()
      requires Valid()
      reads this, buffer
    {
      GoodAtStart(running, healthy, buffer.bot < buffer.top, script)
    }

    /** Everything the reader has yet to receive: stored bytes, then bytes still to come. */
    ghost function Stream(): seq<Byte>
      requires Valid()
      reads this, buffer, buffer.ptr
    {
      buffer.Buffered() + Coming(running, script)
    }

    constructor (script: seq<Perform>)
      ensures Valid() && fresh(buffer) && (buffer.ptr == null || fresh(buffer.ptr))
      ensures Stream() == Body(script)
      ensures EndsGood() == EndsWell(script) && StartsGood() == OpensWell(script)
    {
      buffer := new ChurlBuffer();
      running, healthy := true, true;
      this.script := script;
      new;
      assert buffer.Buffered() + Body(script) == Body(script);
      MultiPerform();
    }

    method WriteCallback(data: seq<Byte>)
      requires Valid()
      modifies buffer, buffer.ptr
      ensures Valid() && (buffer.ptr == old(buffer.ptr) || fresh(buffer.ptr))
      ensures buffer.Buffered() == old(buffer.Buffered()) + data
    {
      if !buffer.LargeEnough(|data|) {
        buffer.Compact();
        if !buffer.LargeEnough(|data|) {
          buffer.Realloc(|data|);
        }
      }
      buffer.Store(data);
    }

    /** Runs the callbacks of the next step; past the last step the transfer has ended. */
    method MultiPerform()
      requires Valid() && running
      modifies this, buffer, buffer.ptr
      ensures Valid() && (buffer.ptr == old(buffer.ptr) || fresh(buffer.ptr))
      ensures Stream() == old(Stream()) && EndsGood() == old(EndsGood())
      ensures old(buffer.Buffered()) == [] ==> StartsGood() == old(StartsGood())
      ensures |script| < old(|script|) || (!running && script == old(script))
    {
      if script == [] {
        running := false;
        return;
      }
      var step := script[0];
      ghost var before := buffer.Buffered();
      RunCallbacks(step.chunks);
      Assoc(before, Flat(step.chunks), Coming(step.running, script[1..]));
      running, healthy, script := step.running, step.healthy, script[1..];
    }

    method RunCallbacks(chunks: seq<seq<Byte>>)
      requires Valid()
      modifies buffer, buffer.ptr
      ensures Valid() && (buffer.ptr == old(buffer.ptr) || fresh(buffer.ptr))
      ensures buffer.Buffered() == old(buffer.Buffered()) + Flat(chunks)
    {
      for k := 0 to |chunks|
        invariant Valid() && (buffer.ptr == old(buffer.ptr) || fresh(buffer.ptr))
        invariant buffer.Buffered() == old(buffer.Buffered()) + Flat(chunks[..k])
      {
        assert chunks[..k + 1] == chunks[..k] + [chunks[k]];
        FlatAppend(chunks[..k], chunks[k]);
        Assoc(old(buffer.Buffered()), Flat(chunks[..k]), chunks[k]);
        WriteCallback(chunks[k]);
      }
      assert chunks[..|chunks|] == chunks;
    }

    /** Returns when want bytes are stored or the transfer has ended. */
    method FillInternalBuffer(want: nat)
      requires Valid()
      modifies this, buffer, buffer.ptr
      ensures Valid() && (buffer.ptr == old(buffer.ptr) || fresh(buffer.ptr))
      ensures Stream() == old(Stream()) && EndsGood() == old(EndsGood())
      ensures want <= 1 ==> StartsGood() == old(StartsGood())
      ensures |buffer.Buffered()| >= want || !running
    {
      while running && buffer.top - buffer.bot < want
        invariant Valid() && (buffer.ptr == old(buffer.ptr) || fresh(buffer.ptr))
        invariant Stream() == old(Stream()) && EndsGood() == old(EndsGood())
        invariant want <= 1 ==> StartsGood() == old(StartsGood())
        decreases |script|, running
      {
        MultiPerform();
      }
    }

    /** Delivers the next maxSize bytes of the stream, fewer only if the stream is shorter. */
    method Read(maxSize: nat) returns (data: seq<Byte>)
      requires Valid()
      modifies this, buffer, buffer.ptr
      ensures Valid() && (buffer.ptr == old(buffer.ptr) || fresh(buffer.ptr))
      ensures data + Stream() == old(Stream()) && EndsGood() == old(EndsGood())
      ensures |data| == Min(maxSize, |old(Stream())|)
      ensures |data| < maxSize ==> !running && Stream() == []
    {
      FillInternalBuffer(maxSize);
      var n := buffer.top - buffer.bot;
      if n > maxSize {
        n := maxSize;
      }
      ghost var coming := Coming(running, script);
      ghost var stored := buffer.Buffered();
      data := buffer.Take(n);
      Assoc(data, buffer.Buffered(), coming);
    }

    /** Reads a byte ahead and reports whether the response is good then; after the last byte, at the end. */
    method CheckConnectivity() returns (ok: bool)
      requires Valid()
      modifies this, buffer, buffer.ptr
      ensures Valid() && (buffer.ptr == old(buffer.ptr) || fresh(buffer.ptr))
      ensures Stream() == old(Stream()) && EndsGood() == old(EndsGood())
      ensures ok == healthy == old(StartsGood())
      ensures old(Stream()) == [] ==> ok == old(EndsGood())
    {
      FillInternalBuffer(1);
      ok := healthy;
    }

    /** Starts the next transfer on the same buffer, which is not cleared. */
    method Restart(next: seq<Perform>)
      requires Valid()
      modifies this, buffer, buffer.ptr
      ensures Valid() && (buffer.ptr == old(buffer.ptr) || fresh(buffer.ptr))
      ensures Stream() == old(buffer.Buffered()) + Body(next)
      ensures old(healthy) ==> EndsGood() == EndsWell(next)
      ensures old(healthy) && old(buffer.Buffered()) == [] ==> StartsGood() == OpensWell(next)
    {
      script, running := next, true;
      MultiPerform();
    }
  }

  // ----- upload -----

  /** One curl_multi_perform of an upload: the sizes asked of read_callback and the state it reports. */
  datatype Demand = Demand(sizes: seq<nat>, running: bool, healthy: bool)

  /** Whether the response to an upload is good when it is over: the last step made decides. */
  predicate GoodAfter(running: bool, healthy: bool, script: seq<Demand>)
    decreases script
  {
    if !running || script == [] then healthy
    else GoodAfter(script[0].running, script[0].healthy, script[1..])
  }

  class Upload {
    const buffer: ChurlBuffer
    var running: bool
    var healthy: bool
    var script: seq<Demand>
    /** Bytes libcurl has taken. */
    var sent: seq<Byte>

    ghost predicate Valid()
      reads this, buffer
    {
      buffer.Valid()
    }

    /** No error has been seen and none will be. */
    ghost predicate Good()
      reads this
    {
      healthy && forall step <- script :: step.healthy
    }

    /** The response will be good at the end. */
    ghost predicate EndsGood()
      reads this
    {
      GoodAfter(running, healthy, script)
    }

    /** Why an error is raised: the server reported one, or it stopped with bytes left to send. */
    ghost predicate Failed()
      requires Valid()
      reads this, buffer
    {
      !healthy || (!running && buffer.bot < buffer.top)
    }

    /** Everything handed to the connection so far, sent or not. */
    ghost function Accepted(): seq<Byte>
      requires Valid()
      reads this, buffer, buffer.ptr
    {
      sent + buffer.Buffered()
    }

    constructor (script: seq<Demand>)
      ensures Valid() && fresh(buffer) && (buffer.ptr == null || fresh(buffer.ptr))
      ensures Accepted() == []
      ensures (forall step <- script :: step.healthy) ==> Good()
      ensures EndsGood() == GoodAfter(true, true, script)
    {
      buffer := new ChurlBuffer();
      running, healthy := true, true;
      this.script := script;
      sent := [];
      new;
      MultiPerform();
    }

    method ReadCallback(size: nat)
      requires Valid()
      modifies this`sent, buffer`bot
      ensures Valid() && Accepted() == old(Accepted())
      ensures |sent| == |old(sent)| + Min(size, |old(buffer.Buffered())|)
    {
      var n := Min(size, buffer.top - buffer.bot);
      ghost var before := sent;
      var data := buffer.Take(n);
      sent := sent + data;
      Assoc(before, data, buffer.Buffered());
    }

    method MultiPerform()
      requires Valid() && running
      modifies this, buffer`bot
      ensures Valid() && Accepted() == old(Accepted()) && (old(Good()) ==> Good()) && EndsGood() == old(EndsGood())
      ensures |buffer.Buffered()| <= |old(buffer.Buffered())|
      ensures |script| < old(|script|) || (!running && script == old(script))
    {
      if script == [] {
        running := false;
        return;
      }
      var step := script[0];
      for k := 0 to |step.sizes|
        invariant Valid() && Accepted() == old(Accepted())
        invariant |buffer.Buffered()| <= |old(buffer.Buffered())|
        invariant running && script == old(script) && healthy == old(healthy)
      {
        ReadCallback(step.sizes[k]);
      }
      running, healthy, script := step.running, step.healthy, script[1..];
    }

    /** Sends everything stored; false when an error is raised. */
    method FlushInternalBuffer() returns (ok: bool)
      requires Valid()
      modifies this, buffer`bot, buffer`top
      ensures Valid() && Accepted() == old(Accepted()) && (old(Good()) ==> Good()) && EndsGood() == old(EndsGood())
      ensures ok ==> buffer.bot == buffer.top == 0 && sent == old(Accepted())
      ensures !ok ==> Failed()
    {
      if buffer.top == 0 {
        return true;
      }
      while running && buffer.top - buffer.bot > 0
        invariant Valid() && Accepted() == old(Accepted()) && (old(Good()) ==> Good()) && EndsGood() == old(EndsGood())
        decreases |script|, running
      {
        MultiPerform();
      }
      if !running && buffer.top - buffer.bot > 0 {
        return false;
      }
      if !healthy {
        return false;
      }
      buffer.top, buffer.bot := 0, 0;
      return true;
    }

    /** Flushes, and replaces the block, when the buffer is too small. */
    method MakeRoom(required: nat) returns (ok: bool)
      requires Valid()
      modifies this, buffer
      ensures Valid() && (buffer.ptr == old(buffer.ptr) || fresh(buffer.ptr))
      ensures Accepted() == old(Accepted()) && (old(Good()) ==> Good()) && EndsGood() == old(EndsGood())
      ensures if ok then buffer.LargeEnough(required) else Failed()
    {
      if buffer.LargeEnough(required) {
        return true;
      }
      ok := FlushInternalBuffer();
      if ok && !buffer.LargeEnough(required) {
        buffer.Enlarge(required);
      }
    }

    method Write(data: seq<Byte>) returns (ok: bool)
      requires Valid()
      modifies this, buffer, buffer.ptr
      ensures Valid() && (buffer.ptr == old(buffer.ptr) || fresh(buffer.ptr))
      ensures Accepted() == if ok then old(Accepted()) + data else old(Accepted())
      ensures (old(Good()) ==> Good()) && EndsGood() == old(EndsGood())
      ensures !ok ==> Failed()
    {
      ok := MakeRoom(|data|);
      if !ok {
        return;
      }
      ghost var stored := buffer.Buffered();
      buffer.Store(data);
      Assoc(sent, stored, data);
    }

    /** Lets the connection end; without an error every accepted byte was sent, once, in order. */
    method Finish() returns (ok: bool)
      requires Valid()
      modifies this, buffer`bot, buffer`top
      ensures Valid() && Accepted() == old(Accepted()) && (old(Good()) ==> Good()) && EndsGood() == old(EndsGood())
      ensures ok ==> sent == old(Accepted()) && !running && healthy
      ensures !ok ==> Failed()
    {
      ok := FlushInternalBuffer();
      if !ok {
        return;
      }
      while running
        invariant Valid() && Accepted() == old(Accepted()) && buffer.Buffered() == []
        invariant (old(Good()) ==> Good()) && EndsGood() == old(EndsGood())
        decreases |script|, running
      {
        MultiPerform();
      }
      ok := healthy;
    }
  }

  /** Writes one block after the other, up to the first error. */
  method WriteAll(up: Upload, writes: seq<seq<Byte>>) returns (ok: bool)
    requires up.Valid() && up.Accepted() == []
    modifies up, up.buffer, up.buffer.ptr
    ensures up.Valid() && (up.buffer.ptr == old(up.buffer.ptr) || fresh(up.buffer.ptr))
    ensures ok ==> up.Accepted() == Flat(writes)
    ensures !ok ==> up.Accepted() <= Flat(writes) && up.Failed()
    ensures (old(up.Good()) ==> up.Good()) && up.EndsGood() == old(up.EndsGood())
  {
    for k := 0 to |writes|
      invariant up.Valid() && (up.buffer.ptr == old(up.buffer.ptr) || fresh(up.buffer.ptr))
      invariant up.Accepted() == Flat(writes[..k])
      invariant (old(up.Good()) ==> up.Good()) && up.EndsGood() == old(up.EndsGood())
    {
      assert writes[..k + 1] == writes[..k] + [writes[k]];
      FlatAppend(writes[..k], writes[k]);
      FlatPrefix(writes, k);
      ok := up.Write(writes[k]);
      if !ok {
        return;
      }
    }
    assert writes[..|writes|] == writes;
    ok := true;
  }

  /**
   A whole upload: an outcome without error means the server got exactly what was written and
   ended with a good response, and an error with a server that reports none means that it got
   less.
   */
  method UploadAll(writes: seq<seq<Byte>>, script: seq<Demand>) returns (ok: bool, received: seq<Byte>)
    ensures received <= Flat(writes)
    ensures ok ==> received == Flat(writes) && GoodAfter(true, true, script)
    ensures (forall step <- script :: step.healthy) && received == Flat(writes) ==> ok
  {
    var up := new Upload(script);
    ok := WriteAll(up, writes);
    if ok {
      ok := up.Finish();
    }
    received := up.sent;
    assert |up.Accepted()| == |up.sent| + (up.buffer.top - up.buffer.bot);
  }

  lemma {:induction false} FlatPrefix(chunks: seq<seq<Byte>>, k: nat)
    requires k <= |chunks|
    ensures Flat(chunks[..k]) <= Flat(chunks)
  {
    if k > 0 {
      FlatPrefix(chunks[1..], k - 1);
      assert chunks[..k][1..] == chunks[1..][..k - 1];
    }
  }
}

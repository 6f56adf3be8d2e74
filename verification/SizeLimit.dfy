/** The size limit of a reader: what it bounds, and when a rejection is final. */
module SizeLimit {
  import opened Results
  import opened Decimal
  import opened HttpHeader
  import opened PacketReader
  import opened Fragmentation
  import Text

  /** One call of `read_packet`. */
  datatype Call = Call(kind: Kind, bytes: string, hdrOnly: bool)

  function Bytes(calls: seq<Call>): nat {
    if calls == [] then 0 else Bytes(calls[..|calls| - 1]) + |calls[|calls| - 1].bytes|
  }

  function After(r: Reader, calls: seq<Call>): Reader
    decreases |calls|
  {
    if calls == [] then
      r
    else
      var c := calls[|calls| - 1];
      Read(After(r, calls[..|calls| - 1]), c.kind, c.bytes, c.hdrOnly).0
  }

  /** The answer to the last call. */
  function LastAnswer(r: Reader, calls: seq<Call>): Answer
    requires calls != []
  {
    var c := calls[|calls| - 1];
    Read(After(r, calls[..|calls| - 1]), c.kind, c.bytes, c.hdrOnly).1
  }

  predicate Delivered(a: Answer) {
    a.Ok? && a.value.Some?
  }

  /** The header has no usable length: under a limit every read fails on it. */
  predicate Stuck(r: Reader) {
    !r.constructed && r.header.Some? && ContentLength(r.header.value).Err?
  }

  predicate OverCount(r: Reader) {
    r.totalSize >= r.maxSize && (r.header.Some? ==> ContentLength(r.header.value).Ok?)
  }

  predicate OverPromise(r: Reader) {
    && r.header.Some?
    && ContentLength(r.header.value).Ok?
    && ContentLength(r.header.value).value + |r.headerCache| >= r.maxSize
  }

  /** The states a rejection leaves: the counter has reached the limit, or the header promises too much. */
  predicate Rejecting(r: Reader) {
    !r.constructed && r.maxSize > 0 && (OverCount(r) || OverPromise(r))
  }

  /** The bytes of the calls made since the last one that delivered a packet. */
  function Since(r: Reader, calls: seq<Call>): nat
    decreases |calls|
  {
    if calls == [] || Delivered(LastAnswer(r, calls)) then
      0
    else
      Since(r, calls[..|calls| - 1]) + |calls[|calls| - 1].bytes|
  }

  /** The bytes the last call's answer is made from: its own, and those the reader held. */
  function Spent(r: Reader, calls: seq<Call>): nat
    requires calls != []
  {
    Since(r, calls[..|calls| - 1]) + |calls[|calls| - 1].bytes|
  }

  /** A reader between two packets: it is new, or it has just delivered one. */
  predicate Idle(r: Reader) {
    r.constructed || r == Fresh(r.level, r.maxSize)
  }

  /** How the counter goes with the bytes read since the last delivery: it holds their number, unless it has
      wrapped around, the next read clears it, or the reader can no longer deliver. */
  predicate Tracks(r: Reader, bytes: nat) {
    if r.constructed then
      bytes == 0
    else
      bytes >= UNSIGNED_MODULUS || Stuck(r) || OverPromise(r) || r.totalSize == bytes
  }

  lemma ContentLengthErrors(h: Header)
    ensures ContentLength(h).Err? ==> ContentLength(h).error != RequestTooLarge
  {
  }

  lemma {:induction false} ParseOptionsErrors(lines: seq<string>, level: Level, options: Options)
    ensures ParseOptions(lines, level, options).Err? ==> ParseOptions(lines, level, options).error != RequestTooLarge
    decreases |lines|
  {
    if lines != [] && ParseOption(lines[0], level, options).Ok? {
      ParseOptionsErrors(lines[1..], level, ParseOption(lines[0], level, options).value);
    }
  }

  lemma BuildErrors(kind: Kind, level: Level, text: string)
    ensures Build(kind, level, text).Err? ==> Build(kind, level, text).error != RequestTooLarge
  {
    hide ParseOptions;
    ParseOptionsErrors(Text.Split(text, IsBreak)[1..], level, INITIAL);
  }

  lemma AbsorbErrors(r: Reader, kind: Kind, s: string)
    ensures Absorb(r, kind, s).1 != Some(RequestTooLarge)
  {
    hide HeaderEnd, Build;
    if HeaderEnd(r.headerCache + s).Some? {
      BuildErrors(kind, r.level, (r.headerCache + s)[..HeaderEnd(r.headerCache + s).value.0]);
    }
  }

  /** A rejection leaves the reader in such a state. */
  lemma RejectionRejects(r: Reader, c: Call)
    requires Read(r, c.kind, c.bytes, c.hdrOnly).1 == Err(RequestTooLarge)
    ensures Rejecting(Read(r, c.kind, c.bytes, c.hdrOnly).0)
  {
    hide HeaderEnd, ContentLength, MakePacket, Absorb;
    var r0 := if r.constructed then Cleared(r) else r;
    var (r1, e) := CheckSize(r0, |c.bytes| % UNSIGNED_MODULUS);
    if e.None? {
      AbsorbErrors(r1, c.kind, c.bytes);
      var (r2, _) := Absorb(r1, c.kind, c.bytes);
      if r2.header.Some? {
        ContentLengthErrors(r2.header.value);
      }
    } else if r0.header.Some? {
      ContentLengthErrors(r0.header.value);
    }
  }

  /** The counter after some more bytes, which wraps around. */
  function Wrapped(r: Reader, bytes: nat): nat {
    (r.totalSize + bytes) % UNSIGNED_MODULUS
  }

  /** In such a state a read is rejected exactly if the header promises too much, and then nothing changes, or
      if the counter, which wraps around, does not fall below the limit, and then only the counter changes. */
  lemma RejectedAgain(r: Reader, c: Call)
    requires Rejecting(r)
    ensures
      var (r', a) := Read(r, c.kind, c.bytes, c.hdrOnly);
      && (a == Err(RequestTooLarge) <==> OverPromise(r) || Wrapped(r, |c.bytes|) >= r.maxSize)
      && (a == Err(RequestTooLarge) ==>
            r' == if OverPromise(r) then r else r.(totalSize := Wrapped(r, |c.bytes|)))
  {
    hide HeaderEnd, ContentLength, MakePacket, Absorb;
    var (r1, e) := CheckSize(r, |c.bytes| % UNSIGNED_MODULUS);
    WrapTwice(r.totalSize, |c.bytes|);
    if e.None? {
      AbsorbErrors(r1, c.kind, c.bytes);
      var (r2, _) := Absorb(r1, c.kind, c.bytes);
      if r2.header.Some? {
        ContentLengthErrors(r2.header.value);
      }
    }
  }

  lemma WrapTwice(a: nat, b: nat)
    ensures (a + b % UNSIGNED_MODULUS) % UNSIGNED_MODULUS == (a + b) % UNSIGNED_MODULUS
    ensures (a % UNSIGNED_MODULUS + b) % UNSIGNED_MODULUS == (a + b) % UNSIGNED_MODULUS
  {
    WrapMore(a + b % UNSIGNED_MODULUS, b / UNSIGNED_MODULUS);
    WrapMore(a % UNSIGNED_MODULUS + b, a / UNSIGNED_MODULUS);
  }

  lemma {:induction false} WrapMore(a: nat, k: nat)
    ensures (a + k * UNSIGNED_MODULUS) % UNSIGNED_MODULUS == a % UNSIGNED_MODULUS
  {
    if k > 0 {
      WrapMore(a, k - 1);
      assert a + k * UNSIGNED_MODULUS == (a + (k - 1) * UNSIGNED_MODULUS) + UNSIGNED_MODULUS;
    }
  }

  /** Every call of the run is rejected. */
  predicate AllRejected(r: Reader, calls: seq<Call>) {
    forall k :: 0 < k <= |calls| ==> LastAnswer(r, calls[..k]) == Err(RequestTooLarge)
  }

  /** The wrapped counter would be at the limit, or over it, after every call of the run. */
  predicate StaysOver(r: Reader, calls: seq<Call>) {
    forall k :: 0 < k <= |calls| ==> Wrapped(r, Bytes(calls[..k])) >= r.maxSize
  }

  lemma LastOf(r: Reader, front: seq<Call>, c: Call)
    ensures LastAnswer(r, front + [c]) == Read(After(r, front), c.kind, c.bytes, c.hdrOnly).1
    ensures Bytes(front + [c]) == Bytes(front) + |c.bytes|
  {
    hide Read;
    assert (front + [c])[..|front|] == front;
  }

  lemma RejectedSnoc(r: Reader, front: seq<Call>, c: Call)
    ensures AllRejected(r, front + [c]) <==>
            AllRejected(r, front) && Read(After(r, front), c.kind, c.bytes, c.hdrOnly).1 == Err(RequestTooLarge)
    ensures StaysOver(r, front + [c]) <==>
            StaysOver(r, front) && Wrapped(r, Bytes(front) + |c.bytes|) >= r.maxSize
  {
    var calls := front + [c];
    LastOf(r, front, c);
    hide Read, Wrapped, LastAnswer, After, Bytes;
    assert calls[..|calls|] == calls;
    assert forall k :: 0 <= k <= |front| ==> calls[..k] == front[..k];
    forall k | 0 < k <= |front|
      ensures AllRejected(r, calls) ==> LastAnswer(r, front[..k]) == Err(RequestTooLarge)
      ensures StaysOver(r, calls) ==> Wrapped(r, Bytes(front[..k])) >= r.maxSize
    {
      assert calls[..k] == front[..k];
    }
  }

  /** After a rejection every call of a run is rejected exactly if the header promises too much or the wrapped
      counter never falls below the limit; and then nothing changes but the counter. */
  lemma {:induction false} RejectedExactly(r: Reader, calls: seq<Call>)
    requires Rejecting(r)
    ensures AllRejected(r, calls) <==> OverPromise(r) || StaysOver(r, calls)
    ensures AllRejected(r, calls) ==>
              After(r, calls) == if OverPromise(r) then r else r.(totalSize := Wrapped(r, Bytes(calls)))
    decreases |calls|
  {
    hide Read, OverPromise, AllRejected, StaysOver;
    if calls == [] {
      RejectedNone(r);
    } else {
      var front, c := calls[..|calls| - 1], calls[|calls| - 1];
      assert calls == front + [c];
      RejectedExactly(r, front);
      RejectedSnoc(r, front, c);
      if AllRejected(r, front) {
        var now := After(r, front);
        StillRejecting(r, front);
        RejectedAgain(now, c);
        WrapTwice(r.totalSize + Bytes(front), |c.bytes|);
      }
    }
  }

  lemma RejectedNone(r: Reader)
    ensures AllRejected(r, []) && StaysOver(r, []) && r.(totalSize := Wrapped(r, 0)) == r
  {
  }

  /** A run of rejections leaves the reader in such a state. */
  lemma StillRejecting(r: Reader, calls: seq<Call>)
    requires Rejecting(r) && AllRejected(r, calls)
    requires OverPromise(r) || StaysOver(r, calls)
    requires After(r, calls) == if OverPromise(r) then r else r.(totalSize := Wrapped(r, Bytes(calls)))
    ensures Rejecting(After(r, calls)) && (OverPromise(After(r, calls)) <==> OverPromise(r))
  {
    hide Read, ContentLength, AllRejected;
    assert calls[..|calls|] == calls;
    if calls == [] {
      RejectedNone(r);
    }
  }

  /** As long as the counter cannot have wrapped around, a rejected reader rejects everything. */
  lemma RejectionIsFinal(r: Reader, calls: seq<Call>)
    requires Rejecting(r) && r.totalSize + Bytes(calls) < UNSIGNED_MODULUS
    ensures AllRejected(r, calls) && Rejecting(After(r, calls))
    ensures After(r, calls).totalSize <= r.totalSize + Bytes(calls)
    ensures calls != [] ==> LastAnswer(r, calls) == Err(RequestTooLarge)
  {
    hide Read, LastAnswer, After, ContentLength;
    forall k | 0 < k <= |calls|
      ensures OverPromise(r) || Wrapped(r, Bytes(calls[..k])) >= r.maxSize
    {
      BytesOfPrefix(calls, k);
    }
    RejectedExactly(r, calls);
    StillRejecting(r, calls);
    assert calls[..|calls|] == calls;
  }

  lemma {:induction false} BytesOfPrefix(calls: seq<Call>, k: nat)
    requires k <= |calls|
    ensures Bytes(calls[..k]) <= Bytes(calls)
    decreases |calls|
  {
    if k < |calls| {
      BytesOfPrefix(calls[..|calls| - 1], k);
      assert calls[..|calls| - 1][..k] == calls[..k];
    } else {
      assert calls[..k] == calls;
    }
  }

  /** Once the counter has wrapped around to less than the limit the reader reads again, and the limit no
      longer holds: if a reader was rejected before it had a header, a fragment that completes one framed
      packet and brings the counter there is delivered. */
  lemma WrapAroundAccepts(r: Reader, calls: seq<Call>, kind: Kind, s: string, f: Frame)
    requires Rejecting(r) && r.header == None && r.contentCache == "" && s != ""
    requires AllRejected(r, calls) && Wrapped(r, Bytes(calls) + |s|) < r.maxSize
    requires Framed(r.level, kind, r.headerCache + s, f) && BodyStart(f) <= |r.headerCache + s|
    ensures LastAnswer(r, calls + [Call(kind, s, false)]) == Ok(Some(FramePacket(r.headerCache + s, f)))
  {
    hide CheckSize, Read, HeaderEnd, Build, ContentLength, MakePacket, Rejecting, AllRejected, FramePacket, Framed;
    var c := Call(kind, s, false);
    RejectedExactly(r, calls);
    LastOf(r, calls, c);
    RejectingFacts(r);
    WrapTwice(r.totalSize + Bytes(calls), |s|);
    var now := After(r, calls);
    WrappedCheck(now, |s|);
    CompletesPacket(now, now.(totalSize := Wrapped(now, |s|)), c, f);
  }

  lemma RejectingFacts(r: Reader)
    requires Rejecting(r)
    ensures !r.constructed && r.maxSize > 0 && (r.header.None? ==> !OverPromise(r))
  {
  }

  /** A read that passes the check and completes one framed packet delivers it. */
  lemma CompletesPacket(r: Reader, r1: Reader, c: Call, f: Frame)
    requires !r.constructed && CheckSize(r, |c.bytes| % UNSIGNED_MODULUS) == (r1, None)
    requires r1 == r.(totalSize := r1.totalSize) && r.header == None && r.contentCache == ""
    requires c.bytes != "" && !c.hdrOnly
    requires Framed(r.level, c.kind, r.headerCache + c.bytes, f) && BodyStart(f) <= |r.headerCache + c.bytes|
    ensures Read(r, c.kind, c.bytes, c.hdrOnly).1 == Ok(Some(FramePacket(r.headerCache + c.bytes, f)))
  {
    hide CheckSize, HeaderEnd, Build, ContentLength, MakePacket;
    var body := (r.headerCache + c.bytes)[BodyStart(f)..];
    assert "" + body == body && body[..|body|] == body;
  }

  lemma WrappedCheck(r: Reader, size: nat)
    requires r.header == None && r.maxSize > 0 && Wrapped(r, size) < r.maxSize
    ensures CheckSize(r, size % UNSIGNED_MODULUS) == (r.(totalSize := Wrapped(r, size)), None)
  {
    WrapTwice(r.totalSize, size);
  }

  /** A reader is in that state after a first read that is too large. */
  lemma RejectedFirst(level: Level, max: Unsigned, c: Call)
    requires 0 < max <= |c.bytes| % UNSIGNED_MODULUS
    ensures
      var (r, a) := Read(Fresh(level, max), c.kind, c.bytes, c.hdrOnly);
      && a == Err(RequestTooLarge)
      && r == Fresh(level, max).(totalSize := |c.bytes| % UNSIGNED_MODULUS)
      && Rejecting(r)
  {
    hide Absorb, Deliver;
  }

  // ----- Every packet of a run -----

  lemma TrackStep(r: Reader, c: Call, bytes: nat)
    requires r.maxSize > 0 && Tracks(r, bytes)
    ensures
      var (r', a) := Read(r, c.kind, c.bytes, c.hdrOnly);
      var spent := bytes + |c.bytes|;
      && r'.maxSize == r.maxSize
      && (Delivered(a) && spent < UNSIGNED_MODULUS ==> spent < r.maxSize)
      && Tracks(r', if Delivered(a) then 0 else spent)
  {
    hide HeaderEnd, Build, ContentLength, MakePacket, CheckSize, Tracks;
    var r0 := if r.constructed then Cleared(r) else r;
    var n := |c.bytes| % UNSIGNED_MODULUS;
    var (r1, e) := CheckSize(r0, n);
    ClearedTracks(r, bytes);
    CheckTracks(r0, |c.bytes|, bytes);
    if e.None? {
      ReadTracks(r1, c, bytes + |c.bytes|);
    }
  }

  lemma ClearedTracks(r: Reader, bytes: nat)
    requires Tracks(r, bytes)
    ensures Tracks(if r.constructed then Cleared(r) else r, bytes)
  {
  }

  /** The check rejects a reader that can no longer deliver; any other counts the bytes. */
  lemma CheckTracks(r: Reader, size: nat, bytes: nat)
    requires r.maxSize > 0 && !r.constructed && Tracks(r, bytes)
    ensures
      var (r', e) := CheckSize(r, size % UNSIGNED_MODULUS);
      && !r'.constructed && r'.maxSize == r.maxSize && Tracks(r', bytes + size)
      && (e.None? && bytes + size < UNSIGNED_MODULUS ==> r'.totalSize == bytes + size < r.maxSize)
  {
    hide ContentLength;
  }

  /** The rest of a read does not touch the counter. */
  lemma ReadTracks(r: Reader, c: Call, bytes: nat)
    requires !r.constructed && (bytes < UNSIGNED_MODULUS ==> r.totalSize == bytes)
    ensures
      var (r2, bad) := Absorb(r, c.kind, c.bytes);
      && !r2.constructed && r2.maxSize == r.maxSize && Tracks(r2, bytes)
      && var (r3, a) := Deliver(r2, c.hdrOnly);
         r3.maxSize == r.maxSize && Tracks(r3, if Delivered(a) then 0 else bytes)
  {
    hide HeaderEnd, Build, ContentLength, MakePacket;
  }

  lemma {:induction false} TrackAfter(r: Reader, calls: seq<Call>)
    requires Idle(r) && r.maxSize > 0
    ensures Tracks(After(r, calls), Since(r, calls)) && After(r, calls).maxSize == r.maxSize
    decreases |calls|
  {
    hide Read, Tracks, Delivered;
    if calls != [] {
      var front, c := calls[..|calls| - 1], calls[|calls| - 1];
      TrackAfter(r, front);
      TrackStep(After(r, front), c, Since(r, front));
    } else {
      IdleTracks(r);
    }
  }

  lemma IdleTracks(r: Reader)
    requires Idle(r)
    ensures Tracks(r, 0)
  {
  }

  /** Under a limit, every packet a reader delivers in the course of any run was built from fewer bytes than
      the limit: the bytes read since it was new or had delivered the packet before. */
  lemma DeliveredWithinLimit(r: Reader, calls: seq<Call>)
    requires Idle(r) && r.maxSize > 0 && calls != []
    ensures Delivered(LastAnswer(r, calls)) && Spent(r, calls) < UNSIGNED_MODULUS ==> Spent(r, calls) < r.maxSize
  {
    hide Read, Delivered, Tracks;
    var front := calls[..|calls| - 1];
    TrackAfter(r, front);
    TrackStep(After(r, front), calls[|calls| - 1], Since(r, front));
  }

  /** After a delivery, any calls are answered, and leave the reader, as if it were new. */
  lemma {:induction false} AfterReused(r: Reader, calls: seq<Call>)
    requires r.constructed && calls != []
    ensures After(r, calls) == After(Fresh(r.level, r.maxSize), calls)
    ensures LastAnswer(r, calls) == LastAnswer(Fresh(r.level, r.maxSize), calls)
    decreases |calls|
  {
    hide Read, Fresh;
    var front, c := calls[..|calls| - 1], calls[|calls| - 1];
    if front == [] {
      ReusedIsFresh(r, c.kind, c.bytes, c.hdrOnly);
    } else {
      AfterReused(r, front);
    }
  }
}

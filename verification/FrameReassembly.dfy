/** When reassembly gives back the frames that were sent: for the receive loop as written, and for the same
loop with the length taken after the header is stripped. */
module FrameReassembly {
  import opened ByteStrings
  import opened FrameSocket

  // ---------- Framing is a prefix code ----------

  lemma {:induction false} WireFront(frames: seq<Bytes>)
    requires frames != [] && Frames(frames)
    ensures Frames(frames[1..])
    ensures Wire(frames) == (LengthPrefix(|frames[0]|) + frames[0]) + Wire(frames[1..])
  {
    hide LengthPrefix, Frames;
    var init, last := frames[..|frames| - 1], frames[|frames| - 1];
    FramesParts(frames);
    if init == [] {
      assert frames[1..] == [];
      assert Wire(init) == [];
    } else {
      WireFront(init);
      assert frames[1..][..|frames| - 2] == init[1..];
      Associate4(LengthPrefix(|frames[0]|) + frames[0], Wire(init[1..]), LengthPrefix(|last|), last);
    }
  }

  lemma FramesParts(frames: seq<Bytes>)
    requires frames != [] && Frames(frames)
    ensures Frames(frames[1..]) && Frames(frames[..|frames| - 1])
    ensures |frames[0]| < FRAME_MAX_SIZE && |frames[|frames| - 1]| < FRAME_MAX_SIZE
  {
  }

  lemma Associate4(a: Bytes, b: Bytes, c: Bytes, d: Bytes)
    ensures ((a + b) + c) + d == a + ((b + c) + d)
  {
  }

  /** Bytes that do not yet hold a whole frame. */
  predicate Incomplete(s: Bytes)
  {
    |s| < FRAME_LENGTH_SIZE || |s| < FRAME_LENGTH_SIZE + FromPrefix(s)
  }

  lemma HeadOf(f: Bytes, tail: Bytes, s: Bytes)
    requires |f| < FRAME_MAX_SIZE && s == (LengthPrefix(|f|) + f) + tail
    ensures |s| == 3 + |f| + |tail| && FromPrefix(s) == |f| && s[3..3 + |f|] == f && s[3 + |f|..] == tail
  {
    PrefixOf(|f|, f + tail);
    Associate(LengthPrefix(|f|), f, tail);
  }

  /** A byte stream splits into frames and an unfinished rest in at most one way. */
  lemma {:induction false} UniqueFrames(f: seq<Bytes>, p: Bytes, g: seq<Bytes>, q: Bytes)
    requires Frames(f) && Frames(g) && Incomplete(p) && Incomplete(q)
    requires Wire(f) + p == Wire(g) + q
    ensures f == g && p == q
    decreases |f|
  {
    hide LengthPrefix, FromPrefix, Wire, Incomplete, Frames;
    if f == [] || g == [] {
      if f != [] {
        FirstFrame(f, p);
        NoFrames(q);
        assert false;
      }
      if g != [] {
        FirstFrame(g, q);
        NoFrames(p);
        assert false;
      }
      NoFrames(p);
      NoFrames(q);
    } else {
      FirstFrame(f, p);
      FirstFrame(g, q);
      assert f == [f[0]] + f[1..] && g == [g[0]] + g[1..];
      UniqueFrames(f[1..], p, g[1..], q);
    }
  }

  lemma NoFrames(p: Bytes)
    ensures Wire([]) + p == p
  {
  }

  lemma FirstFrame(f: seq<Bytes>, p: Bytes)
    requires Frames(f) && f != []
    ensures var s := Wire(f) + p;
            && Frames(f[1..]) && !Incomplete(s)
            && |s| >= 3 + |f[0]| && FromPrefix(s) == |f[0]| && s[3..3 + |f[0]|] == f[0]
            && s[3 + |f[0]|..] == Wire(f[1..]) + p
  {
    hide LengthPrefix, FromPrefix, Wire;
    WireFront(f);
    assert f[0] in f;
    Associate(LengthPrefix(|f[0]|) + f[0], Wire(f[1..]), p);
    HeadOf(f[0], Wire(f[1..]) + p, Wire(f) + p);
  }

  // ---------- The reordered loop loses and invents no byte ----------

  /** The bytes of the frame in progress. */
  function Pending(st: State): Bytes
    requires Tracked(st)
  {
    if st.partialHeader.Some? then st.partialHeader.value
    else if st.incoming.Some? then LengthPrefix(st.incomingLength) + st.incoming.value[..st.receivedLength]
    else []
  }

  predicate Tracked(st: State)
  {
    && Frames(st.frames)
    && (st.partialHeader.Some? ==> st.incoming.None? && |st.partialHeader.value| < FRAME_LENGTH_SIZE)
    && (st.incoming.Some? ==>
        st.receivedLength < st.incomingLength == |st.incoming.value| && st.incomingLength < FRAME_MAX_SIZE)
  }

  lemma PendingIncomplete(st: State)
    requires Tracked(st)
    ensures Incomplete(Pending(st)) && (|Pending(st)| >= FRAME_LENGTH_SIZE <==> st.incoming.Some?)
  {
    hide LengthPrefix, FromPrefix;
    if st.partialHeader.None? && st.incoming.Some? {
      PrefixOf(st.incomingLength, st.incoming.value[..st.receivedLength]);
    }
  }

  function Account(st: State, msg: Bytes): Bytes
    requires Tracked(st)
  {
    Wire(st.frames) + Pending(st) + msg
  }

  lemma HeaderTurn(st: State, input: Bytes)
    requires Tracked(st) && |input| > 0 && st.incoming.None?
    ensures var r := Iterate(st, input, REORDERED);
            r.Next? && Tracked(r.state) && Account(r.state, r.msg) == Account(st, input)
  {
    hide Wire, LengthPrefix, FromPrefix, Overwrite, Zeros, Account;
    var msg := if st.partialHeader.Some? then st.partialHeader.value + input else input;
    var r := Iterate(st, input, REORDERED);
    AccountIs(st, input, msg);
    if |msg| < FRAME_LENGTH_SIZE {
      AccountHeader(r.state, msg);
    } else {
      var length, body := FromPrefix(msg), msg[FRAME_LENGTH_SIZE..];
      if |body| >= length {
        WholeFrame(st.frames, msg, length);
        AccountFrame(r.state, r.msg);
      } else {
        OverwriteStart(length, body);
        AccountPayload(r.state, msg, length);
      }
    }
  }

  lemma AccountIs(st: State, input: Bytes, msg: Bytes)
    requires Tracked(st) && st.incoming.None?
    requires msg == if st.partialHeader.Some? then st.partialHeader.value + input else input
    ensures Account(st, input) == Wire(st.frames) + msg
  {
    hide Wire;
    assert Pending(st) + input == msg;
    Associate(Wire(st.frames), Pending(st), input);
  }

  lemma AccountHeader(st: State, msg: Bytes)
    requires Tracked(st) && st.partialHeader == Some(msg)
    ensures Account(st, []) == Wire(st.frames) + msg
  {
    hide Wire;
    NothingAfter(Wire(st.frames) + msg);
  }

  lemma AccountFrame(st: State, rest: Bytes)
    requires Tracked(st) && st.partialHeader.None? && st.incoming.None?
    ensures Account(st, rest) == Wire(st.frames) + rest
  {
    hide Wire;
    NothingAfter(Wire(st.frames));
  }

  lemma AccountPayload(st: State, msg: Bytes, length: nat)
    requires Tracked(st) && st.incoming.Some? && st.partialHeader.None? && |msg| >= 3
    requires length == FromPrefix(msg) == st.incomingLength
    requires st.incoming.value[..st.receivedLength] == msg[3..]
    ensures Account(st, []) == Wire(st.frames) + msg
  {
    hide Wire, LengthPrefix, FromPrefix;
    PrefixInverse(msg);
    assert LengthPrefix(length) + msg[3..] == msg;
    NothingAfter(Wire(st.frames) + msg);
  }

  lemma WholeFrame(frames: seq<Bytes>, msg: Bytes, length: nat)
    requires Frames(frames) && |msg| >= 3 + length && length == FromPrefix(msg)
    ensures Frames(frames + [msg[3..][..length]])
    ensures Wire(frames + [msg[3..][..length]]) + msg[3..][length..] == Wire(frames) + msg
  {
    hide Wire, LengthPrefix, FromPrefix;
    var payload, rest := msg[3..][..length], msg[3..][length..];
    PrefixInverse(msg);
    WirePush(frames, payload);
    Associate4(Wire(frames), LengthPrefix(length), payload, rest);
    assert (LengthPrefix(length) + payload) + rest == msg;
  }

  lemma OverwriteStart(length: nat, body: Bytes)
    requires |body| <= length
    ensures Overwrite(Zeros(length), 0, body)[..|body|] == body
  {
  }

  lemma WirePush(frames: seq<Bytes>, f: Bytes)
    requires Frames(frames) && |f| < FRAME_MAX_SIZE
    ensures Frames(frames + [f])
    ensures Wire(frames + [f]) == Wire(frames) + LengthPrefix(|f|) + f
  {
    hide LengthPrefix;
    assert (frames + [f])[..|frames|] == frames;
  }

  lemma PayloadTurn(st: State, msg: Bytes)
    requires Tracked(st) && |msg| > 0 && st.incoming.Some?
    ensures var r := Iterate(st, msg, REORDERED);
            r.Next? && Tracked(r.state) && Account(r.state, r.msg) == Account(st, msg)
  {
    hide Wire, LengthPrefix, Overwrite;
    var have := st.incoming.value[..st.receivedLength];
    OverwriteParts(st.incoming.value, st.receivedLength,
                   if st.receivedLength + |msg| >= st.incomingLength then msg[..st.incomingLength - st.receivedLength] else msg);
    if st.receivedLength + |msg| >= st.incomingLength {
      var missing := st.incomingLength - st.receivedLength;
      PayloadEnds(st.frames, have, msg, missing, Overwrite(st.incoming.value, st.receivedLength, msg[..missing]));
    } else {
      Associate(LengthPrefix(st.incomingLength), have, msg);
      Associate(Wire(st.frames), LengthPrefix(st.incomingLength) + have, msg);
      NothingAfter(Wire(st.frames) + (LengthPrefix(st.incomingLength) + (have + msg)));
    }
  }

  lemma NothingAfter(s: Bytes)
    ensures s + [] == s
  {
  }

  lemma OverwriteParts(buffer: Bytes, at: nat, data: Bytes)
    requires at + |data| <= |buffer|
    ensures Overwrite(buffer, at, data)[..at + |data|] == buffer[..at] + data
    ensures at + |data| == |buffer| ==> Overwrite(buffer, at, data) == buffer[..at] + data
  {
  }

  lemma PayloadEnds(frames: seq<Bytes>, have: Bytes, msg: Bytes, missing: nat, frame: Bytes)
    requires Frames(frames) && missing <= |msg| && frame == have + msg[..missing] && |frame| < FRAME_MAX_SIZE
    ensures Frames(frames + [frame])
    ensures Wire(frames + [frame]) + [] + msg[missing..] == Wire(frames) + (LengthPrefix(|frame|) + have) + msg
  {
    hide Wire, LengthPrefix;
    WirePush(frames, frame);
    var w, prefix, now, later := Wire(frames), LengthPrefix(|frame|), msg[..missing], msg[missing..];
    assert msg == now + later;
    NothingAfter(Wire(frames + [frame]));
    Associate(prefix, have, now);
    Associate4(w, prefix, have + now, later);
    Associate4(w, prefix + have, now, later);
    Associate(w, prefix + have, now + later);
    Associate(prefix + have, now, later);
  }

  lemma {:induction false} ProcessAccounts(st: State, msg: Bytes)
    requires Tracked(st) && Sane(st)
    ensures var r := Process(st, msg, REORDERED);
            r.Done? && Tracked(r.state) && Wire(r.state.frames) + Pending(r.state) == Account(st, msg)
    decreases if |msg| > 0 then 1 else 0, |msg| + Held(st), if st.incoming.Some? then 1 else 0
  {
    hide Iterate, Wire, Pending;
    if |msg| == 0 {
    } else {
      if st.incoming.None? {
        HeaderTurn(st, msg);
      } else {
        PayloadTurn(st, msg);
      }
      var r := Iterate(st, msg, REORDERED);
      ProcessAccounts(r.state, r.msg);
    }
  }

  /** Everything received is in the frames or pending. */
  predicate Accounts(r: Outcome, received: Bytes)
  {
    r.Done? && Tracked(r.state) && Wire(r.state.frames) + Pending(r.state) == received
  }

  lemma {:induction false} FeedAccounts(chunks: seq<Bytes>)
    ensures Accounts(Feed(chunks, REORDERED), Concat(chunks))
  {
    hide Process, Wire, Pending;
    if chunks == [] {
      IdleAccounts();
    } else {
      FeedAccounts(chunks[..|chunks| - 1]);
      ProcessAccounts(Feed(chunks[..|chunks| - 1], REORDERED).state, chunks[|chunks| - 1]);
    }
  }

  lemma IdleAccounts()
    ensures Tracked(IDLE) && Wire(IDLE.frames) + Pending(IDLE) == []
  {
  }

  predicate Delivered(r: Outcome, frames: seq<Bytes>)
  {
    r.Done? && r.state.frames == frames && r.state.partialHeader.None? && r.state.incoming.None?
  }

  /** With the two lines in the other order, frames come out exactly as they went in, with nothing left over,
  however the stream is cut into chunks. */
  lemma ReorderedReassembles(chunks: seq<Bytes>, frames: seq<Bytes>)
    requires Frames(frames) && Concat(chunks) == Wire(frames)
    ensures Delivered(Feed(chunks, REORDERED), frames)
  {
    hide Feed, Wire, LengthPrefix, FromPrefix, Incomplete;
    FeedAccounts(chunks);
    var st := Feed(chunks, REORDERED).state;
    PendingIncomplete(st);
    NothingIncomplete();
    assert Wire(frames) + [] == Wire(frames);
    UniqueFrames(st.frames, Pending(st), frames, []);
    PendingNothing(st, chunks);
  }

  lemma NothingIncomplete()
    ensures Incomplete([])
  {
  }

  /** A partial header is never empty, so nothing pending means nothing held. */
  lemma PendingNothing(st: State, chunks: seq<Bytes>)
    requires Feed(chunks, REORDERED) == Done(st) && Tracked(st) && Pending(st) == []
    ensures st.partialHeader.None? && st.incoming.None?
  {
    HeaderNotEmpty(chunks, REORDERED);
  }

  predicate HeldHeader(st: State)
  {
    st.partialHeader.Some? ==> |st.partialHeader.value| > 0
  }

  lemma {:induction false} ProcessHeader(st: State, msg: Bytes, counted: nat)
    requires Sane(st) && HeldHeader(st)
    ensures var r := Process(st, msg, counted);
            r.Done? ==> HeldHeader(r.state)
    decreases if |msg| > 0 then 1 else 0, |msg| + Held(st), if st.incoming.Some? then 1 else 0
  {
    hide FromPrefix, Overwrite, Zeros;
    if |msg| > 0 {
      var r := Iterate(st, msg, counted);
      if r.Next? {
        ProcessHeader(r.state, r.msg, counted);
      }
    }
  }

  lemma {:induction false} HeaderNotEmpty(chunks: seq<Bytes>, counted: nat)
    ensures var r := Feed(chunks, counted);
            r.Done? ==> HeldHeader(r.state)
  {
    hide Process;
    if chunks != [] {
      HeaderNotEmpty(chunks[..|chunks| - 1], counted);
      var r := Feed(chunks[..|chunks| - 1], counted);
      if r.Done? {
        ProcessHeader(r.state, chunks[|chunks| - 1], counted);
      }
    }
  }

  // ---------- The loop as written ----------

  /** The same state, with the three header bytes counted as received. */
  function Overcounted(st: State): State {
    if st.incoming.Some? then st.(receivedLength := st.receivedLength + 3) else st
  }

  /** Until a payload is cut, the two loops do the same. */
  lemma {:induction false} SameUntilCut(st: State, msg: Bytes)
    requires Tracked(st) && Sane(st) && st.incoming.None?
    ensures var r := Process(st, msg, REORDERED);
            r.Done? && Process(st, msg, AS_WRITTEN) == Done(Overcounted(r.state))
    decreases if |msg| > 0 then 1 else 0, |msg| + Held(st)
  {
    hide Overwrite, FromPrefix, Zeros, Wire, Account, Pending;
    if |msg| > 0 {
      HeaderTurn(st, msg);
      var r := Iterate(st, msg, REORDERED);
      var r' := Iterate(st, msg, AS_WRITTEN);
      assert r'.Next? && r'.state == Overcounted(r.state) && r'.msg == r.msg;
      if r.state.incoming.None? {
        SameUntilCut(r.state, r.msg);
      } else {
        assert r.msg == [];
      }
    }
  }

  /** A position inside a payload, or between a length prefix and a payload that is not empty. */
  predicate CutsPayload(frames: seq<Bytes>, pos: nat)
  {
    frames != [] &&
    var n := FRAME_LENGTH_SIZE + |frames[0]|;
    if pos < n then pos >= FRAME_LENGTH_SIZE else CutsPayload(frames[1..], pos - n)
  }

  lemma {:induction false} PendingCuts(g: seq<Bytes>, p: Bytes, frames: seq<Bytes>, pos: nat)
    requires Frames(g) && Frames(frames) && Incomplete(p) && pos <= |Wire(frames)|
    requires Wire(g) + p == Wire(frames)[..pos]
    ensures |p| >= FRAME_LENGTH_SIZE <==> CutsPayload(frames, pos)
    decreases |frames|
  {
    hide LengthPrefix, FromPrefix, Wire, Incomplete, Frames, CutsPayload;
    NoFrames(p);
    if frames == [] {
      NoFrames([]);
      CutsNothing(pos);
    } else {
      var s, n := Wire(frames), FRAME_LENGTH_SIZE + |frames[0]|;
      FirstFrame(frames, []);
      assert s + [] == s;
      CutsFirst(frames, pos);
      if g == [] {
        FirstIncomplete(s, pos, n);
      } else {
        FirstFrame(g, p);
        SamePrefix(s, pos);
        assert s[..pos][3..3 + |g[0]|] == s[3..3 + |g[0]|];
        assert s[..pos][n..] == s[n..][..pos - n];
        assert Wire(frames[1..]) + [] == Wire(frames[1..]);
        PendingCuts(g[1..], p, frames[1..], pos - n);
      }
    }
  }

  lemma CutsNothing(pos: nat)
    ensures !CutsPayload([], pos)
  {
  }

  lemma CutsFirst(frames: seq<Bytes>, pos: nat)
    requires frames != []
    ensures var n := FRAME_LENGTH_SIZE + |frames[0]|;
            CutsPayload(frames, pos) <==> if pos < n then pos >= FRAME_LENGTH_SIZE else CutsPayload(frames[1..], pos - n)
  {
  }

  lemma SamePrefix(s: Bytes, pos: nat)
    requires 3 <= pos <= |s|
    ensures FromPrefix(s[..pos]) == FromPrefix(s)
  {
  }

  lemma FirstIncomplete(s: Bytes, pos: nat, n: nat)
    requires pos <= |s| && |s| >= 3 && n == FRAME_LENGTH_SIZE + FromPrefix(s) && Incomplete(s[..pos])
    ensures pos < n
  {
    hide FromPrefix;
    if pos >= 3 {
      SamePrefix(s, pos);
    }
  }

  /** Bytes of frames emitted and bytes counted as held, less three for each frame that was finished late. */
  function Balance(st: State): int
    requires Frames(st.frames)
  {
    |Wire(st.frames)| + (if st.partialHeader.Some? then |st.partialHeader.value| else if st.incoming.Some? then st.receivedLength else 0)
    - 3 * st.late
  }

  predicate Countable(st: State)
  {
    && Sane(st)
    && Frames(st.frames)
    && (st.partialHeader.Some? ==> st.incoming.None?)
    && (st.incoming.Some? ==> st.incomingLength < FRAME_MAX_SIZE)
  }

  lemma TurnBalances(st: State, msg: Bytes)
    requires Countable(st) && |msg| > 0
    ensures var r := Iterate(st, msg, AS_WRITTEN);
            r.Next? ==>
            && Countable(r.state) && Balance(r.state) + |r.msg| == Balance(st) + |msg|
            && r.state.late >= st.late
            && (st.incoming.Some? ==> r.state.incoming.Some? || r.state.late > st.late)
  {
    hide Wire, FromPrefix, LengthPrefix, Overwrite, Zeros;
    var r := Iterate(st, msg, AS_WRITTEN);
    if r.Next? && |r.state.frames| > |st.frames| {
      var f := r.state.frames[|st.frames|];
      assert r.state.frames == st.frames + [f];
      WirePush(st.frames, f);
    }
  }

  lemma {:induction false} ProcessBalances(st: State, msg: Bytes)
    requires Countable(st)
    ensures var r := Process(st, msg, AS_WRITTEN);
            r.Done? ==>
            && Countable(r.state) && Balance(r.state) == Balance(st) + |msg|
            && r.state.late >= st.late
            && (st.incoming.Some? ==> r.state.incoming.Some? || r.state.late > st.late)
    decreases if |msg| > 0 then 1 else 0, |msg| + Held(st), if st.incoming.Some? then 1 else 0
  {
    hide Iterate, Balance;
    if |msg| > 0 {
      TurnBalances(st, msg);
      var r := Iterate(st, msg, AS_WRITTEN);
      if r.Next? {
        ProcessBalances(r.state, r.msg);
      }
    }
  }

  lemma {:induction false} FeedBalances(chunks: seq<Bytes>)
    ensures var r := Feed(chunks, AS_WRITTEN);
            r.Done? ==> Countable(r.state) && Balance(r.state) == |Concat(chunks)|
  {
    hide Process;
    if chunks == [] {
    } else {
      FeedBalances(chunks[..|chunks| - 1]);
      var r := Feed(chunks[..|chunks| - 1], AS_WRITTEN);
      if r.Done? {
        ProcessBalances(r.state, chunks[|chunks| - 1]);
      }
    }
  }

  /** Where in the stream the chunk boundaries fall. */
  function Boundary(chunks: seq<Bytes>, k: nat): nat
    requires k <= |chunks|
  {
    |Concat(chunks[..k])|
  }

  lemma {:induction false} ConcatPrefix(chunks: seq<Bytes>, k: nat)
    requires k <= |chunks|
    ensures Boundary(chunks, k) <= |Concat(chunks)|
    ensures Concat(chunks[..k]) == Concat(chunks)[..Boundary(chunks, k)]
  {
    if k == |chunks| {
      assert chunks[..k] == chunks;
    } else {
      var init := chunks[..|chunks| - 1];
      ConcatPrefix(init, k);
      assert init[..k] == chunks[..k];
    }
  }

  /** After `k` chunks the reordered loop is in the middle of a payload exactly when the boundary is. */
  lemma IncomingIffCut(chunks: seq<Bytes>, frames: seq<Bytes>, k: nat)
    requires Frames(frames) && Concat(chunks) == Wire(frames) && k <= |chunks|
    ensures var r := Feed(chunks[..k], REORDERED);
            r.Done? && Tracked(r.state) && (r.state.incoming.Some? <==> CutsPayload(frames, Boundary(chunks, k)))
  {
    hide Feed, Wire, LengthPrefix, FromPrefix, Incomplete, CutsPayload;
    FeedAccounts(chunks[..k]);
    ConcatPrefix(chunks, k);
    var st := Feed(chunks[..k], REORDERED).state;
    PendingIncomplete(st);
    PendingCuts(st.frames, Pending(st), frames, Boundary(chunks, k));
  }

  lemma {:induction false} UncutSame(chunks: seq<Bytes>, frames: seq<Bytes>, k: nat)
    requires Frames(frames) && Concat(chunks) == Wire(frames) && k <= |chunks|
    requires forall j :: 0 <= j < k ==> !CutsPayload(frames, Boundary(chunks, j))
    ensures var r := Feed(chunks[..k], REORDERED);
            r.Done? && Feed(chunks[..k], AS_WRITTEN) == Done(Overcounted(r.state))
  {
    hide Process, Wire, CutsPayload;
    if k > 0 {
      assert chunks[..k][..k - 1] == chunks[..k - 1];
      UncutSame(chunks, frames, k - 1);
      IncomingIffCut(chunks, frames, k - 1);
      SameUntilCut(Feed(chunks[..k - 1], REORDERED).state, chunks[k - 1]);
    }
  }

  lemma {:induction false} CutStaysLate(chunks: seq<Bytes>, k: nat, n: nat)
    requires k <= n <= |chunks|
    requires var r := Feed(chunks[..k], AS_WRITTEN);
             r.Done? && r.state.incoming.Some?
    ensures var r := Feed(chunks[..n], AS_WRITTEN);
            r.Done? ==> r.state.incoming.Some? || r.state.late > 0
  {
    hide Process, Countable;
    if k < n {
      assert chunks[..n][..n - 1] == chunks[..n - 1];
      CutStaysLate(chunks, k, n - 1);
      FeedBalances(chunks[..n - 1]);
      var r := Feed(chunks[..n - 1], AS_WRITTEN);
      if r.Done? {
        ProcessBalances(r.state, chunks[n - 1]);
      }
    }
  }

  lemma FirstCut(chunks: seq<Bytes>, frames: seq<Bytes>, k: nat) returns (j: nat)
    requires k <= |chunks| && CutsPayload(frames, Boundary(chunks, k))
    ensures j <= k && CutsPayload(frames, Boundary(chunks, j))
    ensures forall i :: 0 <= i < j ==> !CutsPayload(frames, Boundary(chunks, i))
  {
    hide CutsPayload, Boundary;
    j := 0;
    while !CutsPayload(frames, Boundary(chunks, j))
      invariant j <= k && forall i :: 0 <= i < j ==> !CutsPayload(frames, Boundary(chunks, i))
      decreases k - j
    {
      j := j + 1;
    }
  }

  /** As written, the loop gives back exactly the frames that were sent, with nothing left over, if and only if
  no chunk boundary cuts a payload or separates a length prefix from a payload that is not empty. */
  lemma AsWrittenReassemblesIff(chunks: seq<Bytes>, frames: seq<Bytes>)
    requires Frames(frames) && Concat(chunks) == Wire(frames)
    ensures Delivered(Feed(chunks, AS_WRITTEN), frames)
            <==> forall k :: 0 <= k <= |chunks| ==> !CutsPayload(frames, Boundary(chunks, k))
  {
    hide Feed, Wire, CutsPayload, Boundary;
    var n := |chunks|;
    assert chunks[..n] == chunks;
    if k :| 0 <= k <= n && CutsPayload(frames, Boundary(chunks, k)) {
      var j := FirstCut(chunks, frames, k);
      UncutSame(chunks, frames, j);
      IncomingIffCut(chunks, frames, j);
      CutStaysLate(chunks, j, n);
      FeedBalances(chunks);
    } else {
      UncutSame(chunks, frames, n);
      IncomingIffCut(chunks, frames, n);
      ReorderedReassembles(chunks, frames);
    }
  }

  // ---------- After a cut ----------

  /** What the receiver as written is left with when one frame is cut in two behind k bytes of its payload: three zero
  bytes have come into the frame, and its last three bytes are taken for the next length. */
  function AfterCut(payload: Bytes, k: nat): State
    requires k + 3 <= |payload|
  {
    var damaged, length := payload[..k] + Zeros(3) + payload[k..|payload| - 3], FromPrefix(payload[|payload| - 3..]);
    if length == 0 then Received([damaged, []], 1) else State(None, Some(Zeros(length)), length, 3, [damaged], 1)
  }

  lemma CutStarts(payload: Bytes, k: nat)
    requires k < |payload| < FRAME_MAX_SIZE
    ensures Process(IDLE, LengthPrefix(|payload|) + payload[..k], AS_WRITTEN)
         == Done(State(None, Some(Overwrite(Zeros(|payload|), 0, payload[..k])), |payload|, k + 3, [], 0))
  {
    hide LengthPrefix, FromPrefix, Overwrite, Zeros;
    PrefixOf(|payload|, payload[..k]);
    var msg := LengthPrefix(|payload|) + payload[..k];
    assert msg[3..] == payload[..k];
  }

  lemma Damage(payload: Bytes, k: nat)
    requires k + 3 <= |payload|
    ensures var n := |payload| - 3 - k;
            && Overwrite(Overwrite(Zeros(|payload|), 0, payload[..k]), k + 3, payload[k..][..n])
               == payload[..k] + Zeros(3) + payload[k..|payload| - 3]
            && payload[k..][n..] == payload[|payload| - 3..]
  {
  }

  lemma CutEnds(st: State, tail: Bytes)
    requires st.partialHeader.None? && st.incoming.None? && |tail| == 3
    ensures var n := FromPrefix(tail);
            Process(st, tail, AS_WRITTEN)
            == Done(if n == 0 then Received(st.frames + [[]], st.late) else State(None, Some(Zeros(n)), n, 3, st.frames, st.late))
  {
    hide FromPrefix, Zeros;
    assert tail[3..] == [];
    var n := FromPrefix(tail);
    assert Overwrite(Zeros(n), 0, []) == Zeros(n);
  }

  /** The receiver as written on one frame in two chunks, cut anywhere: it slices out of range when fewer than three
  bytes of the payload are missing, and delivers a damaged frame otherwise. */
  lemma OneCut(payload: Bytes, k: nat)
    requires k < |payload| < FRAME_MAX_SIZE
    ensures var chunks := [LengthPrefix(|payload|) + payload[..k], payload[k..]];
            && Concat(chunks) == Wire([payload])
            && Feed(chunks, AS_WRITTEN) == if |payload| - k < 3 then Crashed else Done(AfterCut(payload, k))
  {
    hide LengthPrefix, FromPrefix, Overwrite, Zeros, Process;
    var first, second := LengthPrefix(|payload|) + payload[..k], payload[k..];
    CutStarts(payload, k);
    FeedTwo(first, second, AS_WRITTEN);
    WireOne(payload);
    Associate(LengthPrefix(|payload|), payload[..k], payload[k..]);
    assert payload == payload[..k] + payload[k..];
    CutGoesOn(payload, k);
  }

  lemma FeedTwo(a: Bytes, b: Bytes, counted: nat)
    ensures Feed([a, b], counted)
         == match Process(IDLE, a, counted) case Crashed => Crashed case Done(st) => Process(st, b, counted)
    ensures Concat([a, b]) == a + b
  {
    hide Process, Feed, Concat;
    FeedPush([], a, counted);
    FeedPush([a], b, counted);
    FeedNothing(counted);
    assert [] + [a] == [a] && [a] + [b] == [a, b] && [] + a == a;
  }

  lemma FeedPush(chunks: seq<Bytes>, chunk: Bytes, counted: nat)
    ensures Feed(chunks + [chunk], counted)
         == match Feed(chunks, counted) case Crashed => Crashed case Done(st) => Process(st, chunk, counted)
    ensures Concat(chunks + [chunk]) == Concat(chunks) + chunk
  {
    hide Process;
    assert (chunks + [chunk])[..|chunks|] == chunks;
  }

  lemma FeedNothing(counted: nat)
    ensures Feed([], counted) == Done(IDLE) && Concat([]) == []
  {
  }

  lemma CutGoesOn(payload: Bytes, k: nat)
    requires k < |payload| < FRAME_MAX_SIZE
    ensures var st := State(None, Some(Overwrite(Zeros(|payload|), 0, payload[..k])), |payload|, k + 3, [], 0);
            Process(st, payload[k..], AS_WRITTEN) == if |payload| - k < 3 then Crashed else Done(AfterCut(payload, k))
  {
    hide FromPrefix, Overwrite, Zeros;
    var st := State(None, Some(Overwrite(Zeros(|payload|), 0, payload[..k])), |payload|, k + 3, [], 0);
    var r := Iterate(st, payload[k..], AS_WRITTEN);
    if |payload| - k < 3 {
      assert r == OutOfRange;
    } else {
      Damage(payload, k);
      var damaged, tail := payload[..k] + Zeros(3) + payload[k..|payload| - 3], payload[|payload| - 3..];
      assert [] + [damaged] == [damaged] && [damaged] + [[]] == [damaged, []];
      assert r == Next(Received([damaged], 1), tail);
      CutEnds(r.state, tail);
    }
  }

  /** The shortest case: the length of a one-byte frame in one chunk and its byte in the next. */
  lemma SplitLengthCrashes(b: Byte)
    ensures Concat([[0, 0, 1], [b]]) == Wire([[b]]) && Feed([[0, 0, 1], [b]], AS_WRITTEN) == Crashed
  {
    hide LengthPrefix, Feed, Wire;
    OneCut([b], 0);
    PrefixIs(1);
    assert [0, 0, 1] + [b][..0] == [0, 0, 1] && [b][0..] == [b];
  }

  /** What the client sends, each frame arriving in one chunk, is what the receiver delivers, as written and
  reordered. */
  lemma SentFramesArrive(frames: seq<Bytes>)
    requires Frames(frames)
    ensures Delivered(Feed(Separately(frames), AS_WRITTEN), frames)
    ensures Delivered(Feed(Separately(frames), REORDERED), frames)
  {
    hide Feed, Wire, LengthPrefix, FromPrefix, Incomplete;
    SeparatelyIsWire(frames);
    var chunks := Separately(frames);
    forall k | 0 <= k <= |chunks|
      ensures !CutsPayload(frames, Boundary(chunks, k))
    {
      SeparatelyPrefix(frames, k);
      SeparatelyIsWire(frames[..k]);
      ConcatPrefix(chunks, k);
      NothingIncomplete();
      assert Wire(frames[..k]) + [] == Wire(frames[..k]);
      PendingCuts(frames[..k], [], frames, Boundary(chunks, k));
    }
    AsWrittenReassemblesIff(chunks, frames);
    ReorderedReassembles(chunks, frames);
  }

  /** One chunk for each frame, as `SendFrame` writes them. */
  function Separately(frames: seq<Bytes>): (r: seq<Bytes>)
    requires Frames(frames)
    ensures |r| == |frames|
  {
    if frames == [] then [] else Separately(frames[..|frames| - 1]) + [Wire([frames[|frames| - 1]])]
  }

  lemma {:induction false} SeparatelyIsWire(frames: seq<Bytes>)
    requires Frames(frames)
    ensures Concat(Separately(frames)) == Wire(frames)
  {
    hide LengthPrefix;
    if frames != [] {
      var init, last := frames[..|frames| - 1], frames[|frames| - 1];
      SeparatelyIsWire(init);
      assert Separately(frames)[..|frames| - 1] == Separately(init);
      assert last in frames;
      WireOne(last);
      Associate(Wire(init), LengthPrefix(|last|), last);
    }
  }

  lemma {:induction false} SeparatelyPrefix(frames: seq<Bytes>, k: nat)
    requires Frames(frames) && k <= |frames|
    ensures Frames(frames[..k]) && Separately(frames)[..k] == Separately(frames[..k])
  {
    hide Wire;
    if k == |frames| {
      assert frames[..k] == frames;
    } else {
      var init := frames[..|frames| - 1];
      SeparatelyPrefix(init, k);
      assert init[..k] == frames[..k];
    }
  }
}

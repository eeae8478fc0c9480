/** Framing over a websocket: a three-byte length before each payload, reassembled from arbitrary chunks.

`counted` says how many of the three length bytes the receiver counts as payload already received when a
frame does not fit in its first chunk.  The code counts all three, because it takes the length of the
message before it strips the header; with the two lines in the other order it would count none. */
module FrameSocket {
  import opened ByteStrings

  const FRAME_MAX_SIZE := 0x100_0000
  const FRAME_LENGTH_SIZE := 3

  const AS_WRITTEN := 3
  const REORDERED := 0

  // ---------- Frames on the wire ----------

  function LengthPrefix(n: nat): (r: Bytes)
    requires n < FRAME_MAX_SIZE
    ensures |r| == 3
  {
    [n / 0x1_0000, n / 0x100 % 0x100, n % 0x100]
  }

  function FromPrefix(s: Bytes): (r: nat)
    requires |s| >= 3
    ensures r < FRAME_MAX_SIZE
  {
    s[0] as int * 0x1_0000 + s[1] as int * 0x100 + s[2] as int
  }

  lemma PrefixInverse(s: Bytes)
    requires |s| >= 3
    ensures LengthPrefix(FromPrefix(s)) == s[..3]
  {
    var a, b, c := s[0] as int, s[1] as int, s[2] as int;
    var n := a * 0x1_0000 + b * 0x100 + c;
    assert n / 0x1_0000 == a && n / 0x100 == a * 0x100 + b && n % 0x100 == c;
  }

  /** The length is written with its high byte first. */
  lemma PrefixForm(a: Byte, b: Byte, c: Byte)
    ensures LengthPrefix(a * 0x1_0000 + b * 0x100 + c) == [a, b, c]
  {
    var n: nat := a * 0x1_0000 + b * 0x100 + c;
    assert n / 0x1_0000 == a && n / 0x100 == a as int * 0x100 + b && n % 0x100 == c;
  }

  lemma PrefixOf(n: nat, rest: Bytes)
    requires n < FRAME_MAX_SIZE
    ensures FromPrefix(LengthPrefix(n) + rest) == n
  {
  }

  predicate Frames(frames: seq<Bytes>)
  {
    forall f | f in frames :: |f| < FRAME_MAX_SIZE
  }

  function Wire(frames: seq<Bytes>): Bytes
    requires Frames(frames)
  {
    if frames == [] then []
    else Wire(frames[..|frames| - 1]) + LengthPrefix(|frames[|frames| - 1]|) + frames[|frames| - 1]
  }

  function Concat(chunks: seq<Bytes>): Bytes {
    if chunks == [] then [] else Concat(chunks[..|chunks| - 1]) + chunks[|chunks| - 1]
  }

  // ---------- The receiver ----------

  /** `late` counts the frames that needed more than the chunk they started in. */
  datatype State = State(partialHeader: Option<Bytes>, incoming: Option<Bytes>, incomingLength: nat, receivedLength: nat,
                         frames: seq<Bytes>, late: nat)

  /** `Crashed` is a slice out of range. */
  datatype Outcome = Done(state: State) | Crashed

  const IDLE := State(None, None, 0, 0, [], 0)

  function Received(frames: seq<Bytes>, late: nat): State {
    State(None, None, 0, 0, frames, late)
  }

  function Zeros(n: nat): (r: Bytes)
    ensures |r| == n
  {
    seq(n, i => 0)
  }

  /** `copy(buffer[at:], data)` when the data fits. */
  function Overwrite(buffer: Bytes, at: nat, data: Bytes): (r: Bytes)
    requires at + |data| <= |buffer|
    ensures |r| == |buffer|
  {
    buffer[..at] + data + buffer[at + |data|..]
  }

  predicate Sane(st: State)
  {
    st.incoming.Some? ==> |st.incoming.value| == st.incomingLength
  }

  function Held(st: State): nat {
    if st.partialHeader.Some? then |st.partialHeader.value| else 0
  }

  datatype Iteration = Next(state: State, msg: Bytes) | OutOfRange

  /** One turn of the receive loop. */
  function Iterate(st: State, input: Bytes, counted: nat): (r: Iteration)
    requires Sane(st) && |input| > 0
    ensures r.Next? ==> Sane(r.state) && Smaller(r.state, r.msg, st, input)
  {
    var msg := if st.partialHeader.Some? then st.partialHeader.value + input else input;
    if st.incoming.None? then
      if |msg| < FRAME_LENGTH_SIZE then Next(st.(partialHeader := Some(msg)), [])
      else
        var length, body := FromPrefix(msg), msg[FRAME_LENGTH_SIZE..];
        if |body| >= length then Next(Received(st.frames + [body[..length]], st.late), body[length..])
        else
          Next(State(None, Some(Overwrite(Zeros(length), 0, body)), length, |body| + counted, st.frames, st.late), [])
    else if st.receivedLength + |msg| >= st.incomingLength then
      if st.receivedLength > st.incomingLength then OutOfRange
      else
        var missing := st.incomingLength - st.receivedLength;
        Next(Received(st.frames + [Overwrite(st.incoming.value, st.receivedLength, msg[..missing])], st.late + 1),
             msg[missing..])
    else
      Next(st.(partialHeader := None,
               incoming := Some(Overwrite(st.incoming.value, st.receivedLength, msg)),
               receivedLength := st.receivedLength + |msg|), [])
  }

  /** A turn ends the loop, or shortens what is left, or leaves as much but with the frame finished. */
  predicate Smaller(st': State, msg': Bytes, st: State, msg: Bytes)
  {
    || |msg'| == 0
    || |msg'| + Held(st') < |msg| + Held(st)
    || (|msg'| + Held(st') == |msg| + Held(st) && st.incoming.Some? && st'.incoming.None?)
  }

  function Process(st: State, msg: Bytes, counted: nat): (r: Outcome)
    requires Sane(st)
    ensures r.Done? ==> Sane(r.state)
    decreases if |msg| > 0 then 1 else 0, |msg| + Held(st), if st.incoming.Some? then 1 else 0
  {
    if |msg| == 0 then Done(st)
    else
      match Iterate(st, msg, counted)
      case OutOfRange => Crashed
      case Next(st', msg') => Process(st', msg', counted)
  }

  function Feed(chunks: seq<Bytes>, counted: nat): (r: Outcome)
    ensures r.Done? ==> Sane(r.state)
  {
    if chunks == [] then Done(IDLE)
    else
      match Feed(chunks[..|chunks| - 1], counted)
      case Crashed => Crashed
      case Done(st) => Process(st, chunks[|chunks| - 1], counted)
  }

  class Socket {
    const counted: nat
    var open: bool
    var header: Option<Bytes>
    var written: seq<Bytes>

    var partialHeader: Option<Bytes>
    var incoming: Option<Bytes>
    var incomingLength: nat
    var receivedLength: nat
    var frames: seq<Bytes>
    ghost var late: nat

    constructor (counted: nat, header: Bytes)
      ensures this.counted == counted && open && this.header == Some(header) && written == []
      ensures Valid() && Receiver() == IDLE
    {
      this.counted := counted;
      this.open, this.header, written := true, Some(header), [];
      partialHeader, incoming, incomingLength, receivedLength, frames, late := None, None, 0, 0, [], 0;
    }

    ghost function Receiver(): State
      reads this
    {
      State(partialHeader, incoming, incomingLength, receivedLength, frames, late)
    }

    ghost predicate Valid()
      reads this
    {
      Sane(Receiver())
    }

    /** The header goes out once, before the first frame; every frame is its length and its payload. */
    method SendFrame(data: Bytes) returns (ok: bool)
      modifies this`header, this`written
      ensures ok <==> open && |data| < FRAME_MAX_SIZE
      ensures !ok ==> header == old(header) && written == old(written)
      ensures ok ==>
              && header == None
              && written == old(written) + [(if old(header).Some? then old(header).value else []) + Wire([data])]
    {
      if !open {
        return false;
      }
      var dataLength := |data|;
      if dataLength >= FRAME_MAX_SIZE {
        return false;
      }
      var prefix := if header.Some? then header.value else [];
      header := None;
      var wholeFrame := BuildFrame(prefix, data);
      written := written + [wholeFrame];
      return true;
    }

    method FrameComplete()
      requires incoming.Some?
      modifies this`incoming, this`partialHeader, this`incomingLength, this`receivedLength, this`frames
      ensures partialHeader == None && incoming == None && incomingLength == 0 && receivedLength == 0
      ensures frames == old(frames) + [old(incoming).value]
    {
      var data := incoming.value;
      incoming, partialHeader, incomingLength, receivedLength := None, None, 0, 0;
      frames := frames + [data];
    }

    /** Returns false where the code slices out of range. */
    method ProcessData(input: Bytes) returns (ok: bool)
      requires Valid()
      modifies this`partialHeader, this`incoming, this`incomingLength, this`receivedLength, this`frames, this`late
      ensures match Process(old(Receiver()), input, counted)
              case Crashed => !ok
              case Done(st) => ok && Receiver() == st && Valid()
    {
      hide Iterate;
      var msg := input;
      ghost var all := Process(Receiver(), input, counted);
      while |msg| > 0
        invariant Valid() && all == Process(Receiver(), msg, counted)
        decreases if |msg| > 0 then 1 else 0, |msg| + Held(Receiver()), if incoming.Some? then 1 else 0
      {
        ok, msg := ProcessSome(msg);
        if !ok {
          return false;
        }
      }
      return true;
    }

    /** One turn of the loop: a header, a whole frame, or a piece of one. */
    method ProcessSome(input: Bytes) returns (ok: bool, msg: Bytes)
      requires Valid() && |input| > 0
      modifies this`partialHeader, this`incoming, this`incomingLength, this`receivedLength, this`frames, this`late
      ensures match Iterate(old(Receiver()), input, counted)
              case OutOfRange => !ok
              case Next(st, msg') => ok && Receiver() == st && msg == msg' && Valid()
    {
      hide Overwrite, FromPrefix, Zeros;
      ok, msg := true, input;
      if partialHeader.Some? {
        msg := partialHeader.value + msg;
        partialHeader := None;
      }
      if incoming.None? {
        if |msg| >= FRAME_LENGTH_SIZE {
          var length := FromPrefix(msg);
          incomingLength := length;
          receivedLength := |msg| - FRAME_LENGTH_SIZE + counted;
          msg := msg[FRAME_LENGTH_SIZE..];
          if |msg| >= length {
            incoming := Some(msg[..length]);
            msg := msg[length..];
            FrameComplete();
          } else {
            incoming := Some(Overwrite(Zeros(length), 0, msg));
            msg := [];
          }
        } else {
          partialHeader := Some(msg);
          msg := [];
        }
      } else {
        if receivedLength + |msg| >= incomingLength {
          if receivedLength > incomingLength {
            ok := false;
            return;
          }
          var missing := incomingLength - receivedLength;
          incoming := Some(Overwrite(incoming.value, receivedLength, msg[..missing]));
          msg := msg[missing..];
          FrameComplete();
          late := late + 1;
        } else {
          incoming := Some(Overwrite(incoming.value, receivedLength, msg));
          receivedLength := receivedLength + |msg|;
          msg := [];
        }
      }
    }
  }

  method CopyInto(target: array<Byte>, at: nat, source: Bytes)
    requires at + |source| <= target.Length
    modifies target
    ensures forall i :: 0 <= i < target.Length ==>
              target[i] == if at <= i < at + |source| then source[i - at] else old(target[i])
  {
    for i := 0 to |source|
      invariant forall k :: 0 <= k < target.Length ==>
                  target[k] == if at <= k < at + i then source[k - at] else old(target[k])
    {
      target[at + i] := source[i];
    }
  }

  method BuildFrame(prefix: Bytes, data: Bytes) returns (frame: Bytes)
    requires |data| < FRAME_MAX_SIZE
    ensures frame == prefix + Wire([data])
  {
    hide LengthPrefix, Wire;
    var headerLength, dataLength := |prefix|, |data|;
    PrefixIs(dataLength);
    var wholeFrame := new Byte[headerLength + FRAME_LENGTH_SIZE + dataLength](i => 0);
    CopyInto(wholeFrame, 0, prefix);
    CopyInto(wholeFrame, headerLength, [dataLength / 0x1_0000, dataLength / 0x100 % 0x100, dataLength % 0x100]);
    CopyInto(wholeFrame, headerLength + FRAME_LENGTH_SIZE, data);
    WireOne(data);
    ThreeParts(wholeFrame[..], prefix, LengthPrefix(dataLength), data);
    return wholeFrame[..];
  }

  lemma PrefixIs(n: nat)
    requires n < FRAME_MAX_SIZE
    ensures n / 0x1_0000 < 0x100 && LengthPrefix(n) == [n / 0x1_0000, n / 0x100 % 0x100, n % 0x100]
  {
  }

  lemma ThreeParts(whole: Bytes, a: Bytes, b: Bytes, c: Bytes)
    requires |whole| == |a| + |b| + |c|
    requires forall i :: 0 <= i < |a| ==> whole[i] == a[i]
    requires forall i :: |a| <= i < |a| + |b| ==> whole[i] == b[i - |a|]
    requires forall i :: |a| + |b| <= i < |whole| ==> whole[i] == c[i - |a| - |b|]
    ensures whole == a + (b + c)
  {
  }

  lemma WireOne(data: Bytes)
    requires |data| < FRAME_MAX_SIZE
    ensures Wire([data]) == LengthPrefix(|data|) + data
  {
    assert [data][..0] == [];
    assert Wire([]) == [];
    assert [] + LengthPrefix(|data|) == LengthPrefix(|data|);
  }
}

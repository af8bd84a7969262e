/** Frame synchronisation of the HLW8032 meter, src/medidor.c. */
module Medidor {
  import opened Common

  const FRAME: nat := 24
  const WINDOW: nat := 64
  const CAPACITY: nat := 128

  /** The six 24-bit registers of a frame: a parameter and a measurement each for voltage, current and power. */
  datatype Registers = Registers(vParam: int, vData: int, iParam: int, iData: int, pParam: int, pData: int)

  predicate IsHeader(b0: byte, b1: byte) {
    (b0 >= 0xf0 && b1 == 0x5a) || (b0 == 0x55 && b1 == 0x5a)
  }

  function Sum(s: seq<byte>): nat {
    if s == [] then 0 else Sum(s[..|s| - 1]) + s[|s| - 1]
  }

  /** The checksum of the frame at `p` is right. */
  predicate ChecksumOk(s: seq<byte>, p: nat)
    requires p + FRAME <= |s|
  {
    Sum(s[p + 2..p + 23]) % 256 == s[p + 23]
  }

  function Word(s: seq<byte>, i: nat): int
    requires i + 3 <= |s|
  {
    s[i] as int * 0x10000 + s[i + 1] as int * 0x100 + s[i + 2]
  }

  /** The registers of the frame at `p`. */
  function RegistersAt(s: seq<byte>, p: nat): Registers
    requires p + FRAME <= |s|
  {
    Registers(Word(s, p + 2), Word(s, p + 5), Word(s, p + 8), Word(s, p + 11), Word(s, p + 14), Word(s, p + 17))
  }

  /** No header pair begins before `i`. */
  predicate NoHeaderBefore(s: seq<byte>, i: nat)
    requires i < |s|
  {
    forall j :: 0 <= j < i ==> !IsHeader(s[j], s[j + 1])
  }

  /** `Checksum`, whose counter and sum are 8 bits wide. */
  method Checksum(position: nat, buffer: array<byte>) returns (ok: bool)
    requires buffer.Length == CAPACITY && position < 48
    ensures ok <==> ChecksumOk(buffer[..], position)
  {
    var checksum: byte := 0;
    var a: byte := position + 2;
    while a <= position + 22
      invariant position + 2 <= a <= position + 23
      invariant checksum == Sum(buffer[position + 2..a]) % 256
    {
      assert buffer[position + 2..a + 1][..a - position - 2] == buffer[position + 2..a];
      AddMod(Sum(buffer[position + 2..a]), buffer[a]);
      checksum := (checksum + buffer[a]) % 256;
      a := a + 1;
    }
    assert buffer[..][position + 2..position + 23] == buffer[position + 2..position + 23];
    return checksum == buffer[position + 23];
  }

  lemma AddMod(x: nat, y: nat)
    ensures (x % 256 + y) % 256 == (x + y) % 256
  {
  }

  /** The first header pair among `received` bytes begins at `i`. */
  predicate FirstHeader(s: seq<byte>, received: nat, i: nat)
    requires received < |s|
  {
    i < received && NoHeaderBefore(s, i) && IsHeader(s[i], s[i + 1])
  }

  /** Where the scan puts the frame: at the first header, -1 if that comes too late, 0 if there is none. */
  predicate IsPosition(s: seq<byte>, received: nat, position: int)
    requires received < |s|
  {
    if position < 0 then position == -1 && exists i :: 48 <= i < received && FirstHeader(s, received, i)
    else position < 48 && (FirstHeader(s, received, position) || (position == 0 && NoHeaderBefore(s, received)))
  }

  lemma OnePosition(s: seq<byte>, received: nat, p: int, q: int)
    requires received < |s| && IsPosition(s, received, p) && IsPosition(s, received, q)
    ensures p == q
  {
  }

  /** The scan of `Hlw8032_Read`. */
  method FindHeader(buffer: array<byte>, rxBytes: nat) returns (position: int)
    requires buffer.Length == CAPACITY && rxBytes <= WINDOW
    ensures IsPosition(buffer[..], rxBytes, position)
  {
    position := 0;
    var i := 0;
    while i < rxBytes
      invariant 0 <= i <= rxBytes && NoHeaderBefore(buffer[..], i)
    {
      if (buffer[i] >= 0xf0 && buffer[i + 1] == 0x5a) || (buffer[i] == 0x55 && buffer[i + 1] == 0x5a) {
        if i < 48 {
          position := i;
          return;
        }
        assert FirstHeader(buffer[..], rxBytes, i);
        position := -1;
        return;
      }
      i := i + 1;
    }
  }

  /** `Hlw8032_Read` up to the registers. */
  method Read(buffer: array<byte>, rxBytes: nat) returns (r: Option<Registers>)
    requires buffer.Length == CAPACITY && rxBytes <= WINDOW
    ensures IsOutcome(buffer[..], rxBytes, r)
  {
    var p := FindHeader(buffer, rxBytes);
    if p < 0 {
      return None;
    }
    var ok := Checksum(p, buffer);
    if !ok {
      return None;
    }
    r := Some(Registers(
      buffer[p + 2] as int * 0x10000 + buffer[p + 3] as int * 0x100 + buffer[p + 4],
      buffer[p + 5] as int * 0x10000 + buffer[p + 6] as int * 0x100 + buffer[p + 7],
      buffer[p + 8] as int * 0x10000 + buffer[p + 9] as int * 0x100 + buffer[p + 10],
      buffer[p + 11] as int * 0x10000 + buffer[p + 12] as int * 0x100 + buffer[p + 13],
      buffer[p + 14] as int * 0x10000 + buffer[p + 15] as int * 0x100 + buffer[p + 16],
      buffer[p + 17] as int * 0x10000 + buffer[p + 18] as int * 0x100 + buffer[p + 19]));
  }

  // ---------- Frames ----------

  predicate Fits24(r: Registers) {
    && 0 <= r.vParam < 0x1000000 && 0 <= r.vData < 0x1000000
    && 0 <= r.iParam < 0x1000000 && 0 <= r.iData < 0x1000000
    && 0 <= r.pParam < 0x1000000 && 0 <= r.pData < 0x1000000
  }

  function Split(w: int): (s: seq<byte>)
    requires 0 <= w < 0x1000000
    ensures |s| == 3 && Word(s, 0) == w
  {
    [w / 0x10000, w / 0x100 % 0x100, w % 0x100]
  }

  function Pack(words: seq<int>): (s: seq<byte>)
    requires forall i :: 0 <= i < |words| ==> 0 <= words[i] < 0x1000000
    ensures |s| == 3 * |words|
  {
    if words == [] then [] else Split(words[0]) + Pack(words[1..])
  }

  function Words(r: Registers): (words: seq<int>)
    ensures |words| == 6
    ensures Fits24(r) ==> forall i :: 0 <= i < |words| ==> 0 <= words[i] < 0x1000000
  {
    [r.vParam, r.vData, r.iParam, r.iData, r.pParam, r.pData]
  }

  function Summed(r: Registers, tail: seq<byte>): (s: seq<byte>)
    requires Fits24(r) && |tail| == 3
    ensures |s| == 21
  {
    Pack(Words(r)) + tail
  }

  /** The frame a meter in state `state` sends; `tail` holds its status byte and pulse count. */
  function Encode(state: byte, r: Registers, tail: seq<byte>): (f: seq<byte>)
    requires Fits24(r) && |tail| == 3
    ensures |f| == FRAME
  {
    [state, 0x5a] + Summed(r, tail) + [Sum(Summed(r, tail)) % 256]
  }

  predicate ValidFrame(f: seq<byte>) {
    |f| == FRAME && IsHeader(f[0], f[1]) && ChecksumOk(f, 0)
  }

  lemma Middle(a: seq<byte>, b: seq<byte>, c: seq<byte>)
    ensures (a + b + c)[|a|..|a| + |b|] == b
  {
  }

  lemma WordInside(a: seq<byte>, b: seq<byte>, c: seq<byte>, i: nat)
    requires i + 3 <= |b|
    ensures Word(a + b + c, |a| + i) == Word(b, i)
  {
  }

  lemma {:induction false} PackAt(words: seq<int>, k: nat)
    requires k < |words| && forall i :: 0 <= i < |words| ==> 0 <= words[i] < 0x1000000
    ensures Word(Pack(words), 3 * k) == words[k]
  {
    var rest := Pack(words[1..]);
    assert [] + Split(words[0]) + rest == Pack(words);
    if k == 0 {
      WordInside([], Split(words[0]), rest, 0);
    } else {
      PackAt(words[1..], k - 1);
      assert Split(words[0]) + rest + [] == Pack(words);
      WordInside(Split(words[0]), rest, [], 3 * (k - 1));
    }
  }

  /** Register number `k` of the frame, counted from 0. */
  lemma RegisterAt(state: byte, r: Registers, tail: seq<byte>, k: nat)
    requires Fits24(r) && |tail| == 3 && k < 6
    ensures Word(Encode(state, r, tail), 2 + 3 * k) == Words(r)[k]
  {
    var sum := [Sum(Summed(r, tail)) % 256];
    PackAt(Words(r), k);
    assert Encode(state, r, tail) == [state, 0x5a] + Pack(Words(r)) + (tail + sum);
    WordInside([state, 0x5a], Pack(Words(r)), tail + sum, 3 * k);
  }

  lemma FrameRegisters(state: byte, r: Registers, tail: seq<byte>)
    requires Fits24(r) && |tail| == 3
    ensures RegistersAt(Encode(state, r, tail), 0) == r
  {
    RegisterAt(state, r, tail, 0);
    RegisterAt(state, r, tail, 1);
    RegisterAt(state, r, tail, 2);
    RegisterAt(state, r, tail, 3);
    RegisterAt(state, r, tail, 4);
    RegisterAt(state, r, tail, 5);
  }

  lemma FrameRoundTrip(state: byte, r: Registers, tail: seq<byte>)
    requires Fits24(r) && |tail| == 3 && (state >= 0xf0 || state == 0x55)
    ensures ValidFrame(Encode(state, r, tail)) && RegistersAt(Encode(state, r, tail), 0) == r
  {
    Middle([state, 0x5a], Summed(r, tail), [Sum(Summed(r, tail)) % 256]);
    FrameRegisters(state, r, tail);
  }

  // ---------- A window of a stream of frames ----------

  function Stream(frames: seq<seq<byte>>): seq<byte> {
    if frames == [] then [] else frames[0] + Stream(frames[1..])
  }

  lemma {:induction false} StreamAt(frames: seq<seq<byte>>, k: nat)
    requires k < |frames| && forall f :: f in frames ==> |f| == FRAME
    ensures |Stream(frames)| == FRAME * |frames|
    ensures Stream(frames)[FRAME * k..FRAME * k + FRAME] == frames[k]
  {
    var rest := Stream(frames[1..]);
    assert frames[0] in frames && Stream(frames) == frames[0] + rest;
    StreamLength(frames);
    if k > 0 {
      assert forall f :: f in frames[1..] ==> f in frames;
      StreamAt(frames[1..], k - 1);
      assert rest[FRAME * (k - 1)..FRAME * (k - 1) + FRAME] == frames[1..][k - 1];
    }
  }

  lemma {:induction false} StreamLength(frames: seq<seq<byte>>)
    requires forall f :: f in frames ==> |f| == FRAME
    ensures |Stream(frames)| == FRAME * |frames|
  {
    if frames != [] {
      assert frames[0] in frames && forall f :: f in frames[1..] ==> f in frames;
      StreamLength(frames[1..]);
    }
  }

  /** A frame of the stream begins at `i`. */
  predicate AtFrame(i: nat) {
    i % FRAME == 0
  }

  /** Header pairs occur only where frames begin. */
  ghost predicate NoFalseHeader(s: seq<byte>) {
    forall j :: 0 <= j < |s| - 1 && IsHeader(s[j], s[j + 1]) ==> AtFrame(j)
  }

  /** Where the first whole frame begins in a window cut at offset `o`. */
  function FirstFrame(o: nat): nat {
    (FRAME - o % FRAME) % FRAME
  }

  lemma FirstFrameIsNext(o: nat)
    ensures FirstFrame(o) < FRAME && AtFrame(o + FirstFrame(o))
  {
  }

  lemma NoFrameBefore(o: nat, j: nat)
    requires j < FirstFrame(o)
    ensures !AtFrame(o + j)
  {
  }

  lemma InWindow(all: seq<byte>, o: nat, s: seq<byte>, j: nat)
    requires o + WINDOW <= |all| && |s| == CAPACITY && s[..WINDOW] == all[o..o + WINDOW] && j < WINDOW
    ensures s[j] == all[o + j]
  {
    assert s[..WINDOW][j] == s[j] && all[o..o + WINDOW][j] == all[o + j];
  }

  lemma NothingBeforeFrame(all: seq<byte>, o: nat, s: seq<byte>)
    requires o + WINDOW <= |all| && |s| == CAPACITY && s[..WINDOW] == all[o..o + WINDOW]
    requires NoFalseHeader(all)
    ensures FirstFrame(o) < |s| && NoHeaderBefore(s, FirstFrame(o))
  {
    FirstFrameIsNext(o);
    forall j | 0 <= j < FirstFrame(o)
      ensures !IsHeader(s[j], s[j + 1])
    {
      NoFrameBefore(o, j);
      InWindow(all, o, s, j);
      InWindow(all, o, s, j + 1);
    }
  }

  lemma FrameInWindow(all: seq<byte>, o: nat, s: seq<byte>, p: nat)
    requires o + WINDOW <= |all| && |s| == CAPACITY && s[..WINDOW] == all[o..o + WINDOW] && p < FRAME
    ensures s[p..p + FRAME] == all[o + p..o + p + FRAME]
  {
    forall j | p <= j < p + FRAME
      ensures s[j] == all[o + j]
    {
      InWindow(all, o, s, j);
    }
  }

  /** Wherever the window is cut out of a stream of valid frames, the header found is that of
      the first whole frame in it, whose checksum passes and whose registers are read. */
  lemma WindowSyncs(frames: seq<seq<byte>>, o: nat, s: seq<byte>)
    requires forall f :: f in frames ==> ValidFrame(f)
    requires o + WINDOW <= |Stream(frames)| && NoFalseHeader(Stream(frames))
    requires |s| == CAPACITY && s[..WINDOW] == Stream(frames)[o..o + WINDOW]
    ensures var p := FirstFrame(o);
            var k := (o + p) / FRAME;
            && p < FRAME && NoHeaderBefore(s, p) && IsHeader(s[p], s[p + 1])
            && k < |frames| && ValidFrame(frames[k]) && s[p..p + FRAME] == frames[k]
            && ChecksumOk(s, p) && RegistersAt(s, p) == RegistersAt(frames[k], 0)
    ensures IsPosition(s, WINDOW, FirstFrame(o))
  {
    var p := FirstFrame(o);
    var k := (o + p) / FRAME;
    FirstFrameIsNext(o);
    StreamLength(frames);
    assert FRAME * k == o + p;
    StreamAt(frames, k);
    NothingBeforeFrame(Stream(frames), o, s);
    FrameInWindow(Stream(frames), o, s, p);
    assert frames[k] in frames;
    FrameAt(s, p, frames[k]);
  }

  lemma FrameAt(s: seq<byte>, p: nat, f: seq<byte>)
    requires p + FRAME <= |s| && s[p..p + FRAME] == f && ValidFrame(f)
    ensures IsHeader(s[p], s[p + 1]) && ChecksumOk(s, p) && RegistersAt(s, p) == RegistersAt(f, 0)
  {
    assert forall j :: 0 <= j < FRAME ==> s[p + j] == f[j];
    assert s[p + 2..p + 23] == f[2..23];
  }

  /** The outcome of a read of the buffer contents `s`. */
  ghost predicate IsOutcome(s: seq<byte>, received: nat, r: Option<Registers>)
    requires |s| == CAPACITY && received <= WINDOW
  {
    exists p :: IsPosition(s, received, p)
                && r == if p >= 0 && ChecksumOk(s, p) then Some(RegistersAt(s, p)) else None
  }

  lemma OutcomeAt(s: seq<byte>, received: nat, r: Option<Registers>, q: nat)
    requires |s| == CAPACITY && received <= WINDOW && q < 48
    requires IsOutcome(s, received, r) && IsPosition(s, received, q) && ChecksumOk(s, q)
    ensures r == Some(RegistersAt(s, q))
  {
    var p :| IsPosition(s, received, p) && r == if p >= 0 && ChecksumOk(s, p) then Some(RegistersAt(s, p)) else None;
    OnePosition(s, received, p, q);
  }

  /** The buffer holds such a window: the read succeeds with the registers of that frame. */
  method ReadWindow(buffer: array<byte>, ghost frames: seq<seq<byte>>, ghost o: nat) returns (r: Registers)
    requires buffer.Length == CAPACITY
    requires forall f :: f in frames ==> ValidFrame(f)
    requires o + WINDOW <= |Stream(frames)| && NoFalseHeader(Stream(frames))
    requires buffer[..WINDOW] == Stream(frames)[o..o + WINDOW]
    ensures var k := (o + FirstFrame(o)) / FRAME;
            k < |frames| && ValidFrame(frames[k]) && r == RegistersAt(frames[k], 0)
  {
    var x := Read(buffer, WINDOW);
    assert buffer[..][..WINDOW] == buffer[..WINDOW];
    WindowSyncs(frames, o, buffer[..]);
    OutcomeAt(buffer[..], WINDOW, x, FirstFrame(o));
    r := x.value;
  }

  // ---------- What the checksum detects ----------

  lemma {:induction false} SumUpdate(s: seq<byte>, j: nat, v: byte)
    requires j < |s|
    ensures Sum(s[j := v]) == Sum(s) - s[j] + v
  {
    var n := |s| - 1;
    if j == n {
      assert s[j := v][..n] == s[..n];
    } else {
      assert s[j := v][..n] == s[..n][j := v];
      SumUpdate(s[..n], j, v);
    }
  }

  /** Any change of any one of the 21 summed bytes of a right frame is detected. */
  lemma OneWrongByteFails(s: seq<byte>, p: nat, j: nat, v: byte)
    requires p + FRAME <= |s| && ChecksumOk(s, p)
    requires 2 <= j <= 22 && v != s[p + j]
    ensures !ChecksumOk(s[p + j := v], p)
  {
    var body := s[p + 2..p + 23];
    SumUpdate(body, j - 2, v);
    assert s[p + j := v][p + 2..p + 23] == body[j - 2 := v];
  }

  // ---------- What the read makes of bytes that were not received ----------

  /** The bytes received determine what the read returns, whatever the buffer held before. */
  ghost predicate ReceivedDecide(s: seq<byte>, received: nat)
    requires |s| == CAPACITY && received <= WINDOW
  {
    forall t: seq<byte>, r :: |t| == CAPACITY && t[..received] == s[..received] ==>
      (IsOutcome(t, received, r) <==> IsOutcome(s, received, r))
  }

  /** A header pair of two received bytes, the first there is, begins at `p`. */
  predicate FirstPair(s: seq<byte>, received: nat, p: nat)
    requires received < |s|
  {
    p + 1 < received && FirstHeader(s, received, p)
  }

  predicate NoPair(s: seq<byte>, received: nat)
    requires received < |s|
  {
    forall i :: 0 <= i < received - 1 ==> !IsHeader(s[i], s[i + 1])
  }

  predicate CanBegin(b: byte) {
    b >= 0xf0 || b == 0x55
  }

  /** The frame judged ends within the received bytes; and without a header pair, the last
      received byte must not make a header with the byte behind it, unless it comes too late
      for a frame and the frame at 0 is refused as well. */
  predicate Settles(s: seq<byte>, received: nat)
    requires |s| == CAPACITY && received <= WINDOW
  {
    && (forall p :: 0 <= p < received && FirstPair(s, received, p) ==> p >= 48 || p + FRAME <= received)
    && (NoPair(s, received) ==>
          FRAME <= received && (CanBegin(s[received - 1]) ==> received > 48 && !ChecksumOk(s, 0)))
  }

  /** What a read that judges position `p` returns. */
  function VerdictAt(s: seq<byte>, p: int): Option<Registers>
    requires |s| == CAPACITY && p < 48
  {
    if p >= 0 && ChecksumOk(s, p) then Some(RegistersAt(s, p)) else None
  }

  lemma OutcomeIsVerdict(s: seq<byte>, received: nat, p: int, r: Option<Registers>)
    requires |s| == CAPACITY && received <= WINDOW && IsPosition(s, received, p)
    ensures p < 48 && (IsOutcome(s, received, r) <==> r == VerdictAt(s, p))
  {
    if IsOutcome(s, received, r) {
      var q :| IsPosition(s, received, q) && r == if q >= 0 && ChecksumOk(s, q) then Some(RegistersAt(s, q)) else None;
      OnePosition(s, received, p, q);
    }
  }

  /** Two contents that agree with `s` on what was received and are read differently. */
  lemma Undecided(s: seq<byte>, received: nat, t1: seq<byte>, p1: int, t2: seq<byte>, p2: int)
    requires |s| == |t1| == |t2| == CAPACITY && received <= WINDOW
    requires t1[..received] == s[..received] && t2[..received] == s[..received]
    requires IsPosition(t1, received, p1) && IsPosition(t2, received, p2) && VerdictAt(t1, p1) != VerdictAt(t2, p2)
    ensures !ReceivedDecide(s, received)
  {
    OutcomeIsVerdict(t1, received, p1, VerdictAt(t1, p1));
    OutcomeIsVerdict(t2, received, p2, VerdictAt(t2, p2));
    OutcomeIsVerdict(t1, received, p1, VerdictAt(t2, p2));
    assert IsOutcome(t2, received, VerdictAt(t2, p2)) && !IsOutcome(t1, received, VerdictAt(t2, p2));
  }

  /** Any two contents with the same received bytes are read alike. */
  lemma Decided(s: seq<byte>, received: nat, p: int)
    requires |s| == CAPACITY && received <= WINDOW && IsPosition(s, received, p)
    requires forall t: seq<byte> :: |t| == CAPACITY && t[..received] == s[..received] ==>
               exists q :: IsPosition(t, received, q) && VerdictAt(t, q) == VerdictAt(s, p)
    ensures ReceivedDecide(s, received)
  {
    forall t: seq<byte>, r | |t| == CAPACITY && t[..received] == s[..received]
      ensures IsOutcome(t, received, r) <==> IsOutcome(s, received, r)
    {
      var q :| IsPosition(t, received, q) && VerdictAt(t, q) == VerdictAt(s, p);
      OutcomeIsVerdict(t, received, q, r);
      OutcomeIsVerdict(s, received, p, r);
    }
  }

  lemma Agree(s: seq<byte>, t: seq<byte>, received: nat)
    requires |s| == |t| && received <= |s| && t[..received] == s[..received]
    ensures forall i :: 0 <= i < received ==> t[i] == s[i]
    ensures forall a, b :: 0 <= a <= b <= received ==> t[a..b] == s[a..b]
  {
    assert forall i :: 0 <= i < received ==> t[..received][i] == t[i] && s[..received][i] == s[i];
  }

  /** The checksum byte of a frame can make it right or wrong. */
  lemma EitherVerdict(s: seq<byte>, p: nat) returns (right: seq<byte>, wrong: seq<byte>)
    requires |s| == CAPACITY && p < 48
    ensures |right| == |wrong| == CAPACITY && right[..p + 23] == wrong[..p + 23] == s[..p + 23]
    ensures ChecksumOk(right, p) && !ChecksumOk(wrong, p) && VerdictAt(right, p) != VerdictAt(wrong, p)
  {
    var sum := Sum(s[p + 2..p + 23]) % 256;
    right, wrong := s[p + 23 := sum], s[p + 23 := (sum + 1) % 256];
    assert right[p + 2..p + 23] == s[p + 2..p + 23] && wrong[p + 2..p + 23] == s[p + 2..p + 23];
  }

  lemma SameVerdict(s: seq<byte>, t: seq<byte>, received: nat, p: nat)
    requires |s| == |t| == CAPACITY && received <= WINDOW && t[..received] == s[..received]
    requires p < 48 && p + FRAME <= received
    ensures VerdictAt(t, p) == VerdictAt(s, p)
  {
    Agree(s, t, received);
    assert t[p + 2..p + 23] == s[p + 2..p + 23];
  }

  lemma PairPosition(s: seq<byte>, t: seq<byte>, received: nat, p: nat)
    requires |s| == |t| == CAPACITY && received <= WINDOW && t[..received] == s[..received]
    requires FirstPair(s, received, p)
    ensures IsPosition(t, received, if p < 48 then p else -1)
  {
    Agree(s, t, received);
    assert FirstHeader(t, received, p);
  }

  lemma PairDecides(s: seq<byte>, received: nat, p: nat)
    requires |s| == CAPACITY && received <= WINDOW && FirstPair(s, received, p)
    ensures ReceivedDecide(s, received) <==> p >= 48 || p + FRAME <= received
  {
    var q := if p < 48 then p as int else -1;
    PairPosition(s, s, received, p);
    if p >= 48 || p + FRAME <= received {
      forall t: seq<byte> | |t| == CAPACITY && t[..received] == s[..received]
        ensures IsPosition(t, received, q) && VerdictAt(t, q) == VerdictAt(s, q)
      {
        PairPosition(s, t, received, p);
        if p < 48 {
          SameVerdict(s, t, received, p);
        }
      }
      Decided(s, received, q);
    } else {
      var right, wrong := EitherVerdict(s, p);
      Shorter(s, right, p + 23, received);
      Shorter(s, wrong, p + 23, received);
      PairPosition(s, right, received, p);
      PairPosition(s, wrong, received, p);
      Undecided(s, received, right, p, wrong, p);
    }
  }

  lemma Shorter(s: seq<byte>, t: seq<byte>, n: nat, m: nat)
    requires m <= n <= |s| && |s| == |t| && t[..n] == s[..n]
    ensures t[..m] == s[..m]
  {
    assert t[..m] == t[..n][..m] && s[..m] == s[..n][..m];
  }

  /** Without a header pair the byte behind the last received one decides whether that begins a header. */
  lemma NoPairPosition(s: seq<byte>, t: seq<byte>, received: nat)
    requires |s| == |t| == CAPACITY && received <= WINDOW && t[..received] == s[..received]
    requires NoPair(s, received)
    ensures received > 0 && CanBegin(s[received - 1]) && t[received] == 0x5a ==>
              IsPosition(t, received, if received <= 48 then received - 1 else -1)
    ensures !(received > 0 && CanBegin(s[received - 1]) && t[received] == 0x5a) ==> IsPosition(t, received, 0)
  {
    Agree(s, t, received);
    if received > 0 && CanBegin(s[received - 1]) && t[received] == 0x5a {
      assert FirstHeader(t, received, received - 1);
    } else {
      assert NoHeaderBefore(t, received);
    }
  }

  /** The last byte received begins a header if the next one says so, in time for a frame. */
  lemma EarlyBeginUndecided(s: seq<byte>, received: nat)
    requires |s| == CAPACITY && 0 < received <= 48 && NoPair(s, received) && CanBegin(s[received - 1])
    ensures !ReceivedDecide(s, received)
  {
    var p, t := received - 1, s[received := 0x5a];
    var right, wrong := EitherVerdict(t, p);
    Shorter(t, right, p + 23, received + 1);
    Shorter(t, wrong, p + 23, received + 1);
    assert right[..received + 1][received] == 0x5a && wrong[..received + 1][received] == 0x5a;
    Shorter(t, right, received + 1, received);
    Shorter(t, wrong, received + 1, received);
    assert t[..received] == s[..received];
    NoPairPosition(s, right, received);
    NoPairPosition(s, wrong, received);
    Undecided(s, received, right, p, wrong, p);
  }

  lemma ShortUndecided(s: seq<byte>, received: nat)
    requires |s| == CAPACITY && received < FRAME && NoPair(s, received)
    requires received > 0 ==> !CanBegin(s[received - 1])
    ensures !ReceivedDecide(s, received)
  {
    var right, wrong := EitherVerdict(s, 0);
    Shorter(s, right, 23, received);
    Shorter(s, wrong, 23, received);
    NoPairPosition(s, right, received);
    NoPairPosition(s, wrong, received);
    Undecided(s, received, right, 0, wrong, 0);
  }

  lemma PlainDecided(s: seq<byte>, received: nat)
    requires |s| == CAPACITY && FRAME <= received <= WINDOW && NoPair(s, received) && !CanBegin(s[received - 1])
    ensures ReceivedDecide(s, received)
  {
    NoPairPosition(s, s, received);
    forall t: seq<byte> | |t| == CAPACITY && t[..received] == s[..received]
      ensures IsPosition(t, received, 0) && VerdictAt(t, 0) == VerdictAt(s, 0)
    {
      NoPairPosition(s, t, received);
      SameVerdict(s, t, received, 0);
    }
    Decided(s, received, 0);
  }

  /** Begun too late, a header refuses the read; else the frame at 0 is judged. */
  lemma LateBeginDecides(s: seq<byte>, received: nat)
    requires |s| == CAPACITY && 48 < received <= WINDOW && NoPair(s, received) && CanBegin(s[received - 1])
    ensures ReceivedDecide(s, received) <==> !ChecksumOk(s, 0)
  {
    var header, none := s[received := 0x5a], s[received := 0];
    assert header[..received] == s[..received] && none[..received] == s[..received];
    NoPairPosition(s, header, received);
    NoPairPosition(s, none, received);
    SameVerdict(s, none, received, 0);
    if ChecksumOk(s, 0) {
      Undecided(s, received, header, -1, none, 0);
    } else {
      NoPairPosition(s, s, received);
      var p := if s[received] == 0x5a then -1 else 0;
      forall t: seq<byte> | |t| == CAPACITY && t[..received] == s[..received]
        ensures exists q :: IsPosition(t, received, q) && VerdictAt(t, q) == VerdictAt(s, p)
      {
        NoPairPosition(s, t, received);
        SameVerdict(s, t, received, 0);
        var q := if t[received] == 0x5a then -1 else 0;
        assert IsPosition(t, received, q) && VerdictAt(t, q) == None;
      }
      Decided(s, received, p);
    }
  }

  lemma NoPairDecides(s: seq<byte>, received: nat)
    requires |s| == CAPACITY && received <= WINDOW && NoPair(s, received)
    ensures ReceivedDecide(s, received) <==>
              FRAME <= received && (CanBegin(s[received - 1]) ==> received > 48 && !ChecksumOk(s, 0))
  {
    if received == 0 || !CanBegin(s[received - 1]) {
      if received < FRAME {
        ShortUndecided(s, received);
      } else {
        PlainDecided(s, received);
      }
    } else if received <= 48 {
      EarlyBeginUndecided(s, received);
    } else {
      LateBeginDecides(s, received);
    }
  }

  /** The first header pair among the received bytes, if there is one. */
  lemma {:induction false} FindPair(s: seq<byte>, received: nat, n: nat) returns (p: nat)
    requires received < |s| && n < |s| && n <= received
    ensures if p < n - 1 then FirstPair(s, received, p) else NoPair(s, n)
    decreases n
  {
    if n <= 1 {
      p := 0;
    } else {
      p := FindPair(s, received, n - 1);
      if p >= n - 2 && IsHeader(s[n - 2], s[n - 1]) {
        p := n - 2;
      } else if p >= n - 2 {
        p := n;
      }
    }
  }

  /** For every content of the buffer and every number of received bytes: these alone decide
      what the read returns exactly in the case described. */
  lemma VerdictOnReceivedBytes(s: seq<byte>, received: nat)
    requires |s| == CAPACITY && received <= WINDOW
    ensures ReceivedDecide(s, received) <==> Settles(s, received)
  {
    var p := FindPair(s, received, received);
    if p < received - 1 {
      PairDecides(s, received, p);
      assert FirstPair(s, received, p);
    } else {
      NoPairDecides(s, received);
    }
  }

  // ---------- Reads that go wrong ----------

  function Zeros(n: nat): (s: seq<byte>)
    ensures |s| == n && forall i :: 0 <= i < n ==> s[i] == 0
  {
    seq(n, i => 0)
  }

  lemma {:induction false} ZeroSum(s: seq<byte>)
    requires forall i :: 0 <= i < |s| ==> s[i] == 0
    ensures Sum(s) == 0
  {
    if s != [] {
      ZeroSum(s[..|s| - 1]);
    }
  }

  /** A read of zeros, without any header, succeeds. */
  lemma HeaderlessReadSucceeds()
    ensures var s := Zeros(CAPACITY);
            NoHeaderBefore(s, WINDOW) && IsOutcome(s, WINDOW, Some(Registers(0, 0, 0, 0, 0, 0)))
  {
    var s := Zeros(CAPACITY);
    ZeroSum(s[2..23]);
    NoPairPosition(s, s, WINDOW);
    OutcomeIsVerdict(s, WINDOW, 0, Some(Registers(0, 0, 0, 0, 0, 0)));
  }

  /** A first header at 41 is judged on bytes that were not received. */
  lemma LateHeaderUndecided()
    ensures var s := Zeros(CAPACITY)[41 := 0x55][42 := 0x5a];
            FirstPair(s, WINDOW, 41) && !ReceivedDecide(s, WINDOW)
  {
    PairDecides(Zeros(CAPACITY)[41 := 0x55][42 := 0x5a], WINDOW, 41);
  }

  /** Zeros with 0xf0 received last. */
  function BeginLast(): (s: seq<byte>)
    ensures |s| == CAPACITY && s[63] == 0xf0 && forall i :: 0 <= i < 63 || 63 < i < CAPACITY ==> s[i] == 0
  {
    Zeros(CAPACITY)[63 := 0xf0]
  }

  lemma BeginLastChecks()
    ensures ChecksumOk(BeginLast(), 0) && RegistersAt(BeginLast(), 0) == Registers(0, 0, 0, 0, 0, 0)
    ensures NoPair(BeginLast(), WINDOW)
  {
    ZeroSum(BeginLast()[2..23]);
  }

  lemma BeginLastReads(t: seq<byte>, b: byte)
    requires t == BeginLast()[64 := b]
    ensures b != 0x5a ==> IsPosition(t, WINDOW, 0)
    ensures b == 0x5a ==> IsPosition(t, WINDOW, -1)
  {
    BeginLastChecks();
    assert t[..WINDOW] == BeginLast()[..WINDOW];
    NoPairPosition(BeginLast(), t, WINDOW);
  }

  /** The byte behind it decides between success and failure. */
  lemma LastByteUndecided()
    ensures IsOutcome(BeginLast(), WINDOW, Some(Registers(0, 0, 0, 0, 0, 0)))
    ensures IsOutcome(BeginLast()[64 := 0x5a], WINDOW, None)
    ensures !ReceivedDecide(BeginLast(), WINDOW)
  {
    var s, t := BeginLast(), BeginLast()[64 := 0x5a];
    BeginLastChecks();
    assert s[64 := 0] == s;
    BeginLastReads(s, 0);
    BeginLastReads(t, 0x5a);
    OutcomeIsVerdict(s, WINDOW, 0, Some(Registers(0, 0, 0, 0, 0, 0)));
    OutcomeIsVerdict(t, WINDOW, -1, None);
    LateBeginDecides(s, WINDOW);
  }
}

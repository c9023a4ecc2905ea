/** KISS framing: the escape encoder, the byte-at-a-time decoder with its 254-byte cap, and how the
    decoder finds its way back to the frame boundaries after arbitrary line noise. */
module Kiss {
  import opened Bytes

  const FEND: byte := 0xc0
  const FESC: byte := 0xdb
  const TFEND: byte := 0xdc
  const TFESC: byte := 0xdd

  const MAX_PACKET_SIZE := 254

  // ----- encoder

  predicate IsSpecial(c: byte) {
    c == FEND || c == FESC
  }

  function Escape(c: byte): seq<byte> {
    if c == FEND then [FESC, TFEND]
    else if c == FESC then [FESC, TFESC]
    else [c]
  }

  function Body(p: seq<byte>): seq<byte> {
    if p == [] then [] else Escape(p[0]) + Body(p[1..])
  }

  datatype Frame = Frame(cmd: nat, channel: nat, payload: seq<byte>) {
    predicate Valid() {
      cmd < 16 && channel < 16
    }

    /** The type byte: channel in the high nibble, command in the low one. */
    function Header(): byte
      requires Valid()
    {
      16 * channel + cmd
    }

    function Encode(): seq<byte>
      requires Valid()
    {
      [FEND] + Body([Header()] + payload) + [FEND]
    }
  }

  // ----- decoder, one byte at a time

  /** The local state of one receive call. */
  datatype Line = Line(escape: bool, buf: seq<byte>) {
    predicate Valid() {
      |buf| <= MAX_PACKET_SIZE
    }
  }

  const FRESH := Line(false, [])

  /** How a byte leaves the call: still reading, returning a frame, or giving up on an overrun. */
  datatype Event = Reading(line: Line) | Delivered(payload: seq<byte>) | Overrun

  function Step(st: Line, b: byte): Event {
    if st.escape then
      if |st.buf| == MAX_PACKET_SIZE then Overrun
      else if b == TFEND then Reading(Line(false, st.buf + [FEND]))
      else if b == TFESC then Reading(Line(false, st.buf + [FESC]))
      else Reading(Line(false, st.buf))
    else if b == FEND then
      if st.buf != [] then Delivered(st.buf[1..]) else Reading(st)
    else if b == FESC then Reading(Line(true, st.buf))
    else if |st.buf| == MAX_PACKET_SIZE then Overrun
    else Reading(Line(false, st.buf + [b]))
  }

  /** What one receive call does with the bytes on the line: the payload it returns, if any, and
      what it leaves unread.  A line that runs dry fails the read and loses the partial frame. */
  datatype Received = Received(ok: bool, payload: seq<byte>, rest: seq<byte>)

  function RecvFrom(st: Line, s: seq<byte>): Received
    decreases |s|
  {
    if s == [] then Received(false, [], [])
    else match Step(st, s[0])
      case Reading(line) => RecvFrom(line, s[1..])
      case Delivered(payload) => Received(true, payload, s[1..])
      case Overrun => Received(false, [], s[1..])
  }

  lemma {:induction false} RecvConsumes(st: Line, s: seq<byte>)
    ensures s == [] || |RecvFrom(st, s).rest| < |s|
    decreases |s|
  {
    if s != [] && Step(st, s[0]).Reading? {
      RecvConsumes(Step(st, s[0]).line, s[1..]);
    }
  }

  function Zeros(n: nat): (s: seq<byte>)
    ensures |s| == n
  {
    if n == 0 then [] else [0] + Zeros(n - 1)
  }

  /** At the end of a file reading yields zero bytes for ever: the call then fails as on a dead line, and
      it does return, by an overrun. */
  lemma {:induction false} EndOfFileFails(st: Line, n: nat)
    requires st.Valid()
    ensures !RecvFrom(st, Zeros(n)).ok
    ensures n > MAX_PACKET_SIZE + 1 - |st.buf| + (if st.escape then 1 else 0) ==> RecvFrom(st, Zeros(n)).rest != []
    decreases n
  {
    if n > 0 {
      var e := Step(st, 0);
      assert Zeros(n)[1..] == Zeros(n - 1);
      if e.Reading? {
        EndOfFileFails(e.line, n - 1);
      }
    }
  }

  /** The payloads repeated receive calls return until the line is empty. */
  function RecvAll(s: seq<byte>): seq<seq<byte>>
    decreases |s|
  {
    if s == [] then []
    else
      RecvConsumes(FRESH, s);
      var r := RecvFrom(FRESH, s);
      (if r.ok then [r.payload] else []) + RecvAll(r.rest)
  }

  // ----- the serial port object

  /** The type byte is cut off by moving the rest of the buffer down. */
  method DropFirst(p: array<byte>, len: nat)
    requires len < p.Length
    modifies p
    ensures p[..len] == old(p[1..len + 1])
  {
    for i := 0 to len
      invariant p[..i] == old(p[1..i + 1])
      invariant p[i..] == old(p[i..])
    {
      p[i] := p[i + 1];
    }
  }

  class Port {
    var input: seq<byte>

    constructor (bytes: seq<byte>)
      ensures input == bytes
    {
      input := bytes;
    }

    /** Reads until a frame is complete, the buffer overruns or the line fails. */
    method RecvMkiss() returns (ok: bool, p: array<byte>, len: nat)
      modifies this
      ensures fresh(p) && p.Length == MAX_PACKET_SIZE && len <= p.Length
      ensures var r := RecvFrom(FRESH, old(input));
              ok == r.ok && input == r.rest && (ok ==> p[..len] == r.payload)
    {
      ok := false;
      var escape := false;
      p := new byte[MAX_PACKET_SIZE];
      len := 0;
      ghost var all := input;
      assert p[..0] == [];
      while true
        invariant len <= p.Length
        invariant !ok && RecvFrom(Line(escape, p[..len]), input) == RecvFrom(FRESH, all)
        decreases |input|
      {
        if |input| == 0 {
          return;
        }
        ghost var st := Line(escape, p[..len]);
        var buffer := input[0];
        input := input[1..];
        if escape {
          if len == MAX_PACKET_SIZE {
            break;
          }
          if buffer == TFEND {
            p[len] := FEND;
            len := len + 1;
          } else if buffer == TFESC {
            p[len] := FESC;
            len := len + 1;
          }
          escape := false;
        } else if buffer == FEND {
          if len != 0 {
            ok := true;
            break;
          }
        } else if buffer == FESC {
          escape := true;
        } else {
          if len == MAX_PACKET_SIZE {
            break;
          }
          p[len] := buffer;
          len := len + 1;
        }
        assert Step(st, buffer) == Reading(Line(escape, p[..len]));
      }
      if ok {
        len := len - 1;
        DropFirst(p, len);
      }
    }

    /** The receive thread: every frame that comes back is queued. */
    method ReceiveLoop() returns (queued: seq<seq<byte>>)
      modifies this
      ensures queued == RecvAll(old(input)) && input == []
    {
      queued := [];
      ghost var all := input;
      while |input| > 0
        invariant queued + RecvAll(input) == RecvAll(all)
        decreases |input|
      {
        RecvConsumes(FRESH, input);
        var ok, p, len := RecvMkiss();
        if ok {
          queued := queued + [p[..len]];
        }
      }
    }
  }

  method EscapePut(p: array<byte>, len: nat, c: byte) returns (newLen: nat)
    requires len + |Escape(c)| <= p.Length
    modifies p
    ensures newLen == len + |Escape(c)|
    ensures p[..newLen] == old(p[..len]) + Escape(c)
  {
    newLen := len;
    if c == FEND {
      p[newLen] := FESC;
      newLen := newLen + 1;
      p[newLen] := TFEND;
      newLen := newLen + 1;
    } else if c == FESC {
      p[newLen] := FESC;
      newLen := newLen + 1;
      p[newLen] := TFESC;
      newLen := newLen + 1;
    } else {
      p[newLen] := c;
      newLen := newLen + 1;
    }
  }

  /** The buffer is sized for twice the payload plus three bytes; the caller's frame has to fit. */
  method SendMkiss(cmd: byte, channel: byte, p: seq<byte>) returns (out: array<byte>, offset: nat)
    requires cmd < 16 && channel < 16
    requires !IsSpecial(16 * channel + cmd) || exists i :: 0 <= i < |p| && !IsSpecial(p[i])
    ensures fresh(out) && offset <= out.Length == 2 * |p| + 3
    ensures out[..offset] == Frame(cmd, channel, p).Encode()
  {
    hide Body, Escape, IsSpecial;
    ghost var f := Frame(cmd, channel, p);
    ghost var content := [f.Header()] + p;
    EncodedSize(f);
    out := new byte[2 * |p| + 3];
    offset := 0;
    out[offset] := FEND;
    offset := offset + 1;
    BodyGrows(content, 0);
    offset := EscapePut(out, offset, 16 * channel + cmd);
    for i := 0 to |p|
      invariant offset <= out.Length && out[..offset] == [FEND] + Body(content[..i + 1])
    {
      BodyGrows(content, i + 1);
      offset := EscapePut(out, offset, p[i]);
    }
    assert content[..|p| + 1] == content;
    out[offset] := FEND;
    offset := offset + 1;
  }

  /** What the next byte of the content adds to the encoding. */
  lemma BodyGrows(content: seq<byte>, k: nat)
    requires k < |content|
    ensures Body(content[..k + 1]) == Body(content[..k]) + Escape(content[k])
    ensures |Body(content[..k])| + |Escape(content[k])| <= |Body(content)|
    ensures k == 0 ==> Body(content[..k]) == []
  {
    assert content[..k + 1] == content[..k] + [content[k]];
    BodySnoc(content[..k], content[k]);
    BodyPrefix(content, k + 1);
  }

  lemma {:induction false} BodyConcat(a: seq<byte>, b: seq<byte>)
    ensures Body(a + b) == Body(a) + Body(b)
    decreases |a|
  {
    if a == [] {
      assert a + b == b;
    } else {
      assert (a + b)[1..] == a[1..] + b;
      BodyConcat(a[1..], b);
    }
  }

  lemma BodySnoc(a: seq<byte>, c: byte)
    ensures Body(a + [c]) == Body(a) + Escape(c)
  {
    BodyConcat(a, [c]);
    assert [c][1..] == [];
  }

  lemma BodyPrefix(a: seq<byte>, k: nat)
    requires k <= |a|
    ensures |Body(a[..k])| <= |Body(a)|
  {
    BodyConcat(a[..k], a[k..]);
    assert a == a[..k] + a[k..];
  }

  lemma {:induction false} BodySize(p: seq<byte>)
    ensures |p| <= |Body(p)| <= 2 * |p|
    ensures |Body(p)| == 2 * |p| <==> forall i :: 0 <= i < |p| ==> IsSpecial(p[i])
    decreases |p|
  {
    if p != [] {
      BodySize(p[1..]);
      assert forall i :: 1 <= i < |p| ==> p[i] == p[1..][i - 1];
      assert (forall i :: 0 <= i < |p| ==> IsSpecial(p[i]))
        <==> IsSpecial(p[0]) && (forall i :: 0 <= i < |p[1..]| ==> IsSpecial(p[1..][i]));
    }
  }

  /** The encoder's buffer is large enough, except when the type byte and every payload byte need
      an escape: then it is one byte short. */
  lemma EncodedSize(f: Frame)
    requires f.Valid()
    ensures |f.Encode()| <= 2 * |f.payload| + 3
            <==> !IsSpecial(f.Header()) || exists i :: 0 <= i < |f.payload| && !IsSpecial(f.payload[i])
  {
    var content := [f.Header()] + f.payload;
    BodySize(content);
    assert content[0] == f.Header() && forall i :: 0 <= i < |f.payload| ==> content[i + 1] == f.payload[i];
    if exists i :: 0 <= i < |f.payload| && !IsSpecial(f.payload[i]) {
      var i :| 0 <= i < |f.payload| && !IsSpecial(f.payload[i]);
      assert !IsSpecial(content[i + 1]);
    }
  }

  // ----- the decoder as one automaton over the whole line

  /** Decoder state and payloads returned after any number of calls have read `s`. */
  datatype Outcome = Outcome(line: Line, frames: seq<seq<byte>>)

  function Run(st: Line, s: seq<byte>): Outcome
    decreases |s|
  {
    if s == [] then Outcome(st, [])
    else match Step(st, s[0])
      case Reading(line) => Run(line, s[1..])
      case Overrun => Run(FRESH, s[1..])
      case Delivered(payload) => var o := Run(FRESH, s[1..]); Outcome(o.line, [payload] + o.frames)
  }

  lemma {:induction false} RunConcat(st: Line, a: seq<byte>, b: seq<byte>)
    ensures var o := Run(st, a);
            var q := Run(o.line, b);
            Run(st, a + b) == Outcome(q.line, o.frames + q.frames)
    decreases |a|
  {
    if a == [] {
      assert a + b == b;
    } else {
      assert (a + b)[1..] == a[1..] + b;
      var next := match Step(st, a[0]) case Reading(line) => line case _ => FRESH;
      RunConcat(next, a[1..], b);
      var o := Run(next, a[1..]);
      var q := Run(o.line, b);
      assert Step(st, a[0]).Delivered? ==>
          [Step(st, a[0]).payload] + (o.frames + q.frames) == ([Step(st, a[0]).payload] + o.frames) + q.frames;
    }
  }

  /** On any input the decoder's length never passes the buffer size. */
  lemma {:induction false} RunBounded(st: Line, s: seq<byte>)
    requires st.Valid()
    ensures Run(st, s).line.Valid()
    ensures forall i :: 0 <= i < |Run(st, s).frames| ==> |Run(st, s).frames[i]| < MAX_PACKET_SIZE
    decreases |s|
  {
    if s != [] {
      var next := match Step(st, s[0]) case Reading(line) => line case _ => FRESH;
      RunBounded(next, s[1..]);
    }
  }

  /** Repeated receive calls are the automaton. */
  lemma {:induction false} RecvIsRun(st: Line, s: seq<byte>)
    ensures var r := RecvFrom(st, s);
            Run(st, s).frames == (if r.ok then [r.payload] else []) + Run(FRESH, r.rest).frames
    decreases |s|
  {
    if s != [] && Step(st, s[0]).Reading? {
      RecvIsRun(Step(st, s[0]).line, s[1..]);
    }
  }

  lemma {:induction false} RecvAllIsRun(s: seq<byte>)
    ensures RecvAll(s) == Run(FRESH, s).frames
    decreases |s|
  {
    if s != [] {
      RecvConsumes(FRESH, s);
      RecvIsRun(FRESH, s);
      RecvAllIsRun(RecvFrom(FRESH, s).rest);
    }
  }

  // ----- what the decoder makes of one encoded frame

  /** One escaped byte: stored, or lost to an overrun that starts the buffer again. */
  function Absorb(buf: seq<byte>, c: byte): seq<byte> {
    if |buf| < MAX_PACKET_SIZE then buf + [c] else []
  }

  function AbsorbAll(buf: seq<byte>, p: seq<byte>): seq<byte>
    decreases |p|
  {
    if p == [] then buf else AbsorbAll(Absorb(buf, p[0]), p[1..])
  }

  lemma RunOne(st: Line, b: byte)
    ensures Run(st, [b]) == match Step(st, b)
                            case Reading(line) => Outcome(line, [])
                            case Overrun => Outcome(FRESH, [])
                            case Delivered(payload) => Outcome(FRESH, [payload])
  {
    assert [b][1..] == [];
  }

  lemma RunEscape(buf: seq<byte>, c: byte)
    requires |buf| <= MAX_PACKET_SIZE
    ensures Run(Line(false, buf), Escape(c)) == Outcome(Line(false, Absorb(buf, c)), [])
  {
    if IsSpecial(c) {
      var tail := if c == FEND then TFEND else TFESC;
      assert Escape(c) == [FESC] + [tail];
      RunOne(Line(false, buf), FESC);
      RunOne(Line(true, buf), tail);
      RunConcat(Line(false, buf), [FESC], [tail]);
    } else {
      RunOne(Line(false, buf), c);
    }
  }

  lemma {:induction false} RunBody(buf: seq<byte>, p: seq<byte>)
    requires |buf| <= MAX_PACKET_SIZE
    ensures Run(Line(false, buf), Body(p)) == Outcome(Line(false, AbsorbAll(buf, p)), [])
    ensures |AbsorbAll(buf, p)| <= MAX_PACKET_SIZE
    decreases |p|
  {
    if p != [] {
      RunEscape(buf, p[0]);
      RunBody(Absorb(buf, p[0]), p[1..]);
      RunConcat(Line(false, buf), Escape(p[0]), Body(p[1..]));
    }
  }

  lemma {:induction false} AbsorbFits(buf: seq<byte>, p: seq<byte>)
    requires |buf| + |p| <= MAX_PACKET_SIZE
    ensures AbsorbAll(buf, p) == buf + p
    decreases |p|
  {
    if p == [] {
      assert buf + p == buf;
    } else {
      AbsorbFits(buf + [p[0]], p[1..]);
      assert (buf + [p[0]]) + p[1..] == buf + p;
    }
  }

  /** Past the cap the buffer restarts once, after losing the byte that did not fit. */
  lemma {:induction false} AbsorbOverrun(buf: seq<byte>, p: seq<byte>)
    requires |buf| <= MAX_PACKET_SIZE < |buf| + |p| && |p| <= MAX_PACKET_SIZE + 1
    ensures |AbsorbAll(buf, p)| == |buf| + |p| - (MAX_PACKET_SIZE + 1)
    decreases |p|
  {
    if |buf| == MAX_PACKET_SIZE {
      AbsorbFits([], p[1..]);
    } else {
      AbsorbOverrun(buf + [p[0]], p[1..]);
    }
  }

  /** The decoder state once a frame delimiter has been read. */
  function AfterFend(st: Line): seq<byte> {
    if st.escape && |st.buf| < MAX_PACKET_SIZE then st.buf else []
  }

  function FlushedBy(st: Line): seq<seq<byte>> {
    if !st.escape && st.buf != [] then [st.buf[1..]] else []
  }

  lemma RunEncoded(st: Line, f: Frame)
    requires st.Valid() && f.Valid()
    ensures var b := AbsorbAll(AfterFend(st), [f.Header()] + f.payload);
            Run(st, f.Encode()) == Outcome(FRESH, FlushedBy(st) + (if b != [] then [b[1..]] else []))
  {
    var content := [f.Header()] + f.payload;
    var mid := Line(false, AfterFend(st));
    var b := AbsorbAll(AfterFend(st), content);
    RunOne(st, FEND);
    assert Run(st, [FEND]) == Outcome(mid, FlushedBy(st));
    RunBody(AfterFend(st), content);
    RunOne(Line(false, b), FEND);
    RunConcat(st, [FEND], Body(content));
    RunConcat(st, [FEND] + Body(content), [FEND]);
  }

  /** Between frames, one encoded frame yields exactly its payload. */
  lemma RunFrame(f: Frame)
    requires f.Valid() && |f.payload| < MAX_PACKET_SIZE
    ensures Run(FRESH, f.Encode()) == Outcome(FRESH, [f.payload])
  {
    var content := [f.Header()] + f.payload;
    RunEncoded(FRESH, f);
    AbsorbFits([], content);
    assert [] + content == content && content[1..] == f.payload;
    assert FlushedBy(FRESH) == [];
  }

  // ----- whole lines

  ghost predicate Sendable(fs: seq<Frame>) {
    forall i :: 0 <= i < |fs| ==> fs[i].Valid() && |fs[i].payload| < MAX_PACKET_SIZE
  }

  function EncodeAll(fs: seq<Frame>): seq<byte>
    requires Sendable(fs)
  {
    if fs == [] then [] else fs[0].Encode() + EncodeAll(fs[1..])
  }

  function Payloads(fs: seq<Frame>): seq<seq<byte>> {
    if fs == [] then [] else [fs[0].payload] + Payloads(fs[1..])
  }

  lemma {:induction false} RunFrames(fs: seq<Frame>)
    requires Sendable(fs)
    ensures Run(FRESH, EncodeAll(fs)) == Outcome(FRESH, Payloads(fs))
    decreases |fs|
  {
    if fs != [] {
      RunFrame(fs[0]);
      RunFrames(fs[1..]);
      RunConcat(FRESH, fs[0].Encode(), EncodeAll(fs[1..]));
    }
  }

  /** Decoding what was encoded gives back every payload, in order. */
  lemma RoundTrip(fs: seq<Frame>)
    requires Sendable(fs)
    ensures RecvAll(EncodeAll(fs)) == Payloads(fs)
  {
    RunFrames(fs);
    RecvAllIsRun(EncodeAll(fs));
  }

  /** Self-synchronisation: after any noise whatsoever, one frame is enough to bring the decoder back
      to a frame boundary, and everything sent after that frame arrives exactly. */
  lemma SelfSynchronising(noise: seq<byte>, f: Frame, fs: seq<Frame>)
    requires f.Valid() && |f.payload| < MAX_PACKET_SIZE && Sendable(fs)
    ensures RecvAll(noise + f.Encode() + EncodeAll(fs)) == RecvAll(noise + f.Encode()) + Payloads(fs)
  {
    var st := Run(FRESH, noise).line;
    RunBounded(FRESH, noise);
    RunConcat(FRESH, noise, f.Encode());
    RunEncoded(st, f);
    RunFrames(fs);
    RunConcat(FRESH, noise + f.Encode(), EncodeAll(fs));
    RecvAllIsRun(noise + f.Encode());
    RecvAllIsRun(noise + f.Encode() + EncodeAll(fs));
  }

  /** The noise ends in an escape byte with a partial frame in front of it. */
  predicate Dangling(noise: seq<byte>) {
    var st := Run(FRESH, noise).line;
    st.escape && 0 < |st.buf| < MAX_PACKET_SIZE
  }

  /** Behind a dangling escape the frame is glued to the partial one; what comes out, if anything,
      has another length. */
  lemma Glued(st: Line, f: Frame)
    requires f.Valid() && |f.payload| < MAX_PACKET_SIZE
    requires st.escape && 0 < |st.buf| < MAX_PACKET_SIZE
    ensures f.payload !in Run(st, f.Encode()).frames
  {
    var content := [f.Header()] + f.payload;
    RunEncoded(st, f);
    if |st.buf| + |content| <= MAX_PACKET_SIZE {
      AbsorbFits(st.buf, content);
    } else {
      AbsorbOverrun(st.buf, content);
    }
  }

  lemma Intact(st: Line, f: Frame)
    requires f.Valid() && |f.payload| < MAX_PACKET_SIZE && st.Valid()
    requires !(st.escape && 0 < |st.buf| < MAX_PACKET_SIZE)
    ensures f.payload in Run(st, f.Encode()).frames
  {
    var content := [f.Header()] + f.payload;
    RunEncoded(st, f);
    AbsorbFits([], content);
    assert [] + content == content && content[1..] == f.payload;
    assert Run(st, f.Encode()).frames == FlushedBy(st) + [f.payload];
  }

  /** The frame right after the noise survives exactly when the noise does not end in a dangling
      escape: otherwise its opening delimiter is swallowed and nothing equal to it comes out. */
  lemma FirstFrameSurvives(noise: seq<byte>, f: Frame)
    requires f.Valid() && |f.payload| < MAX_PACKET_SIZE
    ensures RecvAll(noise) <= RecvAll(noise + f.Encode())
    ensures f.payload in RecvAll(noise + f.Encode())[|RecvAll(noise)|..] <==> !Dangling(noise)
  {
    var st := Run(FRESH, noise).line;
    RunBounded(FRESH, noise);
    RunConcat(FRESH, noise, f.Encode());
    RecvAllIsRun(noise);
    RecvAllIsRun(noise + f.Encode());
    assert RecvAll(noise + f.Encode())[|RecvAll(noise)|..] == Run(st, f.Encode()).frames;
    if Dangling(noise) {
      Glued(st, f);
    } else {
      Intact(st, f);
    }
  }

  // ----- the bytes themselves

  predicate PlainText(p: seq<byte>) {
    forall i :: 0 <= i < |p| ==> p[i] != 0xc0 && p[i] != 0xdb
  }

  lemma {:induction false} PlainBody(p: seq<byte>)
    requires PlainText(p)
    ensures Body(p) == p
    decreases |p|
  {
    if p != [] {
      PlainBody(p[1..]);
      assert Escape(p[0]) == [p[0]];
    }
  }

  /** What is sent for a payload with one delimiter and one escape byte in it: only these two change. */
  lemma EncodedOnWire(cmd: nat, channel: nat, before: seq<byte>, middle: seq<byte>, after: seq<byte>)
    requires cmd < 16 && channel < 16 && 16 * channel + cmd !in {0xc0, 0xdb}
    requires PlainText(before) && PlainText(middle) && PlainText(after)
    ensures Frame(cmd, channel, before + [0xc0] + middle + [0xdb] + after).Encode()
            == [0xc0, 16 * channel + cmd] + before + [0xdb, 0xdc] + middle + [0xdb, 0xdd] + after + [0xc0]
  {
    var h: byte := 16 * channel + cmd;
    var payload := before + [0xc0] + middle + [0xdb] + after;
    hide Body, PlainText, Escape;
    SpecialBodies(h);
    BodyConcat([h], payload);
    PayloadBody(before, middle, after);
    Bracketed(h, before, middle, after);
  }

  lemma PayloadBody(before: seq<byte>, middle: seq<byte>, after: seq<byte>)
    requires PlainText(before) && PlainText(middle) && PlainText(after)
    ensures Body(before + [0xc0] + middle + [0xdb] + after)
            == before + ([0xdb, 0xdc] + (middle + ([0xdb, 0xdd] + after)))
  {
    hide *;
    var fromEscape := [0xdb] + after;
    var fromMiddle := middle + fromEscape;
    var fromFend := [0xc0] + fromMiddle;
    assert before + [0xc0] + middle + [0xdb] + after == before + fromFend;
    PlainBody(before);
    PlainBody(middle);
    PlainBody(after);
    SpecialBodies(0);
    BodyConcat(before, fromFend);
    BodyConcat([0xc0], fromMiddle);
    BodyConcat(middle, fromEscape);
    BodyConcat([0xdb], after);
  }

  lemma Bracketed(h: byte, before: seq<byte>, middle: seq<byte>, after: seq<byte>)
    ensures [0xc0] + ([h] + (before + ([0xdb, 0xdc] + (middle + ([0xdb, 0xdd] + after))))) + [0xc0]
            == [0xc0, h] + before + [0xdb, 0xdc] + middle + [0xdb, 0xdd] + after + [0xc0]
  {
  }

  lemma SpecialBodies(h: byte)
    requires h !in {0xc0, 0xdb}
    ensures Body([0xc0]) == [0xdb, 0xdc] && Body([0xdb]) == [0xdb, 0xdd] && Body([h]) == [h]
  {
    assert Escape(0xc0) == [0xdb, 0xdc] && Escape(0xdb) == [0xdb, 0xdd] && Escape(h) == [h];
    assert Body([]) == [];
  }

  /** One frame is received as it was sent exactly if its payload has at most 253 bytes. */
  lemma ReceivedExactly(f: Frame)
    requires f.Valid()
    ensures RecvAll(f.Encode()) == [f.payload] <==> |f.payload| <= 253
  {
    RecvAllIsRun(f.Encode());
    if |f.payload| <= 253 {
      RunFrame(f);
    } else {
      RunEncoded(FRESH, f);
      RunBody([], [f.Header()] + f.payload);
      var b := AbsorbAll([], [f.Header()] + f.payload);
      assert FlushedBy(FRESH) == [] && AfterFend(FRESH) == [];
      var received := RecvAll(f.Encode());
      assert received == [] + (if b != [] then [b[1..]] else []);
      assert received != [] ==> received[0] == b[1..] && |received[0]| < |f.payload|;
    }
  }
}

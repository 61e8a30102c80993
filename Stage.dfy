/** The `KDC` controller object: its serial connection, the commands it writes and
    the replies it polls for. The serial port is an abstract transport: the bytes
    waiting in its input buffer, the chunks the controller will still send (one
    arrives during the delay before each read), and the frames written so far. */
module Stage {
  import opened Results
  import opened PyText
  import opened Codec
  import opened Commands
  import opened Replies

  /** `self.ser`: no port object, a closed port, or an open one. */
  datatype Port = NoPort | Closed | Open

  /** How a command method ends: it returned early because the port is not open,
      an exception escaped, the command was written, the awaited message arrived
      after that many reads, or no awaited message can arrive any more (the source
      would poll for ever). */
  datatype Outcome = NotOpen | Raised(error: PyError) | Sent | Reached(polls: nat) | Stalled

  /** What a position query returns: None (port not open), '' (both attempts raised
      a ValueError) or an angle in degrees. */
  datatype Reading = NoReading | Blank | Degrees(value: real)

  // ---------------------------------------------------------------------------
  // The controller's side of the transport

  /** The chunk that arrives before the next read (nothing once the controller is silent). */
  function Next(script: seq<seq<Byte>>): seq<Byte> {
    if script == [] then [] else script[0]
  }

  /** The chunks still to come after the next read. */
  function Later(script: seq<seq<Byte>>): (r: seq<seq<Byte>>)
    ensures r == script[Min(1, |script|)..]
  {
    if script == [] then [] else script[1..]
  }

  /** Dropping the next chunk from the chunks left after k reads leaves those after k + 1. */
  lemma LaterDrop(script: seq<seq<Byte>>, k: nat)
    ensures Later(script[Min(k, |script|)..]) == script[Min(k + 1, |script|)..]
  {
  }

  /** The bytes read by poll i (counting from 0) of a polling loop that starts with
      `pending` in the buffer: the first read also drains what was already waiting. */
  function Chunk(pending: seq<Byte>, script: seq<seq<Byte>>, i: nat): seq<Byte> {
    if i == 0 then pending + Next(script) else Next(script[Min(i, |script|)..])
  }

  // ---------------------------------------------------------------------------
  // Polling until a message arrives

  /** The end of a polling loop: found after that many reads, leaving the rest of the
      script, or never found. */
  datatype Poll = Found(polls: nat, rest: seq<seq<Byte>>) | NeverFound

  /** The name of the first message read by poll i. */
  function Heard(pending: seq<Byte>, script: seq<seq<Byte>>, i: nat): string {
    FirstName(Chunk(pending, script, i))
  }

  /** Read i of a polling loop reads chunk i and leaves the chunks after it. */
  lemma ChunkNow(start: seq<Byte>, chunks: seq<seq<Byte>>, i: nat, pending: seq<Byte>, script: seq<seq<Byte>>)
    requires i == 0 ==> pending == start && script == chunks
    requires i > 0 ==> pending == [] && script == chunks[Min(i, |chunks|)..]
    ensures pending + Next(script) == Chunk(start, chunks, i)
    ensures Later(script) == chunks[Min(i + 1, |chunks|)..]
  {
    if i > 0 {
      assert pending + Next(script) == Next(script);
    }
    LaterDrop(chunks, i);
  }

  /** The messages of the first n polls. */
  function HeardUpTo(pending: seq<Byte>, script: seq<seq<Byte>>, n: nat): (ms: seq<string>)
    ensures |ms| == n
  {
    if n == 0 then [] else HeardUpTo(pending, script, n - 1) + [Heard(pending, script, n - 1)]
  }

  lemma {:induction false} HeardAt(pending: seq<Byte>, script: seq<seq<Byte>>, n: nat, k: nat)
    requires k < n
    ensures HeardUpTo(pending, script, n)[k] == Heard(pending, script, k)
  {
    if k < n - 1 {
      HeardAt(pending, script, n - 1, k);
    }
  }

  /** The message decoded by each poll until the script is used up, and one more. */
  function Messages(pending: seq<Byte>, script: seq<seq<Byte>>): (ms: seq<string>)
    ensures |ms| == |script| + 1
  {
    HeardUpTo(pending, script, |script| + 1)
  }

  /** The name `decodereply` gives the text of read i is message i of the loop. */
  lemma HeardRendered(pending: seq<Byte>, script: seq<seq<Byte>>, i: nat)
    requires i <= |script|
    ensures DecodeReply(HexReply(Chunk(pending, script, i))).msg == Messages(pending, script)[i]
  {
    NameRendered(Chunk(pending, script, i));
    HeardAt(pending, script, |script| + 1, i);
  }

  /** The first index from i on that holds the target. */
  function FirstFrom(target: string, ms: seq<string>, i: nat): (r: Option<nat>)
    decreases |ms| - i
  {
    if i >= |ms| then None
    else if ms[i] == target then Some(i)
    else FirstFrom(target, ms, i + 1)
  }

  lemma {:induction false} FirstFromMeaning(target: string, ms: seq<string>, i: nat)
    ensures FirstFrom(target, ms, i).Some? ==>
              var j := FirstFrom(target, ms, i).value;
              i <= j < |ms| && ms[j] == target && forall k :: i <= k < j ==> ms[k] != target
    ensures FirstFrom(target, ms, i).None? ==> forall k :: i <= k < |ms| ==> ms[k] != target
    decreases |ms| - i
  {
    if i < |ms| && ms[i] != target {
      FirstFromMeaning(target, ms, i + 1);
    }
  }

  /** `while not msg == target: reply = self.recvreply(); msg, _ = self.decodereply(reply)`.
      Once the script is used up every read is empty, so a target not seen by then is
      never seen. */
  function Await(target: string, pending: seq<Byte>, script: seq<seq<Byte>>): (w: Poll)
    ensures w.Found? ==>
              && 1 <= w.polls <= |script| + 1
              && Messages(pending, script)[w.polls - 1] == target
              && forall j :: 0 <= j < w.polls - 1 ==> Messages(pending, script)[j] != target
    ensures w.NeverFound? ==> forall j :: 0 <= j <= |script| ==> Messages(pending, script)[j] != target
  {
    FirstFromMeaning(target, Messages(pending, script), 0);
    match FirstFrom(target, Messages(pending, script), 0)
    case Some(j) => Found(j + 1, script[Min(j + 1, |script|)..])
    case None => NeverFound
  }

  /** Once the script is used up, the next read is empty and decodes to no message. */
  lemma QuietEnd(pending: seq<Byte>, script: seq<seq<Byte>>)
    requires script != []
    ensures Messages(pending, script)[|script|] == ""
  {
    HeardAt(pending, script, |script| + 1, |script|);
    assert Chunk(pending, script, |script|) == [];
  }

  /** The polling loop stops at the first read whose first message is the target, and
      only there, leaving the chunks not yet read; when it never stops, no read ever
      decodes to the target. */
  lemma AwaitMeaning(target: string, pending: seq<Byte>, script: seq<seq<Byte>>)
    requires target != ""
    ensures var w := Await(target, pending, script);
            w.Found? ==>
              && 1 <= w.polls
              && Heard(pending, script, w.polls - 1) == target
              && (forall j :: 0 <= j < w.polls - 1 ==> Heard(pending, script, j) != target)
              && w.rest == script[Min(w.polls, |script|)..]
    ensures Await(target, pending, script).NeverFound? ==>
              forall j: nat :: Heard(pending, script, j) != target
  {
    var ms := Messages(pending, script);
    FirstFromMeaning(target, ms, 0);
    if FirstFrom(target, ms, 0).Some? {
      var n := FirstFrom(target, ms, 0).value;
      HeardAt(pending, script, |script| + 1, n);
      forall j | 0 <= j < n
        ensures Heard(pending, script, j) != target
      {
        HeardAt(pending, script, |script| + 1, j);
      }
    } else {
      forall j: nat
        ensures Heard(pending, script, j) != target
      {
        if j < |ms| {
          HeardAt(pending, script, |script| + 1, j);
        } else {
          assert Chunk(pending, script, j) == [];
        }
      }
    }
  }

  /** What a polling method returns for the end of its loop. */
  function Settle(w: Poll): Outcome {
    match w
    case Found(n, _) => Reached(n)
    case NeverFound => Stalled
  }

  /** The script left after the loop (nothing when the target never came). */
  function Remaining(w: Poll): seq<seq<Byte>> {
    match w
    case Found(_, rest) => rest
    case NeverFound => []
  }

  // ---------------------------------------------------------------------------
  // Position queries

  /** The body of the `try` in `get_pos_angle`: decode the reply, skip the two-byte
      channel field of the parameters (`params[6:]`) and convert the rest. */
  function Attempt(reply: string): (r: Result<real, PyError>)
    ensures var p := DecodeReply(reply).params;
            r.Ok? <==> FromHex(Slice(p, 6, |p|)).Ok?
    ensures r.Err? ==> r.error == ValueError
    ensures var p := DecodeReply(reply).params;
            r.Ok? ==> r.value * EncCntPerDegree == FromBytes(FromHex(Slice(p, 6, |p|)).value, true) as real
  {
    var params := DecodeReply(reply).params;
    ConvertEncCnt(Slice(params, 6, |params|))
  }

  /** The result of a query, how many requests it wrote, and the script left. */
  datatype Answer = Answer(reading: Reading, requests: nat, rest: seq<seq<Byte>>)

  /** `for n in range(2)`: request and read; stop at the first attempt that raises no
      ValueError; after two failures the result is ''. */
  function Query(pending: seq<Byte>, script: seq<seq<Byte>>): (a: Answer)
    ensures 1 <= a.requests <= 2
    ensures a.reading == Blank <==> a.requests == 2 && Attempt(HexReply(Next(Later(script)))).Err?
  {
    var first := Attempt(HexReply(pending + Next(script)));
    if first.Ok? then Answer(Degrees(first.value), 1, Later(script))
    else
      var second := Attempt(HexReply(Next(Later(script))));
      if second.Ok? then Answer(Degrees(second.value), 2, Later(Later(script)))
      else Answer(Blank, 2, Later(Later(script)))
  }

  /** A first round that raises no ValueError ends the query with its reading. */
  lemma QueryFirst(pending: seq<Byte>, script: seq<seq<Byte>>, x: real)
    requires Attempt(HexReply(pending + Next(script))) == Ok(x)
    ensures Query(pending, script) == Answer(Degrees(x), 1, Later(script))
  {
  }

  /** A second round that raises no ValueError ends the query with its reading. This
      covers the retry branch of `get_pos_angle` for arbitrary reply text; on text that
      `recvreply` produces the first attempt never fails (`AttemptRendered`), so there
      the branch is dead. */
  lemma QuerySecond(pending: seq<Byte>, script: seq<seq<Byte>>, x: real)
    requires Attempt(HexReply(pending + Next(script))).Err?
    requires Attempt(HexReply(Next(Later(script)))) == Ok(x)
    ensures Query(pending, script) == Answer(Degrees(x), 2, Later(Later(script)))
  {
  }

  /** Two rounds that both raise a ValueError end the query with ''. Like
      `QuerySecond`, this covers a branch that text from `recvreply` never reaches. */
  lemma QueryGivesUp(pending: seq<Byte>, script: seq<seq<Byte>>)
    requires Attempt(HexReply(pending + Next(script))).Err? && Attempt(HexReply(Next(Later(script)))).Err?
    ensures Query(pending, script) == Answer(Blank, 2, Later(Later(script)))
  {
  }

  /** On any text `recvreply` produces the attempt succeeds: the parameters render
      whole bytes, and so does their tail from character 6. The angle is the signed
      little-endian number after the channel field of the first message's payload. */
  lemma AttemptRendered(bs: seq<Byte>)
    ensures Attempt(HexReply(bs)).Ok?
    ensures var p := ParamBytes(bs);
            Attempt(HexReply(bs)).value * EncCntPerDegree == FromBytes(p[Min(2, |p|)..], true) as real
  {
    var p := ParamBytes(bs);
    var params := DecodeReply(HexReply(bs)).params;
    DecodeRendered(bs);
    ParamsRendered(bs);
    RenderedDrop(params, p, 2);
    RenderedFromHex(Slice(params, 6, |params|), p[Min(2, |p|)..]);
  }

  /** The retry of `get_pos_angle` never happens on `recvreply` text: exactly one
      request is written, whatever the controller sends. */
  lemma QueryAsksOnce(pending: seq<Byte>, script: seq<seq<Byte>>)
    ensures Query(pending, script).requests == 1
    ensures Query(pending, script).reading.Degrees?
    ensures var p := ParamBytes(pending + Next(script));
            Query(pending, script).reading.value * EncCntPerDegree == FromBytes(p[Min(2, |p|)..], true) as real
  {
    AttemptRendered(pending + Next(script));
  }

  lemma PositionCounter(bs: seq<Byte>)
    requires FirstKind(bs) == Some(PosCounter) && |bs| >= 12
    ensures var p := ParamBytes(bs); p[Min(2, |p|)..] == bs[8..12]
  {
    assert ParamBytes(bs) == bs[6..12];
  }

  /** A complete position message reads back as its bytes 8 to 11, the position
      counter after the channel field. */
  lemma PositionReading(bs: seq<Byte>)
    requires FirstKind(bs) == Some(PosCounter) && |bs| >= 12
    ensures Attempt(HexReply(bs)).Ok?
    ensures Attempt(HexReply(bs)).value * EncCntPerDegree == FromBytes(bs[8..12], true) as real
  {
    AttemptRendered(bs);
    PositionCounter(bs);
  }

  /** The reply kind is not checked: a reply whose first ID is unknown (or an empty
      read) gives no parameters, which read as the angle 0. */
  lemma UnknownReplyReadsZero(bs: seq<Byte>)
    requires FirstKind(bs).None?
    ensures Attempt(HexReply(bs)) == Ok(0.0)
  {
    AttemptRendered(bs);
    var p := ParamBytes(bs);
    assert p[Min(2, |p|)..] == [];
    var v := Attempt(HexReply(bs)).value;
    assert v * EncCntPerDegree == 0.0;
  }

  // ---------------------------------------------------------------------------
  // Serial number

  /** `hexstr_to_int(hwinfo[0:11])`: the first four parameter bytes, unsigned. */
  function SerialOf(reply: string): (r: Result<int, PyError>)
    ensures r.Ok? <==> FromHex(Slice(DecodeReply(reply).params, 0, 11)).Ok?
    ensures r.Err? ==> r.error == ValueError
    ensures r.Ok? ==> 0 <= r.value
  {
    HexStrToInt(Slice(DecodeReply(reply).params, 0, 11), false)
  }

  /** On `recvreply` text the serial number is the unsigned little-endian value of the
      first (up to) four payload bytes of the first message, whatever its kind. */
  lemma SerialRendered(bs: seq<Byte>)
    ensures var p := ParamBytes(bs);
            SerialOf(HexReply(bs)) == Ok(Unsigned(p[..Min(4, |p|)]))
  {
    var p := ParamBytes(bs);
    var params := DecodeReply(HexReply(bs)).params;
    DecodeRendered(bs);
    ParamsRendered(bs);
    RenderedTake(params, p, 4);
    RenderedFromHex(Slice(params, 0, 11), p[..Min(4, |p|)]);
  }

  // ---------------------------------------------------------------------------
  // The controller object

  class KDC {
    var port: Port
    var pending: seq<Byte>
    var script: seq<seq<Byte>>
    var written: seq<seq<Byte>>

    /** `port_is_open`: a port object exists and is open. */
    predicate PortIsOpen()
      reads this
      ensures port == NoPort ==> !PortIsOpen()
      ensures port == Closed ==> !PortIsOpen()
      ensures port == Open ==> PortIsOpen()
    {
      port == Open
    }

    /** `__init__` once `openstage` has set `self.ser`: a port object, if there is one,
        is asked to flash its display (`identify`), which writes only if it is open. */
    constructor (port: Port, pending: seq<Byte>, script: seq<seq<Byte>>)
      ensures this.port == port && this.pending == pending && this.script == script
      ensures written == if port == Open then [Header(Command.Identify)] else []
    {
      this.port := port;
      this.pending := pending;
      this.script := script;
      written := [];
      new;
      if port != NoPort {
        var _ := Identify();
      }
    }

    /** `sendcmd(string)`: writes one byte per hex token of the text. */
    method SendCmd(s: string) returns (o: Outcome)
      modifies this`written
      ensures !old(PortIsOpen()) ==> o == NotOpen && written == old(written)
      ensures old(PortIsOpen()) && Frame(s).Err? ==> o == Raised(ValueError) && written == old(written)
      ensures old(PortIsOpen()) && Frame(s).Ok? ==> o == Sent && written == old(written) + [Frame(s).value]
    {
      if !PortIsOpen() {
        return NotOpen;
      }
      var frame := Frame(s);
      if frame.Err? {
        return Raised(frame.error);
      }
      written := written + [frame.value];
      return Sent;
    }

    /** `sendcmd(cmds[key])` on an open port: the entry's bytes are written. */
    method SendCommand(c: Command) returns (o: Outcome)
      requires PortIsOpen()
      modifies this`written
      ensures o == Sent && written == old(written) + [Header(c)]
    {
      CommandFrame(c);
      o := SendCmd(Cmds(c));
    }

    /** `recvreply`: after the delay the next chunk has arrived; every waiting byte is
        read and rendered, until the buffer is empty. */
    method RecvReply() returns (reply: Option<string>)
      modifies this`pending, this`script
      ensures !old(PortIsOpen()) ==> reply == None && pending == old(pending) && script == old(script)
      ensures old(PortIsOpen()) ==>
                && reply == Some(HexReply(old(pending) + Next(old(script))))
                && pending == [] && script == Later(old(script))
    {
      if !PortIsOpen() {
        return None;
      }
      pending := pending + Next(script);
      script := Later(script);
      ghost var arrived := pending;
      var text := "";
      while |pending| > 0
        invariant text + HexReply(pending) == HexReply(arrived)
        invariant script == Later(old(script))
        decreases |pending|
      {
        assert HexReply(pending) == LowerHex2(pending[0]) + " " + HexReply(pending[1..]);
        text := text + LowerHex2(pending[0]) + " ";
        pending := pending[1..];
      }
      assert pending == [] && text == HexReply(arrived);
      return Some(text);
    }

    /** The polling loop of the `*_wait` methods and `stop_move`. */
    method AwaitMessage(target: string) returns (o: Outcome)
      requires PortIsOpen() && target != ""
      modifies this`pending, this`script
      ensures o == Settle(Await(target, old(pending), old(script)))
      ensures pending == [] && script == Remaining(Await(target, old(pending), old(script)))
    {
      ghost var ms := Messages(pending, script);
      ghost var start := FirstFrom(target, ms, 0);
      var msg := "";
      var polls := 0;
      while msg != target && !(polls > 0 && script == [])
        invariant PortIsOpen() && polls <= |ms|
        invariant polls == 0 ==> msg == "" && pending == old(pending) && script == old(script)
        invariant polls > 0 ==> pending == [] && script == old(script)[Min(polls, |old(script)|)..]
        invariant polls > 0 ==> msg == ms[polls - 1]
        invariant polls > 0 && msg == target ==> start == Some(polls - 1)
        invariant polls > 0 && msg != target ==> start == FirstFrom(target, ms, polls)
        decreases |script| + (if polls == 0 then 1 else 0)
      {
        msg := ReadMessage(old(pending), old(script), polls);
        polls := polls + 1;
      }
      if msg == target {
        return Reached(polls);
      }
      if polls < |ms| {
        QuietEnd(old(pending), old(script));
      }
      return Stalled;
    }

    /** `reply = self.recvreply(); msg, _ = self.decodereply(reply)` as read i of a
        polling loop that started with `start` in the buffer and `chunks` to come. */
    method ReadMessage(ghost start: seq<Byte>, ghost chunks: seq<seq<Byte>>, ghost i: nat) returns (msg: string)
      requires PortIsOpen() && i <= |chunks|
      requires i == 0 ==> pending == start && script == chunks
      requires i > 0 ==> pending == [] && script == chunks[Min(i, |chunks|)..]
      modifies this`pending, this`script
      ensures msg == Messages(start, chunks)[i]
      ensures pending == [] && script == chunks[Min(i + 1, |chunks|)..]
    {
      ChunkNow(start, chunks, i, pending, script);
      var reply := RecvReply();
      msg := DecodeReply(reply.value).msg;
      HeardRendered(start, chunks, i);
    }

    /** Writes a command that the table's text turns into a frame, then polls. */
    method SendAndAwait(s: string, target: string) returns (o: Outcome)
      requires PortIsOpen() && target != "" && Frame(s).Ok?
      modifies this`written, this`pending, this`script
      ensures written == old(written) + [Frame(s).value]
      ensures o == Settle(Await(target, old(pending), old(script)))
      ensures pending == [] && script == Remaining(Await(target, old(pending), old(script)))
    {
      var _ := SendCmd(s);
      o := AwaitMessage(target);
    }

    /** `identify`: makes the controller flash its display. */
    method Identify() returns (o: Outcome)
      modifies this`written
      ensures !old(PortIsOpen()) ==> o == NotOpen && written == old(written)
      ensures old(PortIsOpen()) ==> o == Sent && written == old(written) + [Header(Command.Identify)]
    {
      if !PortIsOpen() {
        return NotOpen;
      }
      o := SendCommand(Command.Identify);
    }

    /** `move_abs(angle)`: writes the absolute move to the encoder count of the angle. */
    method MoveAbs(degrees: real) returns (o: Outcome)
      modifies this`written
      ensures !old(PortIsOpen()) ==> o == NotOpen && written == old(written)
      ensures old(PortIsOpen()) && !Fits4(AngleCounts(degrees), true) ==> o == Raised(OverflowError) && written == old(written)
      ensures old(PortIsOpen()) && Fits4(AngleCounts(degrees), true) ==>
                o == Sent && written == old(written) + [Header(MoveAbsAngle) + ToBytes4(AngleCounts(degrees), true).value]
    {
      o := MoveByAngle(MoveAbsAngle, degrees);
    }

    /** `move_rel(angle)`: writes the relative move by the encoder count of the angle. */
    method MoveRel(degrees: real) returns (o: Outcome)
      modifies this`written
      ensures !old(PortIsOpen()) ==> o == NotOpen && written == old(written)
      ensures old(PortIsOpen()) && !Fits4(AngleCounts(degrees), true) ==> o == Raised(OverflowError) && written == old(written)
      ensures old(PortIsOpen()) && Fits4(AngleCounts(degrees), true) ==>
                o == Sent && written == old(written) + [Header(MoveRelAngle) + ToBytes4(AngleCounts(degrees), true).value]
    {
      o := MoveByAngle(MoveRelAngle, degrees);
    }

    /** The common body of `move_abs` and `move_rel`: `sendcmd(cmds[key] + convert_angle(angle))`. */
    method MoveByAngle(c: Command, degrees: real) returns (o: Outcome)
      requires TakesAngle(c)
      modifies this`written
      ensures !old(PortIsOpen()) ==> o == NotOpen && written == old(written)
      ensures old(PortIsOpen()) && !Fits4(AngleCounts(degrees), true) ==> o == Raised(OverflowError) && written == old(written)
      ensures old(PortIsOpen()) && Fits4(AngleCounts(degrees), true) ==>
                o == Sent && written == old(written) + [Header(c) + ToBytes4(AngleCounts(degrees), true).value]
    {
      if !PortIsOpen() {
        return NotOpen;
      }
      var hex := ConvertAngle(AngleCounts(degrees));
      if hex.Err? {
        return Raised(hex.error);
      }
      AngleFrame(c, AngleCounts(degrees));
      o := SendCmd(Cmds(c) + hex.value);
    }

    /** `move_home`: writes the homing command. */
    method MoveHome() returns (o: Outcome)
      modifies this`written
      ensures !old(PortIsOpen()) ==> o == NotOpen && written == old(written)
      ensures old(PortIsOpen()) ==> o == Sent && written == old(written) + [Header(Command.MoveHome)]
    {
      if !PortIsOpen() {
        return NotOpen;
      }
      o := SendCommand(Command.MoveHome);
    }

    /** `move_abs_wait(angle)`: the absolute move, then polling until "moved". */
    method MoveAbsWait(degrees: real) returns (o: Outcome)
      modifies this`written, this`pending, this`script
      ensures !old(PortIsOpen()) ==> o == NotOpen && unchanged(this)
      ensures old(PortIsOpen()) && !Fits4(AngleCounts(degrees), true) ==> o == Raised(OverflowError) && unchanged(this)
      ensures old(PortIsOpen()) && Fits4(AngleCounts(degrees), true) ==>
                && written == old(written) + [Header(MoveAbsAngle) + ToBytes4(AngleCounts(degrees), true).value]
                && o == Settle(Await("moved", old(pending), old(script)))
                && pending == [] && script == Remaining(Await("moved", old(pending), old(script)))
    {
      o := MoveByAngleWait(MoveAbsAngle, degrees);
    }

    /** `move_rel_wait(angle)`: the relative move, then polling until "moved". */
    method MoveRelWait(degrees: real) returns (o: Outcome)
      modifies this`written, this`pending, this`script
      ensures !old(PortIsOpen()) ==> o == NotOpen && unchanged(this)
      ensures old(PortIsOpen()) && !Fits4(AngleCounts(degrees), true) ==> o == Raised(OverflowError) && unchanged(this)
      ensures old(PortIsOpen()) && Fits4(AngleCounts(degrees), true) ==>
                && written == old(written) + [Header(MoveRelAngle) + ToBytes4(AngleCounts(degrees), true).value]
                && o == Settle(Await("moved", old(pending), old(script)))
                && pending == [] && script == Remaining(Await("moved", old(pending), old(script)))
    {
      o := MoveByAngleWait(MoveRelAngle, degrees);
    }

    /** The common body of `move_abs_wait` and `move_rel_wait`. */
    method MoveByAngleWait(c: Command, degrees: real) returns (o: Outcome)
      requires TakesAngle(c)
      modifies this`written, this`pending, this`script
      ensures !old(PortIsOpen()) ==> o == NotOpen && unchanged(this)
      ensures old(PortIsOpen()) && !Fits4(AngleCounts(degrees), true) ==> o == Raised(OverflowError) && unchanged(this)
      ensures old(PortIsOpen()) && Fits4(AngleCounts(degrees), true) ==>
                && written == old(written) + [Header(c) + ToBytes4(AngleCounts(degrees), true).value]
                && o == Settle(Await("moved", old(pending), old(script)))
                && pending == [] && script == Remaining(Await("moved", old(pending), old(script)))
    {
      if !PortIsOpen() {
        return NotOpen;
      }
      var hex := ConvertAngle(AngleCounts(degrees));
      if hex.Err? {
        return Raised(hex.error);
      }
      AngleFrame(c, AngleCounts(degrees));
      o := SendAndAwait(Cmds(c) + hex.value, "moved");
    }

    /** `move_home_wait`: the homing command, then polling until "homed". */
    method MoveHomeWait() returns (o: Outcome)
      modifies this`written, this`pending, this`script
      ensures !old(PortIsOpen()) ==> o == NotOpen && unchanged(this)
      ensures old(PortIsOpen()) ==>
                && written == old(written) + [Header(Command.MoveHome)]
                && o == Settle(Await("homed", old(pending), old(script)))
                && pending == [] && script == Remaining(Await("homed", old(pending), old(script)))
    {
      if !PortIsOpen() {
        return NotOpen;
      }
      CommandFrame(Command.MoveHome);
      o := SendAndAwait(Cmds(Command.MoveHome), "homed");
    }

    /** `stop_move`: the stop command, then polling until "stopped". */
    method StopMove() returns (o: Outcome)
      modifies this`written, this`pending, this`script
      ensures !old(PortIsOpen()) ==> o == NotOpen && unchanged(this)
      ensures old(PortIsOpen()) ==>
                && written == old(written) + [Header(MoveStop)]
                && o == Settle(Await("stopped", old(pending), old(script)))
                && pending == [] && script == Remaining(Await("stopped", old(pending), old(script)))
    {
      if !PortIsOpen() {
        return NotOpen;
      }
      CommandFrame(MoveStop);
      o := SendAndAwait(Cmds(MoveStop), "stopped");
    }

    /** One round of the loop of `get_pos_angle`: request, read, and the conversion
        inside the `try`. */
    method QueryRound(request: string) returns (angle: Result<real, PyError>)
      requires PortIsOpen() && Frame(request).Ok?
      modifies this`written, this`pending, this`script
      ensures angle == Attempt(HexReply(old(pending) + Next(old(script))))
      ensures written == old(written) + [Frame(request).value] && pending == [] && script == Later(old(script))
    {
      var _ := SendCmd(request);
      var reply := RecvReply();
      angle := Attempt(reply.value);
    }

    /** The loop of `get_pos_angle` and `get_enc_angle`: at most two rounds, leaving
        the loop at the first that raises no ValueError. `request` is the table text
        of the request. */
    method QueryCounter(request: string) returns (r: Reading)
      requires PortIsOpen() && Frame(request).Ok?
      modifies this`written, this`pending, this`script
      ensures var a := Query(old(pending), old(script));
              && r == a.reading
              && written == old(written) + (if a.requests == 1 then [Frame(request).value] else [Frame(request).value, Frame(request).value])
              && pending == [] && script == a.rest
    {
      ghost var frame := Frame(request).value;
      ghost var first := old(pending) + Next(old(script));
      ghost var second := Next(Later(old(script)));
      r := Blank;
      for n := 0 to 2
        invariant r == Blank
        invariant n == 0 ==> written == old(written) && pending == old(pending) && script == old(script)
        invariant n > 0 ==> pending == [] && Attempt(HexReply(first)).Err?
        invariant n == 1 ==> written == old(written) + [frame] && script == Later(old(script))
        invariant n == 2 ==> written == old(written) + [frame, frame] && Attempt(HexReply(second)).Err?
        invariant n == 2 ==> script == Later(Later(old(script)))
      {
        assert n == 1 ==> pending + Next(script) == second;
        var angle := QueryRound(request);
        if angle.Ok? {
          if n == 0 {
            QueryFirst(old(pending), old(script), angle.value);
          } else {
            QuerySecond(old(pending), old(script), angle.value);
          }
          r := Degrees(angle.value);
          return;
        }
      }
      QueryGivesUp(old(pending), old(script));
    }

    /** `get_pos_angle`: the position counter, as an angle. */
    method GetPosAngle() returns (r: Reading)
      modifies this`written, this`pending, this`script
      ensures !old(PortIsOpen()) ==> r == NoReading && unchanged(this)
      ensures old(PortIsOpen()) ==>
                var a := Query(old(pending), old(script));
                && r == a.reading
                && written == old(written) + (if a.requests == 1 then [Header(ReqPosCounter)] else [Header(ReqPosCounter), Header(ReqPosCounter)])
                && pending == [] && script == a.rest
    {
      if !PortIsOpen() {
        return NoReading;
      }
      CommandFrame(ReqPosCounter);
      r := QueryCounter(Cmds(ReqPosCounter));
    }

    /** `get_enc_angle`: the encoder counter, as an angle. */
    method GetEncAngle() returns (r: Reading)
      modifies this`written, this`pending, this`script
      ensures !old(PortIsOpen()) ==> r == NoReading && unchanged(this)
      ensures old(PortIsOpen()) ==>
                var a := Query(old(pending), old(script));
                && r == a.reading
                && written == old(written) + (if a.requests == 1 then [Header(ReqEncCounter)] else [Header(ReqEncCounter), Header(ReqEncCounter)])
                && pending == [] && script == a.rest
    {
      if !PortIsOpen() {
        return NoReading;
      }
      CommandFrame(ReqEncCounter);
      r := QueryCounter(Cmds(ReqEncCounter));
    }

    /** `get_serial`: requests the hardware information and reads its first four
        parameter bytes as an unsigned number. */
    method GetSerial() returns (sn: Option<int>)
      modifies this`written, this`pending, this`script
      ensures !old(PortIsOpen()) ==> sn == None && unchanged(this)
      ensures old(PortIsOpen()) ==>
                var p := ParamBytes(old(pending) + Next(old(script)));
                && sn == Some(Unsigned(p[..Min(4, |p|)]))
                && written == old(written) + [Header(ReqInfo)]
                && pending == [] && script == Later(old(script))
    {
      if !PortIsOpen() {
        return None;
      }
      var _ := SendCommand(ReqInfo);
      var value := ReadSerial();
      return Some(value);
    }

    /** The reading half of `get_serial`: `hexstr_to_int(hwinfo[0:11])` of the reply. */
    method ReadSerial() returns (sn: int)
      requires PortIsOpen()
      modifies this`pending, this`script
      ensures var p := ParamBytes(old(pending) + Next(old(script)));
              sn == Unsigned(p[..Min(4, |p|)])
      ensures pending == [] && script == Later(old(script))
    {
      ghost var bs := pending + Next(script);
      var reply := RecvReply();
      var value := SerialOf(reply.value);
      SerialRendered(bs);
      return value.value;
    }
  }
}

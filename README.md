# pyKDC101 in Dafny

A model of the `KDC` class of pyKDC101, a Python driver for the Thorlabs KDC101
K-Cube DC servo controller. The driver speaks the Thorlabs APT serial protocol to a
PRM1-Z8 rotation stage. The model covers:

- the command table `cmds` and the way `sendcmd` turns a command's text into bytes,
  one byte per whitespace-separated hex token;
- the integer codecs between numbers and little-endian hex text: `convert_angle`,
  `int_to_hexstr`, `hexstr_to_int`, `convert_enccnt`, `hexstr_to_ascii`;
- the reply text `recvreply` builds (each byte as two lower-case hex digits and a
  space) and `decodereply`, which reads the first message of that text through a
  table of 13 message IDs;
- the controller object: `port_is_open`, the plain moves, the `*_wait` moves and
  `stop_move` that poll until a given message arrives, the two-try position queries
  `get_pos_angle` and `get_enc_angle`, and `get_serial`.

Files:

- `Results.dfy`: `Option`, `Result` and the Python exceptions that can escape.
- `PyText.dfy`: the Python built-ins the driver relies on. These are `str.split`,
  `bytes.fromhex`, `int(x, 16)`, slicing with clamped bounds, `strip('\x00')` and
  hex digits.
- `Codec.dfy`: `int.to_bytes` and `int.from_bytes`, plus the codec functions and
  their loops.
- `Commands.dfy`: the command table and `sendcmd`'s parse.
- `Replies.dfy`: the reply text and `decodereply`.
- `Stage.dfy`: the class `KDC`.

The serial port is replaced by an abstract transport with three parts:

- `pending`: the bytes waiting in the input buffer;
- `script`: the chunks the controller will still send, one arriving during the delay
  before each read;
- `written`: the frames written so far.

The central fact is about the reply text built from bytes `bs`: `decodereply` returns
the name of the message whose ID is in `bs[0..2]`, and the rendering of `bs[6..6+L]`
as parameters. Everything the driver reads from the controller passes through this
fact.

The model follows the code as written, including these behaviours:

- `decodereply` reads only the first message of a read. It does not split
  concatenated replies.
- Angles become encoder counts by truncation (`int(...)`), not by rounding.
- `get_pos_angle` does not check the kind of the reply. An unknown reply reads as the
  angle 0.

## Model

| member | source | states |
|---|---|---|
| `Codec.FromBytes` | src/pyKDC101/core.py:110-112 | `int.from_bytes` little-endian: unsigned values lie in [0, 256^n); signed values lie in [-2^(8n-1), 2^(8n-1)); the value is negative exactly when signed and the last byte's top bit is set |
| `Codec.ToBytes4` | src/pyKDC101/core.py:84 | `to_bytes(4, ...)` succeeds exactly when the value fits 32 bits (signed or unsigned), giving 4 bytes; otherwise it raises OverflowError |
| `Codec.ToBytes4RoundTrip` | src/pyKDC101/core.py:84 | `from_bytes(to_bytes(v))` is `v` for every value that fits |
| `Codec.FromBytes4RoundTrip` | src/pyKDC101/core.py:110-112 | any four bytes are what `to_bytes` makes of their value, so the codec is a bijection on 32-bit values |
| `Codec.HexGroupsAt` | src/pyKDC101/core.py:87-88 | group i of the encoded text is a space followed by the two upper-case hex digits of byte i |
| `Codec.IntToHex` | src/pyKDC101/core.py:117-127 | `int_to_hexstr` succeeds exactly when the value fits 32 bits and `bytenum` is at most 4 (more raises IndexError); the text is 3 characters per byte |
| `Codec.IntToHexStr` | src/pyKDC101/core.py:117-127 | the loop appends one group per byte and ends with the result of `IntToHex`, including its errors |
| `Codec.ConvertAngle` | src/pyKDC101/core.py:79-90 | the four-iteration loop of `convert_angle` produces the 4-byte signed encoding of the count, or the OverflowError of `to_bytes` |
| `Codec.HexStrToInt` | src/pyKDC101/core.py:107-114 | `hexstr_to_int` succeeds exactly when `bytes.fromhex` accepts the text, and otherwise raises ValueError |
| `Codec.AngleTextRoundTrip` | src/pyKDC101/core.py:98-100 | the 4-group signed encoding of any 32-bit value reads back through `hexstr_to_int(..., signed=True)` as that value |
| `Codec.IntToHexLowBytes` | src/pyKDC101/core.py:117-127 | with fewer groups the text keeps the low-order bytes: unsigned it reads back as `v mod 256^bytenum`, signed as `v` when `v` fits that width |
| `Codec.Truncate` | src/pyKDC101/core.py:82 | `int(x)` truncates toward zero: the result lies within one of `x`, on the side of zero |
| `Codec.AngleCounts` | src/pyKDC101/core.py:82 | the count `convert_angle` encodes is the angle times the counts per degree, truncated toward zero: within one count of it, on the side of zero |
| `Codec.ConvertEncCnt` | src/pyKDC101/core.py:93-104 | `convert_enccnt` before rounding: it succeeds exactly when `bytes.fromhex` accepts the text, and the result times the counts per degree is the signed little-endian count |
| `Codec.AngleRoundTrip` | src/pyKDC101/core.py:79-104 | an angle encoded by `convert_angle` and decoded by `convert_enccnt` comes back within one encoder count |
| `Codec.NinetyDegrees` | src/pyKDC101/core.py:79-90 | 90 degrees is the count 172767, written as " DF A2 02 00" |
| `Codec.PartChar` | src/pyKDC101/core.py:140 | `chr(int(part, 16))` on a part of at most two characters gives a code point below 256 or raises ValueError |
| `Codec.HexStrToAscii` | src/pyKDC101/core.py:130-145 | the loop of `hexstr_to_ascii` (whitespace removed, two digits per character, NULs stripped) returns exactly `HexToAscii`, including the ValueError |
| `Codec.HexToAscii` | src/pyKDC101/core.py:130-145 | `hexstr_to_ascii` fails only with ValueError; its result has no NUL at either end and is no longer than the text with whitespace removed |
| `Codec.AsciiOfGroups` | src/pyKDC101/core.py:130-145 | hex groups of bytes read back as the characters with those codes, NULs stripped from both ends |
| `Commands.Header` | src/pyKDC101/core.py:51-75 | each plain entry is 6 bytes with bytes 4 and 5 = 50 01; each "+4 byte" entry is 8 bytes with 06 00 in bytes 2 and 3, D0 in byte 4 and the channel word 01 00 last |
| `Commands.CmdsGroups` | src/pyKDC101/core.py:51-75 | the literal text of every entry of the table, with a space in front, is exactly the upper-case groups of that entry's bytes (`Header`), so it is 3n - 1 characters long |
| `Commands.TokenBytes` | src/pyKDC101/core.py:224-225 | the token conversion fails only with ValueError, and otherwise gives one byte per token |
| `Commands.TokenBytesMeaning` | src/pyKDC101/core.py:224-227 | the conversion succeeds exactly when every token is a hex number in 0..255, and then byte i is the value of token i |
| `Commands.Frame` | src/pyKDC101/core.py:224-227 | the text can be written exactly when every whitespace-separated token is a hex number in 0..255; the bytes are then one per token, byte i the value of token i; otherwise the error is ValueError |
| `Commands.FrameOfGroups` | src/pyKDC101/core.py:221-227 | text built from hex groups is written as exactly the bytes it was built from |
| `Commands.CommandFrame` | src/pyKDC101/core.py:221-227 | `sendcmd(cmds[key])` writes the entry's bytes |
| `Commands.AngleCommand` | src/pyKDC101/core.py:397 | `cmds[key] + convert_angle(angle)` fails exactly when the count does not fit 32 bits, and then with OverflowError |
| `Commands.AngleFrame` | src/pyKDC101/core.py:443-454 | a "+4 byte" entry completed with a count is written as 12 bytes: the 8 template bytes, then the count in 4 bytes that read back as the count; byte 2 equals the number of bytes after the 6-byte header |
| `Replies.HexReply` | src/pyKDC101/core.py:235-238 | the reply text is 3 characters per byte |
| `Replies.HexReplyAppend` | src/pyKDC101/core.py:235-238 | the text of a concatenation is the concatenation of the texts |
| `Replies.RenderedFromHex` | src/pyKDC101/core.py:235-238 | `bytes.fromhex` reads reply text, with or without its final space, back as the bytes read |
| `Replies.MessageIdText` | src/pyKDC101/core.py:257-297 | each key of the table is the rendering of its 16-bit message number |
| `Replies.LookupId` | src/pyKDC101/core.py:257-297 | each of the 13 keys looks up its own entry, so the keys are distinct |
| `Replies.Lookup` | src/pyKDC101/core.py:257-302 | a text is found exactly when it is one of the thirteen keys, and then under that key; any other text finds nothing |
| `Replies.NamesDistinct` | src/pyKDC101/core.py:257-297 | no two entries share a name |
| `Replies.PayloadLength` | src/pyKDC101/core.py:257-297 | `'44 04'` (homed) is the only entry whose payload length is 0 |
| `Replies.LookupRendered` | src/pyKDC101/core.py:255-302 | looking up the text of two bytes finds the entry whose number they hold |
| `Replies.DecodeReply` | src/pyKDC101/core.py:244-309 | an unknown ID gives ('', ''); a known one gives its name and `reply[18:18+3L-1]`; a length of 0 gives '' as parameters; no name means no parameters |
| `Replies.IdRendered` | src/pyKDC101/core.py:255 | the first five characters of reply text look up the kind of the first two bytes |
| `Replies.ParamsComplete` | src/pyKDC101/core.py:305-306 | on a complete message the parameters are the rendering of the payload without the final space |
| `Replies.ParamsTruncated` | src/pyKDC101/core.py:305-306 | on a message cut short the slice is silently truncated: the parameters are the rendering of the bytes present after the header |
| `Replies.DecodeRendered` | src/pyKDC101/core.py:244-309 | decoding the text of bytes `bs` is reading their first message: the ID of `bs[0..2]` and the rendering of `bs[6..6+L]` |
| `Replies.ParamsRendered` | src/pyKDC101/core.py:305-308 | the parameters render the payload bytes; a complete message with a payload gives 3L - 1 characters |
| `Replies.FirstMessageOnly` | src/pyKDC101/core.py:244-309 | whatever follows a complete first message in the same read leaves the decoded name and parameters unchanged |
| `Replies.EmptyReply` | src/pyKDC101/core.py:250-253 | an empty read decodes to ('', '') |
| `Stage.Await` | src/pyKDC101/core.py:400-407 | the loop ends at the first read whose first message has the target name, at most one read after the controller's last chunk; when it never ends, none of those reads decodes to the target |
| `Stage.AwaitMeaning` | src/pyKDC101/core.py:400-407 | the polling loop stops at the first read whose first message has the target name, and only there; when it never stops, no read decodes to the target |
| `Stage.QuietEnd` | src/pyKDC101/core.py:236 | once the controller has nothing more to send, a read is empty and decodes to no message |
| `Stage.Query` | src/pyKDC101/core.py:488-500 | a query writes one or two requests, and its result is '' exactly when two requests were made and the second attempt raised ValueError |
| `Stage.Attempt` | src/pyKDC101/core.py:491-495 | the body of the `try` raises only ValueError, exactly when `bytes.fromhex` rejects `params[6:]`; otherwise the angle times the counts per degree is the signed little-endian count of those bytes |
| `Stage.AttemptRendered` | src/pyKDC101/core.py:491-495 | on reply text the attempt never raises: the angle is the signed little-endian count after the 2-byte channel field of the first message's payload |
| `Stage.QueryAsksOnce` | src/pyKDC101/core.py:488-500 | the retry never happens on reply text: exactly one request is written and an angle is returned |
| `Stage.PositionReading` | src/pyKDC101/core.py:491-495 | a complete position message reads back as its bytes 8 to 11, the position counter |
| `Stage.UnknownReplyReadsZero` | src/pyKDC101/core.py:491-495 | the reply kind is not checked: an unknown or empty reply reads as the angle 0 |
| `Stage.SerialOf` | src/pyKDC101/core.py:325-327 | `hexstr_to_int(hwinfo[0:11])` fails only with ValueError, exactly when `bytes.fromhex` rejects the slice; a serial number is never negative |
| `Stage.SerialRendered` | src/pyKDC101/core.py:325-327 | `hexstr_to_int(hwinfo[0:11])` is the unsigned value of the first (up to) four payload bytes of the first message |
| `Stage.KDC.PortIsOpen` | src/pyKDC101/core.py:203-211 | `port_is_open` is false when there is no port object (the AttributeError branch) and when the port is closed, and true when it is open |
| `Stage.KDC.constructor` | src/pyKDC101/core.py:28-40 | after the port is set, `identify` writes its frame exactly when the port is open |
| `Stage.KDC.SendCmd` | src/pyKDC101/core.py:221-227 | on a closed port nothing is written; on bad text ValueError escapes and nothing is written; otherwise the frame is appended to what was written |
| `Stage.KDC.SendCommand` | src/pyKDC101/core.py:221-227 | `sendcmd(cmds[key])` on an open port writes the entry's bytes |
| `Stage.KDC.RecvReply` | src/pyKDC101/core.py:230-241 | the loop drains the buffer, including the chunk that arrived during the delay, and returns its reply text; a closed port returns None and reads nothing |
| `Stage.KDC.AwaitMessage` | src/pyKDC101/core.py:400-407 | the polling loop ends as `Await` says: at the first read whose first message has the target name, or stalled when none can come, leaving the chunks not read |
| `Stage.KDC.Identify` | src/pyKDC101/core.py:315-318 | the identify frame is written exactly when the port is open |
| `Stage.KDC.MoveAbs` | src/pyKDC101/core.py:443-447 | on an open port, the 12-byte absolute move with the angle's count, or OverflowError with nothing written; nothing on a closed port |
| `Stage.KDC.MoveRel` | src/pyKDC101/core.py:450-454 | the same for the relative move |
| `Stage.KDC.MoveHome` | src/pyKDC101/core.py:457-460 | the homing frame is written exactly when the port is open |
| `Stage.KDC.MoveAbsWait` | src/pyKDC101/core.py:394-408 | exactly one frame, the absolute move, is written, then polling runs until "moved"; nothing changes on a closed port or an overflow |
| `Stage.KDC.MoveRelWait` | src/pyKDC101/core.py:411-425 | the same for the relative move |
| `Stage.KDC.MoveHomeWait` | src/pyKDC101/core.py:428-437 | exactly one frame, the homing command, is written, then polling runs until "homed" |
| `Stage.KDC.StopMove` | src/pyKDC101/core.py:463-476 | exactly one frame, the stop command, is written, then polling runs until "stopped" |
| `Stage.KDC.QueryCounter` | src/pyKDC101/core.py:488-499 | the `for` loop with `break` returns the reading of `Query`, writes the request once or twice as `Query` counts, and leaves the chunks not read |
| `Stage.KDC.GetPosAngle` | src/pyKDC101/core.py:482-500 | returns None on a closed port with nothing changed; otherwise the reading of `Query`, with one `req_poscounter` frame per request |
| `Stage.KDC.GetEncAngle` | src/pyKDC101/core.py:503-520 | the same with `req_enccounter` |
| `Stage.KDC.GetSerial` | src/pyKDC101/core.py:321-328 | returns None on a closed port; otherwise it writes `req_info` once and returns the unsigned value of the first four payload bytes of the reply's first message |

## Left out

- Port discovery and serial configuration in `openstage` (src/pyKDC101/core.py:151-200), and `closestage`. These are operating-system and pyserial I/O. The constructor takes the resulting port state (no port, closed or open) as a parameter.
- `time.sleep` delays and the `DEBUG` prints. They have no observable logic. The delay before a read is where the next scripted chunk arrives.
- Floating point: angles are exact reals. `Codec.ConvertEncCnt` stops before the final `round(..., 1)`. `Codec.AngleCounts` multiplies exactly and truncates like `int()`, so its count can differ from the float product by one near an integer.
- `Codec.IntToHexStr` takes an integer. The `int()` of a float `value_num` before `to_bytes` is not modelled.
- The `*_wait` loops and `stop_move` poll for as long as the controller stays silent. The model drives them from a finite script of chunks. When the script is used up without the target message, the methods return `Stalled` where the source would poll for ever.
- `get_info`, `get_mmi_params` and `get_disp_params` (src/pyKDC101/core.py:331-387) are left out. They print formatted fields of replies, using the same `decodereply` and codecs.
- `__str__` (src/pyKDC101/core.py:45-47) is left out. It only returns a fixed sentence.
- pyserial exceptions (a write or read failing part-way) are not modelled.
- `PyText.ParseInt16` accepts ASCII hex digits, underscores between digits, an optional `0x` prefix and a sign. Python's `int(x, 16)` also accepts non-ASCII Unicode digits, which are not modelled.
- The port's `in_waiting` and one-byte `read` are collapsed into the transport: `recvreply` drains every byte waiting after the delay.

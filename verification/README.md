# amdgpu-fand: verified model

amdgpu-fand is a daemon that drives the fan of an AMD graphics card from its temperature, with a small control
client. This project models the parts of it that compute something and proves what they promise:

* **SHA-1** (`Fips180.dfy`, `Sha1.dfy`, `KnownAnswers.dfy`): the streaming hash with its 16-word in-place schedule ring, renamed
  registers, two-half bit counter and byte-at-a-time padding refines the functions of FIPS 180-4, for every way of
  cutting a message into updates; a known answer and the origin of the constants tie those functions to the standard.
* **Serializer** (`FormatDfa.dfy`, `Serialize.dfy`, `ByteFormats.dfy`): the automaton, `packf` and `unpackf` against
  a grammar of formats; exact success condition, round trip, refusal of truncated data.
* **Control protocol** (`Ipc.dfy`, `Control.dfy`): replies, server and client, end to end.
* **Cache** (`Cache.dfy`): packing, sealing with SHA-1, both ways of reading back, acceptance.
* **Fan controller** (`Interpolation.dfy`, `FanControl.dfy`): the curve, hysteresis, and bounds over whole runs.
* **Matrix parser** (`StrUtils.dfy`, `MatrixConfig.dfy`, `MatrixText.dfy`): the fixed pattern, the row loop, the text it
  inverts, and what it makes of any other text.
* **Across components** (`EndToEnd.dfy`): configuration text to the rows a user is shown, and chosen speed to the
  speed reported.

Code that updates state is a class or a method with loops, proved against pure specification functions; what the
system promises is then proved about those functions. Bytes are integers 0..255, machine words of the hash are
`bv32`, integers of the host are little endian with the LP64 sizes 1, 2, 4, 8, 8. Values that come from outside
(sensor readings, the peer's uid, which files exist, whether a write or send succeeds) are parameters.

Where the repository's README and the code disagree, the model follows the code, and three results say how far the
documented behaviour holds:

* At most sixteen matrix rows are allowed (README lines 74-75), but `config_set_matrix` refuses sixteen
  (config.c:148). `MatrixConfig.SixteenRowsRefused` shows the failure, `MatrixConfig.TextRoundTrip` gives the exact
  condition.
* The aggressive throttle should act when the temperature falls below the lowest row (README line 66);
  `fanctrl_adjust` applies it at that row as well (fanctrl.c:103). `FanCurve.ThrottledAtLowestRow` shows an input,
  `FanCurve.ThrottleAsDocumented` gives the exact condition for every temperature. Both are about the curve without
  hysteresis. The hysteresis also delays the throttle, which is documented to act as soon as the temperature falls
  below the row; `FanControl.ThrottleActsExactly` says when it acts in any state.
* The speed of a row, once the temperature has reached it, should be kept until the temperature has fallen by the
  hysteresis (README lines 57-60). The code loses it early in two ways: a reading that only just reaches the row does
  not select it (fanctrl.c:103, 109), so that the next lower one changes the speed, and a fall out of the band of a
  higher row skips the bands of the rows below it (fanctrl.c:124). `FanControl.RowOnlyReached` and
  `FanControl.BandSkipped` show one input each. `FanControl.SpeedKeptExactly` gives the exact condition over whole
  runs, `FanControl.NotServed` what a failing reading looks like; `FanControl.PromiseKeptExactly` is the same question
  about the threshold index instead of the speed.

Two results are about input the code does not check. The matrix parser searches its pattern anywhere after a separator,
so that a blank line inside a matrix stores the next row twice. `MatrixText.BlankLineStored` shows an input,
`MatrixText.EachRowOnce` gives the exact condition on every accepted text. And `request_process_exit` passes a failed
receive on as a size (request.c:69-70), so that the exit command can succeed without a daemon.
`Client.ExitWithoutDaemon` shows an input, `Client.ExitSuccessTrustworthy` gives the exact condition.

What C demands of a caller is a precondition: the variadic arguments must fit the format, a repeat count times the
value size must fit 32 bits (serialize.c:370 multiplies in 32 bits), one hash update must be shorter than
2^32 - 63 bytes, and speeds must not decrease along the matrix where interpolation subtracts them unsigned.

## Model

| member | source | states |
|---|---|---|
| Bytes.DecodeEncode | src/common/serialize.c:366-376 | every value in the range of a 1, 2, 4 or 8 byte signed or unsigned type survives being stored little endian and loaded again |
| Bytes.EncodeDecode | src/common/serialize.c:366-376 | any bytes loaded as an integer are the bytes that storing the integer writes, and the integer is in range |
| Bytes.EncodeAt | src/common/serialize.c:366-376 | byte i of a stored integer is its i-th digit in base 256: the least significant byte comes first |
| Bytes.CopyTo | src/common/serialize.c:376 | a memcpy replaces exactly the bytes at its offset and leaves the rest |
| Bytes.SpliceAt | src/common/serialize.c:376 | byte by byte, what memory holds after a store at an offset |
| Fips180.ZeroBytesExact | src/fand/sha1.c:222-224 | among the counts up to the padding length, only the padding length itself reaches 56 mod 64, so it is the least one |
| Fips180.PadLength | src/fand/sha1.c:220-226 | a padded message is a whole number of 64-byte blocks |
| Fips180.AbsorbBlock | src/fand/sha1.c:183-188 | absorbing whole blocks and then one block is one compression of the state so far |
| Fips180.BigEndian64Reversed | src/fand/sha1.c:195-218 | the length block is the 64-bit bit count with its most significant byte first |
| KnownAnswers.RoundConstants | src/fand/sha1.c:28-50 | the four round constants are the square roots of 2, 3, 5 and 10 times 2^30, rounded down |
| KnownAnswers.InitialHash | src/fand/sha1.c:153-161 | the bytes of the initial hash count the hexadecimal digits up and down |
| KnownAnswers.AbcDigest | src/fand/sha1.c:52-231 | the specified digest of "abc" is a9993e36 4706816a ba3e2571 7850c26c 9cd0d89d |
| KnownAnswers.AbcChunks | src/fand/sha1.c:153-231 | the streaming hash yields that digest however "abc" is cut into updates |
| Sha1.LoadedIsScheduled | src/fand/sha1.c:26-27 | byte-swapping a little-endian load gives the big-endian schedule word of FIPS 180-4 |
| Sha1.RingByteSwap | src/fand/sha1.c:26-27 | for t below 16 the swap in place turns ring slot t into schedule word t and keeps the other slots valid |
| Sha1.RingExpand | src/fand/sha1.c:17-24 | from 16 on, the ring slots at i+13, i+8, i+2, i hold words t-3, t-8, t-14, t-16, so the expansion is schedule word t |
| Sha1.RingPut | src/fand/sha1.c:17-24 | overwriting slot t mod 16 with word t leaves the ring holding the latest sixteen words |
| Sha1.ChRewritten | src/fand/sha1.c:28-33 | the source's form of Ch equals the standard's |
| Sha1.MajRewritten | src/fand/sha1.c:43 | the source's form of Maj equals the standard's |
| Sha1.SourceOrderStep | src/fand/sha1.c:26-50 | summing into z and rotating w in place is one step of section 6.1.2 under the renaming of registers |
| Sha1.Expand | src/fand/sha1.c:17-24 | returns schedule word i and advances the ring |
| Sha1.R0 | src/fand/sha1.c:26-30 | makes step i for i below 16 and advances the ring |
| Sha1.R1 | src/fand/sha1.c:32-35 | makes step i for 16..19 |
| Sha1.R2 | src/fand/sha1.c:37-40 | makes step i for 20..39 |
| Sha1.R3 | src/fand/sha1.c:42-45 | makes step i for 40..59 |
| Sha1.R4 | src/fand/sha1.c:47-50 | makes step i for 60..79 |
| Sha1.Round | src/fand/sha1.c:62-144 | for every i below 80 the call takes the standard's working variables after i steps to those after i+1, one register further round |
| Sha1.EightyRounds | src/fand/sha1.c:62-144 | the unrolled calls, with registers renamed instead of shifted, compute the standard's eighty steps over its 80-word schedule |
| Sha1.CounterAdvance | src/fand/sha1.c:165-175 | the two-half counter with its wrap test and length >> 29 holds 8n modulo 2^64 |
| Sha1.ShiftsAndMasks | src/fand/sha1.c:165-222 | the shifts and masks on the counter halves equal the multiplications, divisions and remainders the model writes for them, and the mask test of the padding loop is the test for position 56 |
| Sha1.BufferPosition | src/fand/sha1.c:177 | the low half alone gives the position n mod 64 |
| Sha1.LengthBytes | src/fand/sha1.c:195-218 | the eight bytes taken from n1 and n0 are the big-endian 64-bit message length in bits |
| Sha1.AppendInsideBlock | src/fand/sha1.c:179-181 | data that does not fill the block only extends the tail |
| Sha1.AppendFillsBlock | src/fand/sha1.c:183-185 | the old tail and the first 64 - i bytes make the next block of the message |
| Sha1.AppendLeavesTail | src/fand/sha1.c:186-192 | what the block loop leaves is the new tail |
| Sha1.DigestByteAt | src/fand/sha1.c:199-208 | byte i of the digest is taken from word i/4, most significant byte first |
| Sha1.Sha1Ctx.constructor | src/fand/sha1.c:153-161 | a fresh context represents the empty message |
| Sha1.Sha1Ctx.Transform | src/fand/sha1.c:52-151 | replaces the hash by the standard's compression of it with the block |
| Sha1.Sha1Ctx.TransformRest | src/fand/sha1.c:186-188 | absorbs every whole block that is left and stops with less than a block |
| Sha1.Sha1Ctx.CountBits | src/fand/sha1.c:165-177 | advances the counter modulo 2^64 and returns the old buffer position |
| Sha1.Sha1Ctx.Update | src/fand/sha1.c:163-193 | the context then represents the old message followed by the data: hash of whole blocks, tail in the buffer, bit count |
| Sha1.Sha1Ctx.Position | src/fand/sha1.c:222 | the loop test reads the message length mod 64 |
| Sha1.Sha1Ctx.LengthField | src/fand/sha1.c:211-218 | the saved bytes are the length before padding |
| Sha1.Sha1Ctx.FeedPadding | src/fand/sha1.c:220-226 | the padding loop ends and the context represents exactly the padded message of section 5.1.1 |
| Sha1.Sha1Ctx.Final | src/fand/sha1.c:210-231 | writes the FIPS 180-4 digest of everything fed, and no other byte |
| Sha1.HashChunks | src/fand/sha1.c:153-231 | for every splitting of a message into updates the digest is the FIPS 180-4 digest of the concatenation |
| Sha1.MessageDeterminesState | src/fand/sha1.c:163-193 | two contexts fed the same bytes agree on hash, both counter halves and the buffered tail |
| Sha1.UpdateSplit | src/fand/sha1.c:163-193 | update(a); update(b) and update(a + b) leave the same observable state |
| FormatDfa.ScanFollowsNext | src/common/serialize.c:53-140 | the scan of an edge table takes the one transition of the documented automaton on every character |
| FormatDfa.RunDecides | src/common/serialize.c:181-216 | on every string the automaton yields the code of the specifier the string starts with, or -1 |
| FormatDfa.SpecifierUnique | src/common/serialize.c:155-179 | a string starts with at most one specifier, the code identifies it, and dfa_fmtlen is its length |
| FormatDfa.SpecifierTypes | src/common/serialize.c:218-228 | hh, h, no modifier, l and ll stand for 1, 2, 4, 8 and 8 bytes, d for signed and u for unsigned |
| FormatDfa.DfaSimulate | src/common/serialize.c:181-216 | the two nested loops compute that code |
| Serialize.StripDirective | src/common/serialize.c:336-378 | reads one directive: fails exactly where the source returns -1, else yields its encoded bytes and moves format and arguments on |
| Serialize.Packf | src/common/serialize.c:317-385 | returns the run's value and changes exactly the bytes the run stored, also on failure |
| Serialize.StripDestination | src/common/serialize.c:401-425 | reads one directive of an unpack format and its repeat count |
| Serialize.Unpackf | src/common/serialize.c:387-440 | returns the run's value and the values stored through each destination, also on failure |
| Serialize.HeaderOfItem | src/common/serialize.c:336-354 | the head of a rendered item parses back to it and the cursor lands on the next item |
| Serialize.ItemOfHeader | src/common/serialize.c:336-354 | whatever head parses is the rendering of its item |
| Serialize.PackRendered | src/common/serialize.c:317-385 | on a rendered format packf succeeds exactly when no count is zero and the total fits, and stores the concatenated encodings |
| Serialize.PackAccepted | src/common/serialize.c:317-385 | a format packf succeeds on is a sequence of items |
| Serialize.PackSucceedsExactly | src/common/serialize.c:317-385 | for any format: success if and only if it is a sequence of items with nonzero counts that fits, with the exact size and bytes |
| Serialize.PacksArray | src/common/serialize.c:362-368 | a repeat count of two or more takes the elements through a pointer |
| Serialize.PacksScalar | src/common/serialize.c:355-361 | a directive without `*` takes a scalar argument |
| Serialize.PacksStarredScalar | src/common/serialize.c:347-361 | with `*` and count one packf takes a scalar, and unpackf reads it back through a destination with that count |
| Serialize.UnpackAlong | src/common/serialize.c:387-440 | a format that begins with items reads their total size, or fails with -E2BIG when they ask for more than there is |
| Serialize.UnpackSucceedsExactly | src/common/serialize.c:387-440 | for any format and buffer: success if and only if it is a sequence of items with nonzero counts and the buffer holds their total size, which is returned; -E2BIG if and only if it begins with such items that ask for more; -1 in all other cases |
| Serialize.UnpackedValues | src/common/serialize.c:387-440 | for any buffer with enough data: one value sequence for each item, in range for its type, whose encodings are exactly the bytes read |
| Serialize.RoundTrip | src/common/serialize.c:317-440 | unpackf with the same format gives back every scalar and array and the byte count, whatever follows in the buffer |
| Serialize.TruncatedRefused | src/common/serialize.c:427-430 | every strict prefix of packed bytes is refused with -E2BIG |
| Serialize.PacksAndUnpacks | src/common/serialize.c:317-440 | for supplied items: what packf stores, what unpackf reads back, and refusal of prefixes, together |
| Interpolation.LerpOfInverse | src/fand/interpolation.c:5-11 | interpolating at the computed position gives the point back exactly |
| Interpolation.InverseOfLerp | src/fand/interpolation.c:5-11 | the position of an interpolated value is within 1/(2(b-a)) of the position interpolated at |
| Interpolation.LerpBetween | src/fand/interpolation.c:9-11 | for positions in [0,1] the result stays between the ends |
| Interpolation.LerpMonotone | src/fand/interpolation.c:9-11 | rounding keeps the interpolation monotone |
| Interpolation.LerpNearest | src/fand/interpolation.c:9-11 | the result is the integer nearest to the exact point on the line, the upper one of two |
| FanCurve.BracketFound | src/fand/fanctrl.c:107-117 | between first and last row a bracket is always found, for sorted or unsorted temperatures, so the division is by a positive number |
| FanCurve.BracketIsFirst | src/fand/fanctrl.c:107-117 | for unsorted temperatures too, it is the first bracket |
| FanCurve.ThresholdCounts | src/fand/fanctrl.c:102-122 | for sorted temperatures threshold + 1 is the number of rows below the reading |
| FanCurve.CurveBetweenRows | src/fand/fanctrl.c:102-122 | the curve stays between the speeds of the rows around the reading |
| FanCurve.CurveMonotone | src/fand/fanctrl.c:102-122 | for sorted temperatures and nondecreasing speeds the rounded curve is monotone, throttle included |
| FanCurve.CurveInterpolates | src/fand/fanctrl.c:109-116 | the curve passes through every row whose temperature is above the one before |
| FanCurve.CurveEnds | src/fand/fanctrl.c:102-106 | at and below the lowest row the speed is that row's or 0 with throttle, above the highest it is that row's |
| FanCurve.CurveNearest | src/fand/fanctrl.c:107-116 | between rows the speed is the integer nearest to the straight line through them, the upper one of two |
| FanCurve.ThrottleAsDocumented | src/fand/fanctrl.c:102-106 | the curve agrees with one that throttles only below the lowest row if and only if it is not throttled at exactly that row's temperature with a speed above zero |
| FanCurve.ThrottledAtLowestRow | src/fand/fanctrl.c:102-106 | rows 50::30 and 60::60 with throttle: at 50 degrees the speed is 0, not 30 |
| FanCurve.PwmInRange | src/fand/fanctrl.c:33-37 | every percentage gives a pulse width in 0..255 |
| FanCurve.PwmReadsBack | src/fand/fanctrl.c:151-158 | a percentage p reads back as p - 1 exactly when 255p mod 100 lies strictly between 0 and 50, else as p |
| FanControl.Envelope | src/fand/fanctrl.c:124-130 | in every state the chosen speed lies between the curve at t and the curve at t + hysteresis |
| FanControl.ChosenPwmInRange | src/fand/hwmon.c:208-212 | the pulse width handed to hwmon_write_pwm never takes its fatal branch |
| FanControl.ObserveAmortised | src/fand/fanctrl.c:85-133 | one reading keeps the potential of the amortised bound |
| FanControl.StepDownsBounded | src/fand/fanctrl.c:85-133 | over every run, for any matrix, step-downs times (hysteresis + 1) is at most the total fall of the temperature |
| FanControl.BoundTight | src/fand/fanctrl.c:85-133 | that bound is met exactly by runs of any length, for every hysteresis |
| FanControl.RunStaysInEnvelope | src/fand/fanctrl.c:85-133 | after every run the next reading gets a speed inside the envelope and an accepted pulse width |
| FanControl.ThrottleActsExactly | src/fand/fanctrl.c:102-130 | in any state, at or below the lowest row, the throttle acts if and only if the reading is outside the band of the current row |
| FanControl.AtRowExactly | src/fand/fanctrl.c:102-130 | in any state the next threshold is at row k or above if and only if the reading is above row k, or the threshold was there and the reading is inside the band of the current row |
| FanControl.NeverHeldTooLong | src/fand/fanctrl.c:124-130 | on every run a row is given up no later than the documented hysteresis says |
| FanControl.PromiseKeptExactly | src/fand/fanctrl.c:102-130 | about the threshold index: on every run it stays at the row or above for as long as documented if and only if no reading just reaches the row without holding it, or falls out of a higher row's band into that of the row |
| FanControl.PromisedSpeed | src/fand/fanctrl.c:102-130 | where the threshold is kept so is the speed; the converse is not claimed, the exact statement about speed is the next two |
| FanControl.ServesExactly | src/fand/fanctrl.c:102-130 | in any state the chosen speed is at least that of row k if and only if the curve asks for it, or the reading is inside the band of the current row and that row's speed is no lower |
| FanControl.SpeedKeptExactly | src/fand/fanctrl.c:102-130 | on every run the documented speed of a row is kept at every reading it is promised for if and only if each of those readings meets that guard in the state it finds |
| FanControl.NotServed | src/fand/fanctrl.c:102-130 | a reading misses the guard only at or below the row and outside the band of the current row, and at the row's own temperature only for the throttle or for a lower row of equal temperature |
| FanControl.RowOnlyReached | src/fand/fanctrl.c:107-112 | rows 50::0, 60::30, 70::70, hysteresis 3: 60 degrees set 30 percent, then 59 give 27 |
| FanControl.BandSkipped | src/fand/fanctrl.c:124-130 | rows 50::0, 60::30, 61::70, hysteresis 3: 65 then 58 degrees gives 24 percent instead of 30 |
| FanControl.HeldExactlyInBand | src/fand/fanctrl.c:124-130 | at or below the current row, the threshold is held exactly while the reading is less than the hysteresis below the row, and steps down otherwise |
| FanControl.SteadyInBand | src/fand/fanctrl.c:124-130 | however the readings move inside that band, for any number of them, threshold and speed do not change |
| FanControl.WholeDegrees | src/fand/fanctrl.c:135-149 | a raw value counts as its whole degrees of a thousand millidegrees; a failed read is passed on |
| FanControl.Controller.Configure | src/fand/fanctrl.c:39-83 | splits the matrix into columns and restarts the run, or reports failure above sixteen rows and keeps the old matrix |
| FanControl.Controller.WritePwm | src/fand/hwmon.c:208-215 | refuses exactly pulse widths above 255 |
| FanControl.Controller.Select | src/fand/fanctrl.c:102-122 | the search loop finds the specified threshold and curve speed |
| FanControl.Controller.Adjust | src/fand/fanctrl.c:85-133 | one step of the run: the threshold after all readings is the specified one and the chosen speed's pulse width is written; error cases leave the state alone |
| Ipc.PackError | src/common/serialize.c:465-467 | writes the six-byte error reply, or fails if it does not fit |
| Ipc.PackSpeed | src/common/serialize.c:469-471 | writes the six-byte reply with the speed |
| Ipc.PackTemp | src/common/serialize.c:477-479 | writes the six-byte reply with the temperature |
| Ipc.PackMatrix | src/common/serialize.c:485-488 | for every row count: writes length (modulo 256), code, row count and cells; fails for no rows or too little room |
| Ipc.PackExitRsp | src/common/serialize.c:521-523 | writes the two-byte reply |
| Ipc.UnpackInt | src/common/serialize.c:442-463 | on any buffer returns the specified code and result, with error codes added to the running length |
| Ipc.UnpackMatrix | src/common/serialize.c:490-519 | the same for every buffer whose announced rows, if they are all there, are at most sixteen |
| Ipc.UnpackExitRsp | src/common/serialize.c:525-543 | the same for exit replies |
| Ipc.IntReadExactly | src/common/serialize.c:442-463 | accepts exactly the buffers that start with a reply of the int packers, and reads that reply |
| Ipc.MatrixReadExactly | src/common/serialize.c:490-519 | accepts exactly the buffers that start with an error reply, a matrix reply, or 2, 0, 0, which no packer writes: the -1 for its zero count is added to the running length and hidden by it |
| Ipc.ExitReadExactly | src/common/serialize.c:525-543 | accepts exactly the buffers that start with the exit reply or an error reply |
| Ipc.IntReplyDecodes | src/common/serialize.c:442-483 | speed, temperature and error replies decode to what was packed |
| Ipc.MatrixReplyDecodes | src/common/serialize.c:485-519 | matrix replies decode to the same rows |
| Ipc.ExitReplyDecodes | src/common/serialize.c:521-543 | the exit reply decodes to success |
| Ipc.TruncatedIntReply | src/common/serialize.c:451-460 | every strict prefix of a speed, temperature or error reply is refused by its unpackers |
| Ipc.TruncatedMatrixReply | src/common/serialize.c:498-516 | every strict prefix of a matrix reply is refused |
| Ipc.TruncatedExitReply | src/common/serialize.c:530-540 | every strict prefix of the exit reply is refused |
| Server.ValidateRequest | src/fand/server.c:26-54 | EINVAL exactly for unknown requests; exit needs uid 0, else EACCES or the errno of the lookup |
| Server.PackResult | src/fand/server.c:56-75 | packs the measured value, or EAGAIN for a failed sensor or any other request; fails if the reply does not fit |
| Server.RecvAndRespond | src/fand/server.c:141-203 | the reply is the wire form of the specified answer; the exit status is FAND_SERVER_EXIT if and only if uid 0 asked for exit, else 1 on any failure |
| Server.ReplyBytes | src/fand/server.c:26-75 | the bytes on the wire for every request byte, peer, sensor reading and configuration |
| Server.ExitStatusSurvives | src/fand/server.c:195-200 | a reply that cannot be sent leaves the exit status as it is, apart from success and failure |
| Server.WireFits | src/fand/server.c:141-142 | every answer takes 2 to 35 bytes and so fits the 48-byte message |
| Client.ProcessGet | src/fanctl/request.c:29-61 | fails at once when nothing was received, else shows what the reply says for the request; succeeds exactly when it shows a value |
| Client.ProcessExit | src/fanctl/request.c:63-78 | decodes what was received, or the whole uninitialised buffer when the receive failed; shows success, the decoded errno, or the message of an errno that was never set |
| Client.ExitSucceedsExactly | src/fanctl/request.c:69-78 | success if and only if the exit reply was received, or nothing was received and the stale buffer starts with 2, 0 |
| Client.ExitSuccessTrustworthy | src/fanctl/request.c:69-78 | success means an accepted exit except in that second case |
| Client.ExitWithoutDaemon | src/fanctl/request.c:69-78 | with no daemon: success on stale bytes 2, 0, and the message of an unset errno on a zeroed buffer |
| Client.ClientUnderstandsServer | src/fanctl/request.c:29-78 | for the four requests, every peer, sensor state and 1..16 rows, the client shows exactly what the server answered |
| Client.TruncatedReplyNotUnderstood | src/fanctl/request.c:41-54 | no strict prefix of a server reply is decoded by the decoder the client picks; the user is shown an invalid response, for exit the message of an unset errno |
| Client.IntShownExactly | src/fanctl/request.c:40-58 | for every reply: the value is shown if and only if the reply starts with an ok reply of that value, an errno if and only if with an error reply of code 1, else an invalid response |
| Client.MatrixShownExactly | src/fanctl/request.c:47-58 | the same for matrix replies, and the reply 2, 0, 0 shown as a matrix without rows |
| Client.InvalidNumbers | src/fanctl/request.c:40-58 | the number in the invalid-response message tells where the reply was cut, or that its length byte is wrong |
| Client.ExitShownExactly | src/fanctl/request.c:69-78 | what the exit command shows for every reply |
| CacheFormat.BodyCall | src/fand/cache.c:92-95 | the packf call stores the three paths and the card index, 772 bytes |
| CacheFormat.DigestCall | src/fand/cache.c:101 | the second packf call appends the digest |
| CacheFormat.UnpackCall | src/fand/cache.c:117-121 | the unpackf call reads every field at its fixed offset |
| Cache.ImageRestored | src/fand/cache.c:83-130 | the layout of a written cache; reading it back restores card index and paths, the last byte of each path being NUL |
| Cache.ImageAcceptable | src/fand/cache.c:48-81 | the checksum of a written cache always matches: it is accepted exactly when its paths exist under /sys |
| Cache.AcceptableExactly | src/fand/cache.c:41-81 | a file is accepted if and only if it is long enough, sealed with its own digest, and its three path fields start with /sys/ and name existing files |
| Cache.FandCache.Digest | src/fand/cache.c:57-60 | init, update and final give the FIPS 180-4 digest |
| Cache.FandCache.Pack | src/fand/cache.c:83-104 | writes body and digest into the first 792 bytes, or nothing if the buffer is too small |
| Cache.FandCache.Unpack | src/fand/cache.c:106-130 | the memcpy branch and the unpackf branch leave the same struct, a fixed function of the buffer |
| Cache.FandCache.Validate | src/fand/cache.c:48-81 | succeeds exactly when size, checksum and the three paths are right |
| Cache.FandCache.Load | src/fand/cache.c:132-170 | accepts exactly the files that can be opened and read, are long enough, carry the digest of their body and name files under /sys; the struct changes only if the file is long enough |
| Cache.FandCache.Write | src/fand/cache.c:172-203 | hands the image of the stored contents to write once directory and file are there, and succeeds exactly if all of it was written and the file closed |
| StrUtils.StrSCpy | src/common/strutils.c:6-19 | copies and terminates, cuts and terminates when too long, and writes nothing past the NUL |
| StrUtils.StoredReads | src/common/strutils.c:6-19 | what the copies store reads back as the string, and nothing behind its NUL changes |
| StrUtils.StrSNCpy | src/common/strutils.c:21-40 | the same for at most n characters, with the two failure cases |
| StrUtils.CopyLoop | src/common/strutils.c:27 | the shared copy loop stores the string up to the limit and stops after its NUL |
| StrUtils.PrefixConverts | src/common/strutils.c:55 | a text that starts with a numeral converts to its value, and the end pointer is left behind it |
| StrUtils.NothingConverts | src/common/strutils.c:55 | without digits nothing is converted: value 0, end pointer at the start |
| StrUtils.ConvertsExactly | src/common/strutils.c:50-62 | all of a text is converted if and only if it is white space, an optional sign and digits; the value then saturates, or is negated modulo 2^64 |
| StrUtils.SignedValues | src/common/strutils.c:55 | above 2^64 - 1 the value saturates, and a minus sign takes it from 2^64 |
| StrUtils.SpaceCharacters | src/common/strutils.c:55 | the six white-space characters a numeral may start with |
| StrUtils.NegativeRefused | src/common/strutils.c:63-69 | a negative number down to -2^63 is out of every range that ends below 2^63 |
| StrUtils.StrToULong | src/common/strutils.c:50-62 | fails on empty text and on text not converted to its end, which still overwrites the destination |
| StrUtils.StrToULRange | src/common/strutils.c:63-69 | on any text: success if and only if it is such a numeral with a value in range |
| StrUtils.DigitsConvert | src/common/strutils.c:55 | at most three bare digits convert to their number |
| StrUtils.NumberOfDecimal | src/common/strutils.c:55 | the decimal text of a number parses back to it |
| StrUtils.DecimalLength | src/fand/config.c:118-122 | the four-byte number buffer holds exactly the numbers below 1000 |
| MatrixConfig.MatchIsPattern | src/fand/config.c:107 | the scanner matches at a position exactly when the pattern occurs there, with its only groups |
| MatrixConfig.SearchIsLeftmost | src/fand/config.c:112 | the search finds the leftmost occurrence and fails only when there is none |
| MatrixConfig.SegmentOfText | src/fand/config.c:112-143 | the front row of canonical text is read exactly when its numbers are in range, and read right |
| MatrixConfig.LongFieldRefused | src/fand/config.c:118-122 | numbers of four digits or more are refused even if leading zeros keep them in range |
| MatrixConfig.NextRow | src/fand/config.c:145 | strchr from the second character lands on the next row, and finds none after the last |
| MatrixConfig.ScanText | src/fand/config.c:111-146 | the row loop over canonical text stores exactly the rows it reaches |
| MatrixConfig.TextRoundTrip | src/fand/config.c:98-158 | canonical text is accepted if and only if it has one to fifteen rows in range, and then yields exactly its rows |
| MatrixConfig.SixteenRowsRefused | src/fand/config.c:148-152 | every text of sixteen rows in range is read without error and then refused |
| MatrixText.LoopReads | src/fand/config.c:111-146 | on any text whose segments it can visit, the loop reads in each the leftmost occurrence from there on; it fails exactly when there is none or a row read is out of range |
| MatrixText.AcceptedExactly | src/fand/config.c:98-158 | any text is accepted if and only if it has fewer than sixteen segments, an occurrence of the pattern from each on, and every row read is in range |
| MatrixText.EachRowOnce | src/fand/config.c:111-146 | on every accepted text, each occurrence's row is stored exactly once and in order if and only if the pattern occurs exactly once in each segment between separators |
| MatrixText.DoubledSeparator | src/fand/config.c:111-146 | two separators in a row duplicate the row after them, for any rows |
| MatrixText.BlankLineStored | src/fand/config.c:111-146 | a matrix of two rows with a blank line between them is stored as three rows |
| MatrixConfig.FandConfig.ReadField | src/fand/config.c:118-140 | copy, parse and range check accept exactly the specified fields |
| MatrixConfig.FandConfig.ReadRow | src/fand/config.c:112-143 | yields the row the pattern finds, or none |
| MatrixConfig.FandConfig.ReadRows | src/fand/config.c:111-146 | the loop stores the specified cells at the front of the matrix, also when it fails part way |
| MatrixConfig.FandConfig.SetMatrix | src/fand/config.c:98-158 | on any text: status, stored cells and row count are the specified ones |
| EndToEnd.Configure | src/fand/config.c:98-158 | canonical text puts exactly its rows into the record, or is refused |
| EndToEnd.ConfigureController | src/fand/fanctrl.c:39-83 | the parsed rows reach the controller, first number as temperature, second as speed |
| EndToEnd.ConfiguredRowsAreShown | src/fand/server.c:180-182 | a client asking for the matrix is shown the rows of the configuration text |
| EndToEnd.MeasuredIsShown | src/fand/server.c:56-75 | a client asking for speed or temperature is shown the measured one, or EAGAIN if that sensor failed |
| EndToEnd.RawValuesAreShown | src/fand/fanctrl.c:135-158 | the same from the raw pulse width and millidegrees |
| EndToEnd.ChosenSpeedIsShown | src/fand/fanctrl.c:124-158 | the speed the controller sets is shown to a client as itself or one less, with the exact condition |

## Left out

- Operating-system calls (sockets, fork, poll, signals, files, sysfs, DRM): their results are parameters.
- IEEE rounding in `lerp` and `lerp_inverse`: the formulas are exact over the reals; float error may move exact ties.
- FanControl.Controller.Adjust: requires nondecreasing speeds, because `b - a` wraps for a decreasing pair; the
  threshold results, which do not use speeds, have no such condition.
- Serialize.Unpackf: destinations come back as values; aliasing between destinations is not captured.
- Serialize.Packf: calls whose arguments do not fit the format, or whose repeat count times size exceeds 32 bits, are
  outside the model.
- Ipc.UnpackMatrix: replies that carry more than sixteen rows, which overrun the result in the source, are excluded.
- The union `unpack_result` is modelled by the member written last; its byte overlay is not. A field that was never
  written has no value: the message printed for it is `UnsetErrno`.
- Cache.FandCache.Unpack: the memcpy branch is modelled for the unpadded little-endian layout it is guarded by.
- `strtoul` is modelled in base ten and in the C locale, as `strstoul` calls it.
- The regular-expression library: only the matrix pattern is modelled, as a scanner proved equal to the pattern.
- `config_parse`, which feeds `config_set_matrix`: it reads the file line by line and joins matrix lines. The model
  starts from the joined text, so how a file's layout maps to that text is not covered.
- The interval, hysteresis and throttle settings: the controller is proved for every value they can take.
- `request_convert`, argument parsing, printing and locale: they map words to request codes and values to text, and no
  result depends on the wording.
- The pid file and the daemon loop: the model has no processes or time; a run is the sequence of readings.
- Sha1.HashChunks: above 2^61 bytes, where FIPS 180-4 defines no digest, the length field is taken modulo 2^64.
- Cryptographic strength of SHA-1.

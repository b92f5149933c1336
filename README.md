# poolparty: a verified model of the slot-pool covert channel

poolparty lets two browser tabs exchange a number without any shared
storage. Both tabs compete for a capped pool of WebSocket connections: the
browser allows at most `maxSlots` of them per site. The *sender* holds
nearly all slots. At each pulse it leaves `1 + digit` of them free. The
*receiver* probes how many slots it can open and reads the digit back. The
logic lives in `static/inner.js`. This project models that file's
bookkeeping in Dafny and proves what it does:

- `codec.dfy` (module `Codec`) is the mixed-radix codec:
  - `bigIntegerToList`, a loop of JavaScript `%` and division;
  - `listToBigInteger`, Horner's rule as a loop;
  - `bigIntegerToHex`, which adds `16^w`, calls `toString(16)` and drops the leading character.

  The two loops are methods proved equal to the functions `Digits` and `Value`. The round trip and the fixed hex width are proved about those functions.
- `pool.dfy` (module `Pool`) is the socket pool. The module-level `sockets` set and `trace` array become fields of the class `SocketPool`. Each of `capture`, `consume`, `release` and `probe` is a method with the source's loops. Each method is proved to produce the new state computed by a pure function (`Consumed`, `Released`, `Probed`) of the old one. The lemmas are stated about those functions. The two browsers' constants are in `ConfigFor`.
- `protocol.dfy` (module `Protocol`) covers three parts:
  - role negotiation (`isSender`);
  - the sender's pulse loop, including its Firefox branch;
  - the receiver's probe loop and decode.

  The loops are methods on a `SocketPool`, proved against the fold functions `SentPulses` and `Received`.
- `clock.dfy` (module `Clock`) is the wall-clock arithmetic:
  - alignment to the next round interval;
  - the send boundaries;
  - the receive sample instants.

  Receive instants fall on quarter milliseconds, so they are counted in units of a quarter millisecond.
- `arith.dfy` (module `Arith`) holds small facts about multiplication and division used by the other proofs.

How sockets and timers are abstracted:
- A WebSocket is a natural-number handle issued by a counter.
- Whether a socket is dead (`readyState === 3`) is given to each `consume` as a set of dead handles. This is how the other tab's activity reaches the model.
- Sleeping is not modelled. The loops return the instants they would sleep until.
- The Firefox branch of `sendInteger` is selected by a boolean. The source reads it from the global browser sniff instead.

Behaviours of the code worth knowing, all modelled as written:
- A probe count of 0 is not rejected: `receiveInteger` pushes `count - 1` unchecked (static/inner.js:218). `EmptyFirstProbeGivesShortHex` shows the result: a negative value whose hex rendering is shorter than the fixed width.
- The first pulse boundary is `t0 + pulseMs`, and the receiver samples at `t0 + (i + 1.25) * pulseMs` (static/inner.js:185, 216).
- `size < maxSlots / 2` (static/inner.js:171) makes a participant holding exactly half of `maxSlots` a sender.
- Negotiation consumes exactly `maxSlots` (static/inner.js:169).
- `t0` is the clock reading after the sleep to the grid point (static/inner.js:116-118, 256), not the grid point itself; `SessionFitsInterval` says how late that reading may be.

## Model

| member | source | states |
|---|---|---|
| Codec.JsRem | static/inner.js:95 | JavaScript's `%` by a positive radix: in `[0, b)` for non-negative operands, in `(-b, 0]` for negative ones |
| Codec.ShiftExact | static/inner.js:95-97 | `feed` is exactly `radix * newFeed + remainder`, for negative `feed` too |
| Codec.ShiftNonNegative | static/inner.js:97 | for non-negative `feed` the new feed is the floor quotient, still non-negative |
| Codec.Digits | static/inner.js:91-100 | the digit list has exactly `listSize` entries |
| Codec.DigitsDecompose | static/inner.js:91-100 | the digits plus `radix^n` times what is left in `feed` reconstruct the input exactly, for every integer input |
| Codec.DigitsInRange | static/inner.js:95-96 | for a non-negative input every digit lies in `[0, radix)` |
| Codec.Value | static/inner.js:82-88 | Horner's rule, least significant digit first: `ds[0] + radix * Value(ds[1..])` |
| Codec.ValueBounds | static/inner.js:82-88 | Horner's rule on in-range digits gives a value in `[0, radix^n)` |
| Codec.RoundTrip | static/inner.js:82-100 | `n` digits, each in `[0, radix)`; recombining them gives `v mod radix^n`, and `v` itself when `v < radix^n` |
| Codec.DigitsOfValue | static/inner.js:82-100 | the other direction: splitting the recombination of in-range digits returns the same digits |
| Codec.ListToBigInteger | static/inner.js:82-88 | the downward loop computes Horner's value of the first `listSize` entries |
| Codec.BigIntegerToList | static/inner.js:91-100 | the loop produces the digit list, its digits are in range for non-negative input, and it recombines to the input when the input fits |
| Codec.RadixFitsHexWidth | static/inner.js:103-106 | a radix of `2^k` with `n` digits fits in `ceil(n*k/4)` hex characters |
| Codec.HexWidth | static/inner.js:104 | `Math.ceil(numBits / 4)` on a natural number: `(numBits + 3) / 4` |
| Codec.BigIntegerToHex | static/inner.js:103-106 | `toString(16)` of `v + 16^HexWidth(numBits)` with its first character dropped; its width and parse-back are proved in `HexRoundTrip` |
| Codec.NatToHex | static/inner.js:105 | `toString(16)` of a non-negative integer is never empty |
| Codec.ToHexString | static/inner.js:105 | `toString(16)` of any integer is never empty |
| Codec.PadHexShape | static/inner.js:103-106 | zero padding to width `w` gives `w` lowercase hex characters that parse back to the value |
| Codec.HexWithLeadingOne | static/inner.js:105 | `toString(16)` of `v + 16^w` is `"1"` followed by `v` zero-padded to width `w` |
| Codec.HexRoundTrip | static/inner.js:103-106 | for `0 <= v < 16^w` the result is exactly `w = ceil(numBits/4)` lowercase hex characters and parses back to `v` |
| Codec.NatToHexLength | static/inner.js:105 | a value below `16^k` renders in at most `k` characters |
| Codec.NegativeHexIsShort | static/inner.js:103-106 | a negative value greater than `-16^w` renders shorter than the fixed width |
| Pool.ConfigFor | static/inner.js:25-40 | the constants of each browser: Chrome 5, 255, 128, 50 ms, 0 ms; Firefox the same with 350 ms pulses and 50 ms settling |
| Pool.NumBits | static/inner.js:42 | `listSize * log2(maxValue)`, exact for a power-of-two radix |
| Pool.ConfigDigitsFitHex | static/inner.js:25-42 | for both browsers' constants `maxValue^listSize <= 16^ceil(numBits/4)`, so every value the digits carry fits the hex width |
| Pool.Fresh | static/inner.js:125-126 | `max` new handles, numbered consecutively from the counter |
| Pool.Rising | static/inner.js:126-127 | the sizes sampled while adding sockets are `start + 1, ..., start + n` |
| Pool.Falling | static/inner.js:148-151 | the sizes sampled while closing sockets are `start - 1, ..., start - n` |
| Pool.Live | static/inner.js:130-134 | the sweep: the handles not in the dead set, in insertion order |
| Pool.LiveMembers | static/inner.js:130-134 | the sweep keeps exactly the held sockets that are not dead, and never grows |
| Pool.LiveAppend | static/inner.js:130-134 | the sweep keeps insertion order: sweeping a concatenation sweeps each part |
| Pool.LiveNoneDead | static/inner.js:130-134 | with no dead socket the sweep changes nothing |
| Pool.LiveAllDead | static/inner.js:130-134 | when every socket is dead the sweep leaves nothing |
| Pool.LiveShrinks | static/inner.js:130-134 | one dead socket makes the sweep strictly shrink the set |
| Pool.LiveDistinct | static/inner.js:130-134 | the sweep keeps the sockets distinct, as a `Set` does |
| Pool.FreshMembers | static/inner.js:125-126 | new handles are distinct and are exactly those in `[next, next + max)` |
| Pool.Consumed | static/inner.js:122-138 | `consume`: sample, append `max(max, 0)` new handles sampling after each, sweep the dead ones, sample, and return the final minus the initial size |
| Pool.Released | static/inner.js:141-156 | `release`: sample; for `max = 0` return 0; otherwise drop the first `min(max, size)` handles (none if negative) sampling after each, sample, and return `min(max, size)` |
| Pool.Probed | static/inner.js:159-163 | `probe`: `Consumed`, then `Released` of its count, returning the consumed count |
| Pool.ConsumedWellFormed | static/inner.js:122-138 | `consume` keeps the pool a set of issued handles |
| Pool.ConsumeKeepsLive | static/inner.js:122-138 | survivors are the live old sockets followed by the live new ones; no live held socket is removed; membership is exactly "not dead and old or new"; the result is the final minus the initial size, at most `max` |
| Pool.ConsumeCanShrink | static/inner.js:130-137 | a held socket that died makes `consume(0)` return a negative number |
| Pool.ConsumeTrace | static/inner.js:123-136 | `consume` appends `max + 2` samples: the start size, the size after each new socket, and the final size last |
| Pool.ReleaseSpec | static/inner.js:141-156 | `max = 0`: returns 0, sockets unchanged, one sample. `max > 0`: removes exactly the first `min(max, size)` sockets, keeps the rest in order, returns that number and adds that many plus 2 samples. `max < 0`: removes nothing and returns `max` |
| Pool.ProbeConservesCount | static/inner.js:159-163 | `probe` returns the consume's count `c`; for `c >= 0` the size is unchanged and the `c` oldest sockets are the ones gone |
| Pool.ProbeClosesOldest | static/inner.js:148-163 | with no held socket dead, the oldest held socket is closed by any probe that gains a socket |
| Pool.ProbeKeepsNewest | static/inner.js:148-163 | when no held socket is dead and the probe gained no more sockets than were held before, every live socket the probe opened stays held |
| Pool.ProbeFromEmpty | static/inner.js:159-163 | a probe from an empty pool leaves it empty and returns a count in `[0, max]` |
| Pool.SocketPool.constructor | static/inner.js:24-43 | a new pool has its browser's constants, no sockets and an empty trace |
| Pool.SocketPool.Capture | static/inner.js:77-79 | appends the current size to the trace and changes nothing else |
| Pool.SocketPool.Consume | static/inner.js:122-138 | the add loop and the sweep loop produce `Consumed` of the old state; the pool stays a set of issued handles |
| Pool.SocketPool.Release | static/inner.js:141-156 | the closing loop produces `Released` of the old state |
| Pool.SocketPool.Probe | static/inner.js:159-163 | produces `Probed` of the old state and returns the consumed count |
| Protocol.Negotiate | static/inner.js:167-177 | `isSender`: release all, consume `maxSlots`, then a receiver (releasing all again) iff `2 * size < maxSlots` |
| Protocol.NegotiationDrainsFirst | static/inner.js:168 | the first step of `isSender` always leaves the pool empty |
| Protocol.NegotiationOutcome | static/inner.js:167-177 | a receiver holds nothing; a sender holds at least half and at most `maxSlots` sockets, all newly opened |
| Protocol.SoleParticipantSends | static/inner.js:167-177 | if none of the new sockets dies, the participant holds exactly `maxSlots` and sends |
| Protocol.SaturatedCapReceives | static/inner.js:167-177 | if every new socket dies, the participant receives and holds nothing |
| Protocol.IsSender | static/inner.js:167-177 | the method's result and new state are `Negotiate` of the old state, with the outcome bounds above |
| Protocol.PulseAction | static/inner.js:194-199 | the non-Firefox pulse: release `integer - lastInteger` if positive, else consume its negation |
| Protocol.LastInteger | static/inner.js:183-201 | `lastInteger` at the start of pulse `i`: 0, then `1 + list[i - 1]` |
| Protocol.Pulse | static/inner.js:189-200 | one pulse: the Firefox branch consumes `lastInteger + 5` then releases `integer`; otherwise `PulseAction` |
| Protocol.SentPulses | static/inner.js:184-202 | the pool after the first `n` pulses, a left fold of `Pulse` over the digits |
| Protocol.PulseActionFreesDifference | static/inner.js:194-199 | a pulse frees exactly `integer - lastInteger` slots; it releases iff the target rose |
| Protocol.DeltaTelescopes | static/inner.js:183-201 | the slots freed by pulses `0..n-1` add up to `lastInteger = 1 + list[n-1]`, at least 1 even for digit 0 |
| Protocol.PulseWellFormed | static/inner.js:189-200 | a pulse in either branch keeps the pool a set of issued handles |
| Protocol.PulseOccupancy | static/inner.js:194-199 | with no socket dying, a pulse moves the pool size by exactly the change of target |
| Protocol.SentPulsesWellFormed | static/inner.js:184-202 | the pulse loop keeps the pool a set of issued handles |
| Protocol.SenderFreesTarget | static/inner.js:184-202 | with no socket dying and enough sockets held, after pulse `n-1` the sender holds `1 + list[n-1]` fewer sockets than at the start |
| Protocol.SendPulse | static/inner.js:189-200 | one pulse on the pool object produces `Pulse` of the old state |
| Protocol.SendInteger | static/inner.js:180-208 | the pool ends as the fill followed by the pulses for `Digits(bigInteger)`, the sleep targets are `startTime + (i+1)*pulseMs`, and the result is the hex rendering of the integer |
| Protocol.Received | static/inner.js:215-219 | `n` probes yield exactly `n` counts |
| Protocol.CountsToDigits | static/inner.js:218 | each digit is its probe count minus one |
| Protocol.DecodeCounts | static/inner.js:218-224 | the receiver's decode: counts minus one, recombined by Horner's rule, rendered by `BigIntegerToHex` |
| Protocol.DecodeMatchesSend | static/inner.js:211-224 | when every probe count is one more than the sender's digit, the receiver's rendering equals the sender's, for every value the digits carry |
| Protocol.IdleChannelReadsTopValue | static/inner.js:215-224 | with no sender every count is `maxValue`, and the receiver decodes `maxValue^listSize - 1` |
| Protocol.EmptyFirstProbeGivesShortHex | static/inner.js:218-224 | a first count of 0 is not rejected: it decodes to -1 and a rendering shorter than the fixed width |
| Protocol.ReceiverStaysEmpty | static/inner.js:211-219 | a receiver's probes keep its pool empty, and every count lies in `[0, maxValue]` |
| Protocol.ReceiveInteger | static/inner.js:211-225 | the pool ends as `Received` of the old state, the result decodes those counts, and the sample instants are `4*startTime + (4i+5)*pulseMs` quarter milliseconds |
| Clock.SendBoundary | static/inner.js:185 | the sender's sleep target for pulse `i`: `startTime + (i + 1) * pulseMs` |
| Clock.ReceiveSampleQuarters | static/inner.js:216 | the receiver's sleep target for digit `i`, in quarter milliseconds: `4 * startTime + (4i + 5) * pulseMs` |
| Clock.NextGridPoint | static/inner.js:247-249 | the target is a multiple of the interval, not before `now` and less than one interval after it |
| Clock.SameCellSameGridPoint | static/inner.js:247-249 | two clocks reading within the same grid cell compute the same sleep target |
| Clock.SampleInsidePulse | static/inner.js:185-216 | sample `i` falls a quarter pulse after boundary `i` and strictly before boundary `i + 1` |
| Clock.SessionFitsInterval | static/inner.js:252-256 | with the round interval `(1 + listSize) * pulseMs` and `t0` read `late` ms after the grid point, the last boundary comes before the next grid point iff `late < pulseMs`, and the last sample iff `4*late < 3*pulseMs` |

## Left out

- `index.js`, the Express server and WebSocket echo endpoint, is not part of this model. It is network plumbing.
- Creating, closing and inspecting WebSockets (`static/inner.js:45-55`) are browser calls. They become fresh handles, removal from the sequence, and a dead set given to each `consume`. The model does not decide which sockets die.
- The interaction of two tabs through the browser's connection cap is concurrent and outside the page. Each participant's bookkeeping is modelled for any choice of dead sockets.
- Sleeping (`sleepMs`, `sleepUntil`, the settling delays), `Date.now` and `performance.now` are left out. Times are integer parameters. Trace entries keep the size but not the timestamp.
- Floating point is left out. `numBits` is modelled as `listSize * floor(log2(maxValue))`, which is exact for the power-of-two radix both configurations use. Integers are unbounded; JavaScript numbers are exact for these values because `128^5 = 2^35`.
- `randomBigInteger` (`Math.random`) is left out. The sent integer is a parameter.
- The browser sniff (`static/inner.js:59-66`) is left out. The browser is a parameter, and the Firefox pulse branch is a boolean. The unknown-browser case, with no constants, is not modelled.
- The `debug` logging, the DOM log, the command buttons, `run`'s ten-round driver loop and `main` are UI code and are left out. Only the arithmetic of `run`'s interval is modelled.
- `Pool.SocketPool.Consume`: the sweep builds the surviving sequence instead of deleting from the `Set` while iterating over it. Both give the same result because a JavaScript `Set` iteration visits the remaining elements in insertion order.
- `Clock.SameCellSameGridPoint` and `Clock.SampleInsidePulse` relate sleep targets only; how late each participant actually wakes, and so the gap between the two tabs' `t0` readings, depends on the timer and is a parameter (`late` in `Clock.SessionFitsInterval`), not modelled.
- `Protocol.SenderFreesTarget`: states the occupancy only for the non-Firefox branch with no socket dying. The Firefox branch and competing tabs make the size depend on the dead sets.

# A model of the galileo-terremoti sketch

A small seismometer program for single-board computers: it samples an accelerometer,
compares each sample with an adaptive threshold, sends alerts over HTTP, answers UDP
commands, keeps its clock with NTP, and is watched by a second process that reboots the
board. This project models the parts that compute something and proves what they promise.

| file | what it models |
|---|---|
| `Words.dfy` | bytes, 32-bit words, the wrapped millisecond counter, C strings |
| `Statistics.dfy` | mean, squared deviations, how many samples can exceed `mean + sigma * stddev` |
| `Seismometer.dfy` (module `Detection`) | one-pass statistics, threshold, alerts, probe counter, the seismometer object |
| `Watchdog.dfy` | the heartbeat protocol of two processes over one file |
| `Checksum.dfy` | the Internet checksum (RFC 1071) |
| `HttpHead.dfy` | `getLine`, the status line and the header loop |
| `Packet.dfy` (module `Packets`) | the 252-byte command packets |
| `CommandInterface.dfy` | the dispatcher, and a network of devices that reply to the port they listen on |
| `ConfigFile.dfy` | the saved configuration: printing, reading back, hexadecimal identifiers |
| `ServerConfig.dfy` | the `key:value` configuration sent by the server |
| `Ntp.dfy` | NTP synchronisation and interpolated UNIX time |
| `Sketch.dfy` | the main loop, and what it guarantees to the detector and the watchdog |

Objects that the program updates in place are classes; their methods are proved equal to
specification functions, about which the lemmas speak. The seismometer carries a ghost
history of everything that happened to it, so every lemma about histories is about the object.

## Assumptions

- `unsigned long`, `long` and `time_t` are 32 bits wide, as on the embedded targets; machines
  are little-endian. On LP64 the counter subtractions would not wrap at 2^32.
- The real-time clock is read as an unbounded true time in milliseconds; it never goes back
  and is not stepped (the NTP client also sets the system clock, which is not modelled).
- Statistics are over exact reals. `sqrt` is not defined: a tick carries the value that it
  returned, and `RootsComputed` says that it was the exact root.
- Writing the heartbeat file takes no time; watchdog checks for bounded detection are at most
  15 s apart.
- Fewer than 2^32 events reach one seismometer.
- `atof` may be any function from texts to numbers where it parses the server's sigma.
- Release build on Linux: no RESET, TRACE or crash reports.

## Things the proofs brought out

- A new threshold can be exceeded by k of the n samples it was computed from exactly when
  `k * n * sigma^2 < (n - 1) * (n - k)`. With the default sigma of 3 no sample of a period of
  ten or fewer can be above it, and one of eleven can.
- The watchdog tolerates exactly 40 s between heartbeat calls. A stale heartbeat file met
  within 20 s of a wrap of the millisecond counter is not rewritten at launch, and then a
  run with calls 40 s apart is rebooted.
- The logged reboot reason says that the sketch is not running exactly when it is running.
- A pass of the main loop that hangs for 76 s, as it does while the NTP server is silent, gets
  the living sketch rebooted.
- Alerts are the greedy selection for all runs exactly up to ticks 2^32 - 5000 ms apart; with a
  millisecond more the detector can miss an event.
- An HTTP head is read back exactly when every header has a name and every line of it fits into
  298 characters.
  A header line of 299 characters, or one with an empty name, ends the head early. A longer one
  sets a shortened value, and what follows its first 299 characters is read as another header
  line, which dereferences a null pointer if it has no colon. The loop condition looks at the
  buffer after the name has been cut off in it.
- Loading a saved configuration cuts the identifier to 90 characters and throws if nothing but
  blanks is left of it; an identifier of 190 characters costs the latitude its line.
- The base URL in the server's configuration is ignored unless it is the bare `http://`.
- Once NTP has accepted a packet with a time before July 2015 the call can only end by a
  failed name lookup. A configuration without `ntpserver` empties the server name.
- The layout comment in `CommandInterface.h` gives twelve bytes to the threshold; the code
  writes four, and the model follows the code.

## Model

| member | source | states |
|---|---|---|
| Words.ElapsedIsTrueTime | Utils.cpp:40-47 | the wrapped counter difference never exceeds the true one, and equals it exactly until the counter has gone round |
| Statistics.Welford | Seismometer.cpp:100-105 | the one-pass update yields the exact mean and sum of squared deviations of the extended sample |
| Statistics.OrderIndependent | Utils.cpp:129-137 | sums over samples, hence mean and deviations, do not depend on arrival order |
| Statistics.AboveThresholdBound | Seismometer.cpp:106-108 | k of n samples above mean + sigma * stddev force k * n * sigma^2 < (n - 1)(n - k) |
| Statistics.AboveThresholdSharp | Seismometer.cpp:106-108 | whenever that inequality holds some n samples have k above |
| Statistics.Chebyshev | Seismometer.cpp:106-108 | k * sigma^2 <= n - 1 |
| Statistics.Samuelson | Seismometer.cpp:106-108 | under (n - 1)^2 <= sigma^2 * n no sample is above |
| Statistics.SamuelsonPointwise | Seismometer.cpp:102-105 | every sample, on either side of the mean, satisfies n * (x - mean)^2 <= (n - 1) * M2, with equality exactly if the others all agree |
| Detection.TwoPassRadicand | Utils.cpp:129-137 | the loop of Utils::stddev computes the sample variance when given the mean |
| Detection.OnePassRefinesTwoPass | Seismometer.cpp:100-117 | after any interleaving of ticks, sigma changes and resets the fields are count, mean and squared deviations of the samples since the last reset; every tick folds in one |
| Detection.CurrentVarianceIsTwoPass | Seismometer.cpp:127-129 | the radicand of getCurrentSTDDEV is the two-pass variance of those samples in any order, and not negative |
| Detection.EverySampleNearMean | Seismometer.cpp:100-112 | after any history the fields satisfy that inequality for every sample since the last reset |
| Detection.ThresholdOverRun | Seismometer.cpp:100-117 | the threshold over any history: 1, or mean + sigma * stddev of the last period that had two samples as of its last sample |
| Detection.DefaultSigma | Seismometer.h:72 | sigma is 3 until one is set |
| Detection.RecomputedThresholdBounds | Seismometer.cpp:100-112 | Chebyshev, the sharp bound and Samuelson for the threshold a tick just computed |
| Detection.TenSamplesNeverExceed | Seismometer.h:71-72 | at sigma 3 no sample of a period of at most ten exceeds the new threshold |
| Detection.SpikesExceed | Seismometer.cpp:106-108 | after any history whose period is k spikes among zeros, k samples exceed the new threshold whenever the sharp bound allows k |
| Detection.ElevenSamplesCanExceed | Seismometer.h:71-72 | after any history at sigma 3 with a period of eleven samples, a lone spike exceeds the new threshold |
| Detection.SecondReadingIrrelevant | Seismometer.cpp:53-60 | the second clock reading of the hold-off test cannot change the outcome |
| Detection.AlertSpacing | Seismometer.cpp:53-74 | any two alerts are at least 5000 ms apart in true time, across counter wraps |
| Detection.UnalertedIsHeldOff | Seismometer.cpp:39-74 | only over-threshold samples alert, with their own record; one that does not is within 5000 ms (mod 2^32) of the latest alert |
| Detection.AlertsExactly | Seismometer.cpp:53-74 | in every history, whatever the clock readings, a sample alerts if and only if it is over the threshold and some tick since the latest alert, itself included, has read the wrapped counter 5000 ms after it |
| Detection.AlertsAreGreedy | Seismometer.cpp:53-74 | with ticks at most 2^32 - 5000 ms apart, a sample alerts if and only if it is over the threshold and every earlier alert is 5000 ms old in true time |
| Detection.GreedyExactly | Seismometer.cpp:53-74 | a bound on the time between ticks makes the alerts of every run greedy if and only if it is at most 2^32 - 5000 ms |
| Detection.ProbeConservation | Seismometer.cpp:46-51 | ticks = sum of published probe speeds + current counter; statProbeSpeed is the latest published value |
| Detection.ProbeSpeedBound | Seismometer.cpp:46-51 | published speeds are at most 21, the first at most 22, if ticks are 50 ms apart |
| Detection.PublishesExactly | Seismometer.cpp:46-51 | a tick publishes if and only if more than 1000 ms (modulo 2^32) have passed since the latest publication was stamped, and the value is the number of ticks since then |
| Detection.PublicationSpacing | Seismometer.cpp:46-51 | two publications are more than 1000 ms of true time apart |
| Detection.ProbeSpeedFloor | Seismometer.cpp:46-51 | with instantaneous ticks at most g ms apart every speed after the first is more than 1000 / g |
| Detection.Seismometer.AddValueToAvgVar | Seismometer.cpp:100-112 | updates the fields as the one-pass specification does |
| Detection.Seismometer.TickOnce | Seismometer.cpp:29-75 | extends the history by one sample, returns that step's alert, does nothing without an accelerometer |
| Detection.Seismometer.SetSigmaIter | Seismometer.cpp:96-98 | extends the history by a sigma change; the threshold is not recomputed |
| Detection.Seismometer.ResetLastPeriod | Seismometer.cpp:113-117 | extends the history by a reset; the threshold stays |
| Watchdog.NeverMissed | Watchdog.cpp:90-115 | in every run with calls at most 40 s apart from a good start no check reboots a living sketch |
| Watchdog.GoodStartIsNecessary | Watchdog.cpp:47-51 | from any other start some such run is rebooted |
| Watchdog.SafePeriodIsExact | Watchdog.cpp:140-156 | a period between calls is safe for all runs if and only if it is at most 40000 ms |
| Watchdog.SilenceIsDetected | Watchdog.cpp:90-128 | a file last written at m is met by a reboot before m + 76000 ms |
| Watchdog.DetectionBoundIsTight | Watchdog.cpp:90-115 | 76000 ms cannot be improved |
| Watchdog.DeathIsDetected | Watchdog.cpp:90-115 | if the process is gone from m on, a check before m + 15000 ms reboots, whatever the file is like |
| Watchdog.RebootExactly | Watchdog.cpp:97-127 | no reboot exactly if the process lives and the file is absent or not older than 60 s by the second; otherwise one of three reasons |
| Watchdog.ReasonMisreportsSketch | Watchdog.cpp:115-123 | the logged reason claims a dead sketch exactly when it is alive |
| Watchdog.BeatExactly | Watchdog.cpp:140-156 | in true time, the file is rewritten exactly when more than 20000 ms have passed since the last write, and a failure removes it without delaying the next attempt |
| Watchdog.Heart.Beat | Watchdog.cpp:140-156 | rewrites the file and lastBeat after more than 20 s, unlinks it and asks for a reboot if it cannot be opened |
| Watchdog.Monitor | Watchdog.cpp:90-128 | the loop reaches the specified verdict in every round |
| Checksum.Compute | net/NetworkManager.cpp:142-155 | for any length the wrapped sum folded twice; up to 131074 bytes the complement of the one's-complement sum |
| Checksum.CorrectExactlyWhenSumFits | net/NetworkManager.cpp:142-155 | for every int length the result is the Internet checksum if and only if the word sum is below 2^32 |
| Checksum.LengthBound | net/NetworkManager.cpp:142-148 | every buffer up to 131074 bytes is summed correctly, and one of 131076 is not |
| Checksum.TwoFolds | net/NetworkManager.cpp:152-154 | two folds suffice for every 32-bit accumulator |
| Checksum.StoredChecksumVerifies | net/NetworkManager.cpp:116 | storing the result in a zeroed aligned word makes the checksum of the whole zero |
| Checksum.SingleWordChangeDetected | net/NetworkManager.cpp:142-155 | a change of one word of a verified buffer is noticed, except between 0x0000 and 0xFFFF |
| Checksum.WordOrderIrrelevant | net/NetworkManager.cpp:146-148 | permuting words does not change the result |
| Checksum.PartialSums | net/NetworkManager.cpp:146-154 | a buffer split at an even offset is the one's-complement sum of its parts |
| Checksum.OddByteIsPadded | net/NetworkManager.cpp:149-151 | an odd last byte counts as a word with a zero behind it |
| Checksum.OneWord | net/NetworkManager.cpp:146-154 | the result for no word and for one word, low byte first |
| Checksum.ByteOrderIndependence | net/NetworkManager.cpp:146-154 | swapping the bytes of every word swaps those of the result |
| HttpHead.ScanDeletesCr | net/HTTPClient.cpp:327-356 | a line is the stream to the first LF with CRs deleted, if it fits |
| HttpHead.LineReadBack | net/HTTPClient.cpp:327-356 | a clean text ended by CR LF is read back exactly when it leaves room for the end |
| HttpHead.GetLine | net/HTTPClient.cpp:327-360 | the loop with its step back fills the buffer with that line, zeros behind it, and leaves the stream after it, for every stream |
| HttpHead.Tcp.ReadChar | net/Tcp.cpp:143-152 | the next byte as a char, signed or not, -1 at the end, 0 without a connection |
| HttpHead.ReadHeader | net/HTTPClient.cpp:170-181 | one pass of the header loop, cutting the buffer in place, is one step of the specification |
| HttpHead.ReadResponse | net/HTTPClient.cpp:158-190 | the method reads what the specified parser reads and leaves the stream at the body |
| HttpHead.CodeReadBack | net/HTTPClient.cpp:95-101 | three digits printed in the status line are the response code |
| HttpHead.OtherCodes | net/HTTPClient.cpp:95-101 | the code when its first column is a blank, a sign or anything else |
| HttpHead.MalformedExactly | net/HTTPClient.cpp:161-190 | a response is malformed exactly if its first line does not start with HTTP/1. |
| HttpHead.HeadRoundTrip | net/HTTPClient.cpp:161-181 | printing a head and reading it yields code, last-wins headers and exactly the body, if and only if every line has at most 298 characters and every header a name; an unfit header must not be masked by a later one of its name |
| HttpHead.LineOutcome | net/HTTPClient.cpp:170-181 | what the header loop does with a clean line of any length: pieces of 299, each a header, the end of the head or a null dereference |
| HttpHead.BlankIsOptional | net/HTTPClient.cpp:175-179 | the value is read with one blank behind the colon skipped, if there is any |
| HttpHead.NulHidesRest | net/HTTPClient.cpp:170-181 | a NUL in a line hides the rest of the line |
| HttpHead.TruncatedHead | net/HTTPClient.cpp:327-356 | when the stream ends within the head, what has arrived counts, a partial line included |
| HttpHead.OverlongHeader | net/HTTPClient.cpp:327-356 | a header line of 299 or more characters sets a value cut to the first 299 and leaves its rest as another line; without a colon in 299 it crashes |
| HttpHead.OverlongStatus | net/HTTPClient.cpp:158-170 | a status line of 299 characters ends the head, a longer one without a colon in its rest crashes the parser |
| HttpHead.MaskedHeader | net/HTTPClient.cpp:170-181 | a too long header followed by one of its name can go unnoticed |
| HttpHead.EmptyNameEndsTheHead | net/HTTPClient.cpp:170-181 | a header with an empty name ends the head |
| HttpHead.MissingColonCrashes | net/HTTPClient.cpp:173-174 | a non-empty line without a colon dereferences null |
| Packets.SendPacket | CommandInterface.cpp:56-117 | the in-place writes at the advancing offset produce the layout, within the array |
| Packets.Strncpy | CommandInterface.cpp:103-110 | padding disturbs nothing; what stays is the cut string and one more byte |
| Packets.InfoRoundTrip | CommandInterface.cpp:72-114 | a reader recovers every field of a GETINFO reply, strings cut to 169, 19 and 9, if and only if the kept characters contain no NUL |
| Packets.InfoBytes | CommandInterface.cpp:72-114 | every field of a GETINFO reply by its byte offset, the strings each with a NUL |
| Packets.DiscoveryReadBack | CommandInterface.cpp:63-71 | MAC, version and eight characters of the tag are read back |
| Packets.GpsReadBack | CommandInterface.cpp:35-45 | a SENDGPS packet in network byte order is read as the MAC and bit patterns sent |
| Packets.SyslogReadBack | CommandInterface.cpp:45-49 | the syslog address is taken in memory order |
| Packets.ReadExactly | CommandInterface.cpp:23-54 | exactly the full datagrams with the magic bytes are read, and their fields by byte offset and order |
| Packets.SentIsRead | CommandInterface.cpp:30-54 | every packet sent is read by another device as the same type |
| CommandInterface.ReactionBounds | CommandInterface.cpp:127-227 | replies never trigger replies; at most two per command, two only for a REBOOT that returns; identity fixed, position only by a SENDGPS naming the device |
| CommandInterface.Dispatcher.CheckCommandPacket | CommandInterface.cpp:120-228 | the switch has that effect and addresses the encoded replies to the sender at the command port |
| CommandInterface.OthersAreIgnored | CommandInterface.cpp:123-227 | short datagrams, other magic bytes and other types are answered by nothing and change nothing |
| CommandInterface.PingIsAnswered | CommandInterface.cpp:135-141 | from datagram to reply bytes: a PING is answered by one PONG |
| CommandInterface.DiscoveryIsAnswered | CommandInterface.cpp:128-134 | a DISCOVERY is answered by one packet with the device's MAC, version and tag |
| CommandInterface.SyslogIsStored | CommandInterface.cpp:174-180 | a SETSYSLOG is answered by OK; zero disables syslog and keeps the address, any other address shows in later GETINFO replies |
| CommandInterface.RebootIsAnswered | CommandInterface.cpp:181-191 | a REBOOT is answered by OK, and by a GETINFO reply behind it if the reboot returns |
| CommandInterface.GetInfoIsAnswered | CommandInterface.cpp:192-211 | a GETINFO request is answered by one packet with the device's data at fixed offsets, which also reads back as that data |
| CommandInterface.GpsIsStored | CommandInterface.cpp:158-173 | a SENDGPS packet naming the device sets its position and is answered by OK; any other changes nothing |
| CommandInterface.DeliveryIsDispatch | CommandInterface.cpp:116-228 | a step of the network is the dispatcher's effect on the addressed device, with the answers sent back to port 62001 |
| CommandInterface.TrafficQuiesces | CommandInterface.cpp:116-228 | in any network and order each command causes at most two further packets, and in flight + 2 * commands strictly decreases |
| CommandInterface.RepliesChangeNothing | CommandInterface.cpp:225-227 | without commands in flight no device changes or sends |
| ConfigFile.CoordinateReadBack | Config.cpp:83-88 | eight characters of a printed coordinate read back as the coordinate cut towards zero at a fixed place |
| ConfigFile.FixedExactly | Config.cpp:109-113 | the whole printed numeral is worth the coordinate and has six decimals |
| ConfigFile.HandWritten | Utils.cpp:103-118 | a numeral with blanks, sign, digits, perhaps a fraction and other text behind it is worth its digits |
| ConfigFile.TruncationError | Config.cpp:109-113 | up to 180 degrees the coordinate cut at the decimal place given by its size and sign; the error is towards zero and below a thousandth; only -9 to -1 micro-degrees become zero |
| ConfigFile.TruncatedTwice | Config.cpp:83-88 | cutting again changes nothing |
| ConfigFile.MacReadBack | Utils.cpp:275-283 | the bytes printed as hexadecimal are read back |
| ConfigFile.CapitalsReadBack | Config.cpp:34-41 | so are they in capital letters |
| ConfigFile.PairExactly | Config.cpp:34-41 | the value of any two characters: digits up to the first other character, after at most one blank or sign |
| ConfigFile.HexValueExactly | Config.cpp:39 | which characters are hexadecimal digits |
| ConfigFile.GetMacAddressAsByte | Config.cpp:34-41 | fills the array with the strtol value of each pair of characters |
| ConfigFile.TrimArgument | Utils.cpp:171-175 | a printed argument is trimmed back to itself, an empty one throws |
| ConfigFile.TrimCarriageReturn | Config.cpp:76-78 | a carriage return before the line end is trimmed as well |
| ConfigFile.AnyLine | Config.cpp:72-91 | the effect of any line key:argument: the first characters of the key decide |
| ConfigFile.SavedText | Config.cpp:96-116 | the saved file, character by character |
| ConfigFile.SaveThenLoad | Config.cpp:61-116 | loading a saved configuration over any prior one: coordinates cut, identifier back as far as a line holds it and if twelve characters are left, an exception exactly if nothing is left, latitude lost exactly from 190 characters on |
| ConfigFile.ReloadIsIdempotent | Config.cpp:61-116 | once loaded, a configuration with a long enough identifier comes back unchanged from every further save and load, over any other settings |
| ConfigFile.MacThroughFile | Config.cpp:34-41 | the six bytes of a printed MAC address come back through the file |
| ConfigFile.Config.Save | Config.cpp:96-116 | writes the specified text, each line cut by the print buffer |
| ConfigFile.Config.ReadConfigFile | Config.cpp:61-94 | the line loop leaves the fields that the specified reader computes, or lets the exception escape |
| ServerConfig.ConfigSplit | Config.cpp:171-196 | the loop builds the specified map |
| ServerConfig.SplitOfJoin | Config.cpp:171-185 | splitting a joined list gives its last-wins map; colons in values survive, items without one are ignored |
| ServerConfig.MeaningIsLast | Config.cpp:171-185 | a key in that map means the value of its last pair |
| ServerConfig.CheckServerConfig | Config.cpp:131-169 | an accepted configuration sets the parsed sigma, or the current one again, and resets the period without touching the threshold; it asks for path, base URL, NTP server and tracing as specified; others change nothing |
| ServerConfig.PrintedConfigApplied | Config.cpp:131-169 | a printed list is rejected exactly if it has no pair; otherwise path, ntpserver, base URL, trace and sigma come each from the last value under its own key, and a missing ntpserver empties the server name |
| ServerConfig.BaseUrlIgnored | Config.cpp:147-150 | a base URL is set if and only if the list names the bare scheme |
| Ntp.EpochEras | net/NTP.cpp:115-118 | the 32-bit epoch is right for era 0 from its second 61505152 (December 1901) and for the first 61505152 seconds of era 1 (RFC 5905, section 6), and passes the plausibility test only for these |
| Ntp.Hton64 | Utils.cpp:143-155 | the loop reads four bytes most significant first |
| Ntp.SyncReturnsTrueOnlyIfSet | net/NTP.cpp:87-133 | true is returned only with a clock set in this call from a full packet to a time not too early |
| Ntp.EarlyPacketBlocks | net/NTP.cpp:99-131 | after an early packet the call ends only by a failed lookup, with false |
| Ntp.AnswerIsTaken | net/NTP.cpp:99-132 | the first full packet polled less than 5000 ms after a request sets the clock to its bytes 40 to 43 less 2208988800, and the call returns true if and only if that is not too early |
| Ntp.NoAnswer | net/NTP.cpp:110-132 | without such a packet the call returns false with the clock as it was, or goes on if that is not plausible |
| Ntp.InterpolatedClock | net/NTP.cpp:68-76 | interpolated time is exact if and only if fewer than 2^32 ms have passed, and is the millisecond time divided by 1000 |
| Ntp.InterpolatedClockMonotone | net/NTP.cpp:68-71 | within that time it never goes backwards |
| Ntp.TimeAfterSync | net/NTP.cpp:68-133 | after a successful call the time is the packet's time plus true elapsed seconds |
| Ntp.NtpClient.Sync | net/NTP.cpp:87-133 | the nested loops have the specified result |
| Sketch.TaskKeepsInterval | galileo-core.cpp:243-268 | a task runs only its interval after its latest run ended, in true time, and does run then until the counter has gone round |
| Sketch.PassEffect | galileo-core.cpp:255-268 | what a pass adds to the detector's history: a due configuration, then a due tick |
| Sketch.MainLoop.Loop | galileo-core.cpp:235-268 | one pass beats, polls the configuration and ticks as specified, and asks for a reboot exactly if the file cannot be written or the interface has no MAC address when checked |
| Sketch.LoopSpacesTicks | galileo-core.cpp:265-268 | passes of any bounded length (over sixteen days), after any configuration in the first phase, tick the detector in order, 50 ms apart, and never too far apart |
| Sketch.LoopDetects | galileo-core.cpp:235-279 | over whole runs of such passes probe speeds are bounded and alerts are the greedy selection |
| Sketch.WatchdogQuietDuringLoop | Watchdog.cpp:47-51 | over whole runs from launch on, with at most 40 s from heartbeat call to call, the watchdog never reboots the living sketch |
| Sketch.LongPassIsRebooted | galileo-core.cpp:260-263 | a pass that hangs for 76 s is met by a check that reboots the living sketch |

## Left out

- Sockets, name lookups, raw ICMP, `popen`, fork, signals, LEDs, logs, traces and vendor code: inputs or outputs of the model.
- Floating-point rounding; float fields travel as bit patterns, coordinates are whole micro-degrees.
- `atof` beyond fixed-point numerals (exponents, hexadecimal, infinities), and decimals after the sixth: the saved file has none.
- NaN: the standard deviation of a single sample (0/0) is only logged and traced, and is a precondition where it would be taken.
- Clock steps, among them the one NTP itself makes through the date command.
- The first phase of the program: it enters as the configuration events and heartbeat calls before the loop. It can wait for the server without a heartbeat; that it does not for 40 s is an assumption about `WatchdogQuietDuringLoop`.
- Duplicated datagrams; lost ones are a run that stops delivering.
- `getLine` with a byte count, response bodies, `hostFromURL`, `httpPostFile`.
- The daily log rotation, which is never re-armed, and the order of tasks other than their clock readings.
- ServerConfig.CheckServerConfig: the firmware upgrade, the base URL and tracing are requests in its result, not carried out.
- ConfigFile.SaveThenLoad: identifiers with line ends or NULs, and colons beyond the 90th character, which would make a piece of the identifier a configuration line.
- HttpHead.HeadRoundTrip: status lines with a colon beyond the 299th character, whose rest is read as headers that later ones may mask.
- HttpHead.GetLine: a connection that is closed while a line is read.
- Watchdog.Monitor: the sleep, the tests of file and process and the endless loop are a finite list of observations.
- Sketch.MainLoop.Loop: command packets (which touch no timer and not the detector), the LEDs and log rotation.
- HttpHead.ReadHeaderLoop: a null dereference is modelled as an outcome that ends the parse.

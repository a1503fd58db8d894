# A verified model of the esp32-ntp firmware

esp32-ntp is a GPS-disciplined NTP server on an ESP32 with a W5500 Ethernet chip. This project
models its clock core, its DHCP client, its MQTT codec and publisher, its W5500 ring drivers and
its settings store, and proves what they promise over every input, schedule and run.

| file | component |
|---|---|
| MachineInts.dfy, Buffers.dfy | fixed-width integers, big-endian bytes, buffer writes |
| Seqlock.dfy | odd/even sequence hand-off between interrupt handlers and tasks |
| LeastSquares.dfy, CaptureFit.dfy | the sliding capture fit and the theory it is proved against |
| GpsDiscipline.dfy, GpsRuns.dfy, GpsPairing.dfy | PPS/NMEA pairing against true seconds, guards, tick timeline, anchor, captured times |
| Holdover.dfy, HoldoverRuns.dfy | root dispersion and the lock decision while coasting, as functions and over runs |
| Calendar.dfy, Nmea.dfy | civil date to Unix time, NMEA checksum and RMC parsing |
| NtpTimestamp.dfy, NtpServer.dfy, NtpChain.dfy, NtpReply.dfy | 32.32 timestamps, the reply path, the RFC 9769 chain, the reply in wire bytes |
| PpsHandoff.dfy | the last pulse as stored on one core and read on the other |
| MqttWire.dfy, MqttPublisher.dfy, MqttStream.dfy, MqttDuties.dfy | MQTT 3.1.1 codec, non-blocking publisher, what the broker sees, which packet is due |
| DhcpCodec.dfy, DhcpClient.dfy, DhcpSafety.dfy, DhcpLifecycle.dfy, DhcpWire.dfy | DHCP messages, client, binding safety, timing, from datagram to frame |
| W5500Ring.dfy, W5500Spi.dfy | socket rings, fast and plain send and receive, SPI framing |
| ConfigStore.dfy, ConfigRuns.dfy, ConfigText.dfy | flash-backed settings, and the texts they are read from |

Objects that the firmware updates in place are classes whose methods are proved equal to step
functions on the value of their fields (`View()`); the theorems are about those functions over
whole runs. Interrupts, the broker, the DHCP server, flash failures and the chip are environment
inputs of each step, arbitrary unless a lemma says otherwise. `double` is exact `real`.

## Where the code differs from its documentation or intent

Each is stated with the exact condition, not worked around.

- RFC 9769 section 2 forbids transmit equal to receive in a reply. The code enforces it for the
  saved pair only. Basic, interleaved and Kiss-o'-Death replies all can carry equal stamps; the
  exact condition for each is `EqualStampsByMode`, in wall seconds for an unlocked server
  `UnlockedEqualStamps`, and `InterleavedEqualStamps` is a run. The blocking transmit path leaves
  t3 uncalibrated (`Turnaround`).
- The comment on bucket collisions calls them harmless because receive times differ. Unlocked,
  all requests of one second get the same receive time, and a client can be answered with the time
  measured for another one (`ForeignTimestampServed`; exact condition `NoForeignTimestamp`).
- The last pulse is read without a sequence word on another core than the one that stores it. A
  read is whole exactly under `WholeRead`; otherwise a reply can be served a whole second ahead
  (`TornReadExists`, `TornServedTime`).
- The initial bucket second, said never to occur, does (`InitialSecondOccurs`); the request counts
  are right all the same (`CountsAreTrailing`).
- `MQTTPacket_readnb` returns the type nibble, so a completed type-0 packet looks unfinished and is
  skipped (`ZeroTypeLooksUnfinished`). A CONNACK shorter than two bytes is judged by whatever byte
  the buffer held before (`ConnackVerdict`, `CodelessConnackAccepted`).
- CONNECT is the first packet exactly when it fits the 768-byte staging buffer
  (`StreamIntegrity`, `OversizedConnectIsSkipped`).
- The 20 s gap guard does not bound the distance between pushed pulses, because outlier pulses move
  its reference (`OutliersHideTheGap`); the timeline is right exactly below 2^31 ticks
  (`PushTimeline`).
- A pulse is paired with the sentence at hand when it is handled, not at its edge: handled after the
  sentence of its own second, it is published one second ahead (`LateHandlingIsAhead`; exact
  condition `PairedWithTrueSecond`).
- Root dispersion steps down just after 2.5 s, so a lock lost at that single instant returns for
  an RMS in a narrow band (`LostLockReturns`; over runs `HoldoverRuns.LostLockStaysLost`).
- The reported residual prediction a*T^2/12 overshoots a ramp's residual once the ring is full, but
  falls short of it while the ring is filling, because the slopes it compares then come from
  windows with one common start (`RampPrediction`, `PredictionGapCases`).
- Default T1 and T2 are ordered only for leases of at least 8 s, or of 1 s (`DefaultTimersOrdered`).
  A refusal erases the cached lease only while rebooting (`RefusalAndCache`).
- The fast ring write drops bursts over 61 bytes although the write pointer moves (`FastStageLimit`);
  `8 + plen` wraps for a length field above 65527 (`ConsumedExact`).
- The settings lock refuses values starting with `1` while no password is set, not the number one
  (`LockWithoutPassword`, `PlusOneLocks`).

## Model

| member | source | states |
|---|---|---|
| Seqlock.RunKeepsInv | components/gps/gps.cpp:141-148 | under every interleaving of publisher and reader accesses the invariant tying sequence word, memory and publish history holds |
| Seqlock.SnapshotsAreWhole | components/gps/gps.cpp:269-285 | a successful read with fewer than 2^31 publishes inside it returns the words of exactly one publish, the one current at its start, under an even sequence number |
| Seqlock.DifferenceOfTwoBracketsOnePublish | components/ntp_server/ntp_server.cpp:809-810 | sequence numbers of two snapshots differ by 2 if and only if exactly one publish lies between them, and both values are consecutive publishes |
| Seqlock.ReadsReturn | components/ntp_server/ntp_server.cpp:170-180 | a bounded-retry read ends within a fixed number of its own steps under every schedule of publishes |
| Seqlock.WindowBoundIsTight | components/gps/gps.cpp:640-650 | with exactly 2^31 publishes inside one read a torn value is accepted, so the bound cannot be weakened |
| LeastSquares.LeastSquaresIsOptimal | components/gps/gps.cpp:193-226 | the line through the means with slope Sxy/Sxx is the unique minimiser of the squared deviations among all lines |
| LeastSquares.NormalLineIsFit | components/gps/gps.cpp:193-226 | any line with vanishing deviation and moment sums is the fitted line |
| LeastSquares.RebaseInvariant | components/gps/gps.cpp:196-204 | slope and newest residual do not change when all points are shifted |
| LeastSquares.CollinearIsExact | components/gps/gps.cpp:193-226 | collinear points give their exact slope, intercept and residual 0 |
| LeastSquares.SpansExactly | components/gps/gps.cpp:206-216 | a line is determined if and only if two points differ in x |
| LeastSquares.RampFit | components/gps/gps.cpp:757-764 | closed form of slope and newest residual for samples of a constant frequency ramp |
| CaptureFit.Fit.constructor | components/gps/gps.cpp:178-184 | the ring starts empty at the nominal rate |
| CaptureFit.Fit.Reset | components/gps/gps.cpp:178-184 | the ring is emptied and rate and residual return to nominal |
| CaptureFit.Fit.Push | components/gps/gps.cpp:186-191 | the ring holds the last 240 of the old samples and the new one, in order |
| CaptureFit.Fit.Solve | components/gps/gps.cpp:193-226 | succeeds exactly on at least 16 spanning samples with a plausible slope and then stores the least-squares slope and newest residual; otherwise nothing changes |
| CaptureFit.Fit.FitLine | components/gps/gps.cpp:196-226 | slope and residual of the two-pass accumulation equal those of the rebased points |
| CaptureFit.Fit.Means | components/gps/gps.cpp:199-205 | the first loop computes the means of the rebased samples |
| CaptureFit.Fit.SecondMoments | components/gps/gps.cpp:206-213 | the second loop computes the centred second moments |
| CaptureFit.WindowIsLastPushes | components/gps/gps.cpp:186-191 | after any sequence of pushes the window is the last min(n, 240) of them, in order |
| CaptureFit.SolveIsLeastSquares | components/gps/gps.cpp:193-226 | no other line, of any slope and intercept, fits the window better than the solved one |
| CaptureFit.SolvableExactly | components/gps/gps.cpp:193-226 | solving succeeds if and only if there are at least 16 samples, of at least two different seconds, and the least-squares slope is within 500 ppm of 80 MHz |
| CaptureFit.PlausibleWithin500Ppm | components/gps/gps.cpp:216-219 | the plausible slopes are those within 500 ppm of the nominal 80 MHz |
| CaptureFit.RebaseChoiceIrrelevant | components/gps/gps.cpp:196-204 | rebasing on any other sample of the window gives the same slope and residual |
| CaptureFit.CollinearSamples | components/gps/gps.cpp:193-226 | collinear samples give their exact rate and no residual |
| CaptureFit.RampWindowFit | components/gps/gps.cpp:757-772 | slope and residual of any window of a frequency-ramp stream |
| CaptureFit.ObservedWindow | components/gps/gps.cpp:186-191 | after any observations the window is the last min(n, 240) samples, whatever the tracker did |
| CaptureFit.TrackOnRamp | components/gps/gps.cpp:765-772 | over every run of pushes on a ramp the tracker compares at every 60th solve, and the drift in force is that between the slopes of the last comparison and the one 60 pushes before |
| CaptureFit.RampPrediction | components/gps/gps.cpp:919-930 | over every such run from an empty ring, after two comparisons: the newest residual is A(n-1)(n-2)/12 ticks for the n samples held, the measured drift is A times the share s of the windows compared, and the reported a*T^2/12 differs from the residual by exactly abs(A)(s n^2 - (n-1)(n-2))/12 |
| CaptureFit.PredictionGapCases | components/gps/gps.cpp:919-930 | once both windows compared were full (s = 1) the report overshoots by abs(A)*718/12; while the ring is filling (s = 1/2) it falls short by abs(A)(n^2/2 - 3n + 2)/12 |
| GpsDiscipline.Discipline.constructor | components/gps/gps.cpp:60-79 | the boot state |
| GpsDiscipline.Discipline.FitReset | components/gps/gps.cpp:704-705 | fit and tick timeline restart, nothing else changes |
| GpsDiscipline.Discipline.Push | components/gps/gps.cpp:743-751 | unwraps the counter and pushes the sample |
| GpsDiscipline.Discipline.Refit | components/gps/gps.cpp:752-772 | a successful solve validates the fit and feeds the drift tracker, a failed one invalidates it |
| GpsDiscipline.Discipline.TrackSlope | components/gps/gps.cpp:765-772 | every 60th slope is compared with the last kept one and kept |
| GpsDiscipline.Discipline.PublishAnchor | components/gps/gps.cpp:804-828 | last-PPS fields and the anchor tuple take the pulse's calibrated second together |
| GpsDiscipline.Discipline.Relock | components/gps/gps.cpp:830-838 | holdover ends and the last-good time and lock are set |
| GpsDiscipline.Discipline.StampPulse | components/gps/gps.cpp:807-816 | second and microseconds with the signed calibration floored |
| GpsDiscipline.Discipline.CheckPairing | components/gps/gps.cpp:684-708 | skips, or restarts the fit after a persistent step, or lets the pulse through |
| GpsDiscipline.Discipline.Guards | components/gps/gps.cpp:715-735 | the outlier gate and the gap guard |
| GpsDiscipline.Discipline.Use | components/gps/gps.cpp:715-898 | guards, then push and refit, publish, filter and count |
| GpsDiscipline.Discipline.NoteRms | components/gps/gps.cpp:846-852 | the filtered RMS takes clean pulses with a valid fit only |
| GpsDiscipline.Discipline.FinishPulse | components/gps/gps.cpp:854-898 | pulse count and interval references; after the warmup pulse the reference and the filtered RMS start over |
| GpsDiscipline.Discipline.HandlePps | components/gps/gps.cpp:672-917 | one handled pulse equals the step function in every branch, stale NMEA included |
| GpsDiscipline.Discipline.RunLoop | components/gps/gps.cpp:1007-1020 | one loop equals the pulse step followed by the holdover check |
| GpsDiscipline.Discipline.EnterHoldover | components/gps/gps.cpp:1010-1017 | holdover beyond 2.5 s, and with it an invalid fit |
| GpsRuns.RunSound | components/gps/gps.cpp:684-838 | in every run anchor, last-PPS and last-good fields agree, the streak counts the pulses just skipped, and holdover implies an invalid fit |
| GpsRuns.PairingSafety | components/gps/gps.cpp:684-708 | while locked a pulse is skipped exactly when its second is more than 0.5 s from the running clock and the two pulses before it were not both skipped |
| GpsPairing.FreshnessExact | components/gps/gps.cpp:669-673 | from boot with one RMC sentence, a pulse is used if and only if it is handled at or after the sentence and less than 1,500,000 us later |
| GpsPairing.PairedWithTrueSecond | components/gps/gps.cpp:669-708 | in every run in which each RMC sentence of second S arrives at most 0.5 s after the edge of S and not before it, a paired pulse of true second T is taken for T if and only if no sentence arrived between its edge and its handling; accepted, it then publishes T, calibrated |
| GpsPairing.LateHandlingIsAhead | components/gps/gps.cpp:669-673 | a prompt sentence and a pulse whose handling waits until after it, which publishes one second ahead |
| GpsPairing.WindowAfterPulse | components/gps/gps.cpp:715-752 | the window after an accepted pulse in true ticks: restarted after a gap of more than 20 s or a third contradiction of the running clock, unchanged if the interval is not 0.9 to 1.1 s, else extended by the pulse, at most 240 kept |
| GpsPairing.OtherPulses | components/gps/gps.cpp:690-700 | a skipped pulse changes the streak and the interval references only; a pulse without fresh time forgets window, timeline and interval and nothing that is reported |
| GpsPairing.AccumulatorsAfterPulse | components/gps/gps.cpp:846-898 | every accepted pulse counts, the 20th clears RMS and gap reference once, and only an on-beat pulse with a valid fit sets the RMS |
| GpsRuns.AnchorMovesTogether | components/gps/gps.cpp:804-838 | an accepted pulse replaces anchor, last-PPS fields, last-good time and lock together; any other pulse changes none of them |
| GpsRuns.HoldoverStandsDown | components/gps/gps.cpp:1007-1020 | after every loop more than 2.5 s without a good pulse means holdover, holdover means no valid fit, and no captured tick is converted |
| GpsRuns.PushIsObserved | components/gps/gps.cpp:742-772 | a pushed pulse is one observation of the capture fit and its drift tracker |
| GpsRuns.TickTimeline | components/gps/gps.cpp:742-751 | with fewer than 2^31 ticks between successive pushed pulses the extended tick is the true elapsed count over the whole run and the window holds the true ticks of the last 240 pushed pulses |
| GpsRuns.PushTimeline | components/gps/gps.cpp:742-751 | pushing onto a true timeline keeps it true if and only if fewer than 2^31 ticks separate the two pulses |
| GpsRuns.OutliersHideTheGap | components/gps/gps.cpp:717-751 | a run from boot with pulses at seconds 0, 15, 30 and 31: two rejected inside the gap guard, after which the last good pulse is placed 2^32 ticks short |
| GpsRuns.CaptureExact | components/gps/gps.cpp:291-327 | a captured tick within 1.6e9 ticks of the anchor becomes anchor plus distance over rate, rounded down to 2^-32 s; one further out is refused |
| GpsRuns.PpsStampExact | components/gps/gps.cpp:807-816 | the published timestamp is the pulse's second plus the signed calibration, rounded down to 2^-32 s |
| Holdover.DispersionIncreases | components/gps/gps.cpp:964-992 | beyond 2.5 s without an accepted pulse root dispersion strictly increases |
| Holdover.DispersionAnchors | components/gps/gps.cpp:972-991 | without lock dispersion is one second; with it the absolute RMS plus 16 us at the pulse, within 0.25 us of that while fresh, and beyond 2.5 s plus the accumulated error |
| Holdover.GrowthIsAccumulatedError | components/gps/gps.cpp:985-991 | the growth between two instants of coasting is their distance times the drift accumulated over 140 s plus their mean |
| Holdover.DriftExactly | components/gps/gps.cpp:985-987 | the drift that counts is the larger of the measured one in ppm per second and half a ppm per hour |
| Holdover.LostLockReturns | components/gps/gps.cpp:972-1001 | with fixed RMS and drift a lost lock returns if and only if it was lost at 2.5 s exactly and the RMS lies in [0.00998375, 0.009984 - growth at 2.500001 s) |
| Holdover.ReturnBand | components/gps/gps.cpp:972-1000 | that band is not empty: it holds 9983.9 us at the floor drift |
| Holdover.LockedThroughout | components/gps/gps.cpp:994-1001 | locked during all of a coast if and only if locked at its end and, when it reaches 2.5 s, the RMS is below 9.98375 ms |
| Holdover.FullHourAtFloor | components/gps/gps.cpp:983-1001 | with drift at the floor the lock lasts the full hour if and only if the RMS is below 9.014 ms |
| Holdover.WorseNeverLonger | components/gps/gps.cpp:983-1001 | more drift or RMS never lengthens a holdover |
| HoldoverRuns.ReferenceIsLastAccepted | components/gps/gps.cpp:804-838 | in every run the lock flag is set once a pulse was accepted, and last-good time and anchor are those of the last accepted pulse |
| HoldoverRuns.ReportedAtPulse | components/gps/gps.cpp:972-1001 | in every run: a second of dispersion and no lock before any pulse was accepted; at an accepted pulse the filtered RMS plus 16 us, and lock |
| HoldoverRuns.CoastingDispersion | components/gps/gps.cpp:964-992 | over every stretch of a run without an accepted pulse dispersion strictly increases from 2.5 s after the last one on |
| HoldoverRuns.LostLockStaysLost | components/gps/gps.cpp:994-1001 | a lock lost in such a stretch returns within it if and only if it was looked at exactly 2.5 s after the last accepted pulse and the filtered RMS lies in that band |
| HoldoverRuns.NeverBeyondAnHour | components/gps/gps.cpp:994-1001 | in every run, whenever lock is claimed a pulse was accepted at most one hour before |
| HoldoverRuns.CaptureConverted | components/gps/gps.cpp:291-320 | in every run a captured tick is converted if and only if the fit is valid, a pulse was accepted at most 20 s before and the tick lies within 1.6e9 ticks of that pulse |
| Calendar.NextDay | components/gps/gps.cpp:337-346 | the formula advances by one from each Gregorian date to the next |
| Calendar.FormulaCounts | components/gps/gps.cpp:337-346 | after n single-day steps from 1970-01-01 the formula gives n |
| Calendar.CalendarCorrect | components/gps/gps.cpp:337-346 | every date from 1970 on is the one reached by as many day steps as the formula says |
| Calendar.SecondsWithinDay | components/gps/gps.cpp:345-345 | the seconds of the day are recovered from the result |
| Nmea.VerifyChecksum | components/gps/gps.cpp:355-373 | accepts exactly lines whose two digits behind the first star equal the XOR of the body |
| Nmea.OneByteChangeDetected | components/gps/gps.cpp:355-373 | changing any one body byte to any other byte but a star makes the check fail |
| Nmea.ChecksumExactly | components/gps/gps.cpp:355-373 | any body with two bytes behind its star verifies if and only if it starts with a dollar sign and the bytes are hexadecimal digits of its XOR |
| Nmea.FromHexExact | components/gps/gps.cpp:348-353 | exactly the sixteen digits, upper or lower case |
| Nmea.SentenceVerifies | components/gps/gps.cpp:355-373 | every body with its computed checksum verifies, whatever follows |
| Nmea.Tokenize | components/gps/gps.cpp:383-391 | the field starts are those after the commas before the star, at most 20 |
| Nmea.ParseTwo | components/gps/gps.cpp:330-334 | two digits and their value, or refusal |
| Nmea.ParseRmcLine | components/gps/gps.cpp:375-406 | the time stated by fields 1, 2 and 9 of a checksummed RMC line, or none |
| Nmea.RmcExactly | components/gps/gps.cpp:375-406 | any list of fields with any two bytes behind its star parses to a time if and only if these are the digits of its checksum, there are at least ten fields, the first starts with $GPRMC or $GNRMC, the status field starts with A, and time and date start with six digits; then to the second those digits state, and otherwise to none |
| Nmea.RmcRoundTrip | components/gps/gps.cpp:375-406 | any formatted RMC sentence of 1970 to 2069 parses back to its second, whatever the other fields and trailing bytes |
| NtpTimestamp.SubUs | components/ntp_server/ntp_server.cpp:190-196 | the 64-bit timestamp minus trunc(us*2^32/10^6), modulo 2^64 |
| NtpTimestamp.CorrectionExact | components/ntp_server/ntp_server.cpp:190-196 | the correction in 2^-32 s is us*2^32/10^6 rounded toward zero, symmetrically |
| NtpTimestamp.CalibrationCancels | components/ntp_server/ntp_server.cpp:782-785 | calibrating both t2 and t3 leaves t3 - t2 unchanged |
| NtpTimestamp.OneSidedCalibration | components/ntp_server/ntp_server.cpp:830-832 | calibrating t2 alone shifts t3 - t2 by the correction |
| NtpTimestamp.DeltaError | components/ntp_server/ntp_server.cpp:313-317 | the corrected delta is nonnegative and within 1 us of the exactly corrected one for rate errors up to 500 ppm |
| NtpTimestamp.DeltaMonotone | components/ntp_server/ntp_server.cpp:313-317 | the corrected delta is nondecreasing in the elapsed time |
| NtpTimestamp.ComputedUnits | components/ntp_server/ntp_server.cpp:304-321 | the timestamp is the pulse's second plus floor(delta*2^32/10^6), modulo the era; the pulse's own fraction is not added |
| NtpTimestamp.ClampedBeforePulse | components/ntp_server/ntp_server.cpp:304-321 | a clock read before the pulse it is based on stands at the pulse's second |
| NtpTimestamp.ReadingsCoincide | components/ntp_server/ntp_server.cpp:304-321 | two conversions against one pulse and rate give the same timestamp if and only if their corrected deltas are the same microsecond modulo the era |
| NtpTimestamp.ServedTimeMonotone | components/ntp_server/ntp_server.cpp:304-321 | for a fixed pulse and rate the timestamp advances between two instants by exactly the nonnegative difference of the two unwrapped times, and the later one is the greater if and only if no era boundary lies between |
| PpsHandoff.RunInv | components/gps/gps.cpp:815-819 | under every interleaving of stores and loads each cell and each loaded word is that of the pulse of its age |
| PpsHandoff.WholeRead | components/ntp_server/ntp_server.cpp:306-308 | a read of the last pulse is of one pulse if and only if its time and second are loaded with no store in progress or between them, the first time word after its own store, and the fraction before the next one's |
| PpsHandoff.TornByOnePulse | components/ntp_server/ntp_server.cpp:306-308 | during one pulse's stores the second is that of the pulse of the monotonic time or of the next, the next exactly when it was stored before its load and after the time's |
| PpsHandoff.TornServedTime | components/ntp_server/ntp_server.cpp:313-320 | a torn pair serves a time that is off by exactly the difference of the two seconds |
| PpsHandoff.TornReadExists | components/gps/gps.cpp:815-819 | a schedule in which the reader takes the monotonic time of one pulse and the second of the next |
| NtpServer.WireInjective | components/ntp_server/ntp_server.cpp:198-201 | eight wire bytes determine the timestamp, so comparing bytes compares times |
| NtpServer.NtpServer.constructor | components/ntp_server/ntp_server.cpp:558-590 | buckets start at second 0xFFFFFFFF with no requests, invalid and cold |
| NtpServer.NtpServer.StampArrival | components/ntp_server/ntp_server.cpp:519-546 | t2 is the captured arrival if it is within 2 ms of the cross-check reading of the clock, else the clock read again, calibrated |
| NtpServer.NtpServer.CountRequest | components/ntp_server/ntp_server.cpp:595-622 | per-bucket and global counts restart with a new second and count this request |
| NtpServer.NtpServer.WriteBasic | components/ntp_server/ntp_server.cpp:480-547 | the in-place header, reference, origin and receive fields of a basic reply |
| NtpServer.NtpServer.WriteMode | components/ntp_server/ntp_server.cpp:628-650 | the in-place rewrites turn it into the interleaved or Kiss-o'-Death reply and touch nothing else |
| NtpServer.NtpServer.Transmit | components/ntp_server/ntp_server.cpp:715-840 | the frame of the late or the blocking path with its transmit field, whether it completed, and the fired frame that may have left before the blocking one |
| NtpServer.NtpServer.AdvanceChain | components/ntp_server/ntp_server.cpp:840-882 | receive bytes and measured send time become the bucket's saved pair |
| NtpServer.NtpServer.SendReply | components/ntp_server/ntp_server.cpp:679-882 | drops, failed sends and completed replies equal the step function |
| NtpServer.NtpServer.Loop | components/ntp_server/ntp_server.cpp:463-882 | one served request equals the step function, early returns included |
| NtpChain.InterleavedChain | components/ntp_server/ntp_server.cpp:613-650 | in every run a completed reply is interleaved if and only if it is no Kiss-o'-Death and echoes the receive time of its bucket's last completed reply; origin and transmit fields follow the mode |
| NtpReply.ReplyHeader | components/ntp_server/ntp_server.cpp:480-514 | in every run, in wire bytes: a locked reply has leap 0, stratum 1 and refid PPS, an unlocked one leap 3, stratum 16 and no refid, a Kiss-o'-Death leap 3, stratum 0, refid RATE and no delay or dispersion; all have the version held to 3 or 4, mode 4, poll 6, precision -20, and the given delay, dispersion and reference |
| NtpReply.OutcomeExactly | components/ntp_server/ntp_server.cpp:463-882 | in every run: which requests are ignored, dropped, failed or answered with Kiss-o'-Death, each if and only if, with the budgets 20 and 200 |
| NtpReply.UnlockedReceive | components/ntp_server/ntp_server.cpp:323-326 | unlocked and uncalibrated, the receive field is the wall second plus 70 years of which 17 are leap years |
| NtpReply.ArrivalChosen | components/ntp_server/ntp_server.cpp:519-546 | the captured arrival is served if and only if the server is locked, one is fresh, and it is less than 2 ms from the cross-check reading, across an era boundary as well |
| NtpReply.WarmIsAnswered | components/ntp_server/ntp_server.cpp:595-628 | in every run a bucket is warm if and only if it has a saved pair |
| NtpReply.BucketIsTopBits | components/ntp_server/ntp_server.cpp:591-594 | the bucket is the top six bits of the address times 2654435761 modulo 2^32 |
| NtpChain.NoForeignTimestamp | components/ntp_server/ntp_server.cpp:572-583 | in every run an interleaved reply that echoes reply k carries k's own measured time if and only if the last reply completed to the bucket is k or was measured at the same time; in particular when no later one shares k's receive time |
| NtpChain.ForeignTimestampServed | components/ntp_server/ntp_server.cpp:572-583 | a run of three unlocked requests from two clients of one bucket in which the first is answered with the time measured for the second |
| NtpChain.ServeKeeps | components/ntp_server/ntp_server.cpp:595-882 | every call keeps the saved pairs equal to the last completed reply of each bucket; Kiss-o'-Death, dropped and failed replies do not advance it |
| NtpChain.SavedPairDistinct | components/ntp_server/ntp_server.cpp:871-880 | the saved transmit time is the calibrated time of the send, with its lowest bit turned if and only if it would equal the saved receive time, so it never does |
| NtpChain.EqualStampsByMode | components/ntp_server/ntp_server.cpp:782-833 | in every run a reply carries transmit equal to receive if and only if: interleaved, the time saved for the last exchange is this receive time; basic or Kiss-o'-Death, the two clock readings coincide on the late path, or the uncalibrated reading and the calibrated arrival on the blocking path |
| NtpChain.LockedEqualReadings | components/ntp_server/ntp_server.cpp:304-321 | while locked the late-path readings coincide if and only if the corrected microseconds do |
| NtpChain.UnlockedEqualStamps | components/ntp_server/ntp_server.cpp:323-326 | the same for unlocked replies of each mode as a condition on wall seconds and calibration |
| NtpChain.InterleavedEqualStamps | components/ntp_server/ntp_server.cpp:871-880 | a run of two unlocked requests whose interleaved reply carries equal stamps |
| NtpChain.Turnaround | components/ntp_server/ntp_server.cpp:782-832 | t3 - t2 is the difference of the clock readings on the late path and shifted by the calibration on the blocking path |
| NtpChain.ArrivalNearClock | components/ntp_server/ntp_server.cpp:531-543 | the arrival served is the clock's reading or within 2 ms of the cross-check reading, and within 2 ms of the clock when both readings agree |
| NtpChain.CountsAreTrailing | components/ntp_server/ntp_server.cpp:595-622 | the counts are the requests since the last one of another second |
| NtpChain.KodIffOverBudget | components/ntp_server/ntp_server.cpp:595-628 | a reply is a Kiss-o'-Death if and only if it is past the 20th request of its bucket or the 200th overall without a change of second |
| NtpChain.StrayDiffersInTransmit | components/ntp_server/ntp_server.cpp:743-836 | a fired frame whose completion was not seen differs from the blocking send of the same reply in the transmit field only, and not at all if interleaved |
| NtpChain.InitialSecondOccurs | components/ntp_server/ntp_server.cpp:554-590 | the initial second of a bucket does occur: unlocked with a positive calibration below a second, exactly at wall second 0 modulo 2^32 |
| MqttWire.VarIntLength | components/mqtt_publish/mqtt_wire.c:20-25 | the size table is the encoded length for every value below 2^28 |
| MqttWire.EncodeRemainingLength | components/mqtt_publish/mqtt_wire.c:9-18 | the loop writes the MQTT 3.1.1 section 2.2.3 encoding |
| MqttWire.WriteCString | components/mqtt_publish/mqtt_wire.c:31-37 | length prefix and bytes |
| MqttWire.SerializeConnect | components/mqtt_publish/mqtt_wire.c:39-74 | writes exactly the CONNECT packet, or -1 with the buffer untouched if it does not fit |
| MqttWire.SerializePublish | components/mqtt_publish/mqtt_wire.c:76-95 | writes exactly the PUBLISH packet, or -1 with the buffer untouched if it does not fit |
| MqttWire.SerializePingreq | components/mqtt_publish/mqtt_wire.c:97-102 | writes C0 00, or -1 if it does not fit |
| MqttWire.Transport.ReadNb | components/mqtt_publish/mqtt_wire.c:112-151 | one resumable call returns, consumes and leaves exactly what the automaton over the delivered bytes does |
| MqttWire.Transport.ReadLength | components/mqtt_publish/mqtt_wire.c:125-137 | the remaining-length phase, its errors and its suspension |
| MqttWire.Transport.ReadBody | components/mqtt_publish/mqtt_wire.c:139-150 | the payload phase under any partial reads |
| MqttWire.Transport.ReadSome | components/mqtt_publish/mqtt_wire.c:139-147 | one read of the payload phase |
| MqttWire.AutomatonIsOneShot | components/mqtt_publish/mqtt_wire.c:112-151 | the byte automaton is done, unfinished or failed exactly when the one-shot parser finds one whole packet, needs more, or rejects |
| MqttWire.ParsesExactly | components/mqtt_publish/mqtt_wire.c:112-151 | every input of the one-shot parser: malformed on four continued length bytes, rejected beyond the buffer, else header and exactly the stated bytes once present |
| MqttWire.LengthExamples | components/mqtt_publish/mqtt_wire.c:9-18 | the encodings given in MQTT 3.1.1 section 2.2.3 |
| MqttWire.FragmentationIndependent | components/mqtt_publish/mqtt_wire.c:112-151 | under every schedule of short, empty and failing reads, polling until nonzero yields the type and body of a one-shot parse and consumes exactly that packet; only what the parser rejects is rejected |
| MqttWire.EnoughReadsFinish | components/mqtt_publish/mqtt_wire.c:112-151 | one data-bearing read per byte of the packet suffices to finish |
| MqttWire.ZeroTypeLooksUnfinished | components/mqtt_publish/mqtt_wire.c:148-150 | a completed packet is indistinguishable from an unfinished one exactly for type nibble 0 |
| MqttWire.PublishRoundTrip | components/mqtt_publish/mqtt_wire.c:76-95 | reading a serialized PUBLISH back is the identity for every topic and payload that fits |
| MqttWire.ConnectRoundTrip | components/mqtt_publish/mqtt_wire.c:39-74 | reading a serialized CONNECT back is the identity, will and credentials included |
| MqttPublisher.MqttPublisher.constructor | components/mqtt_publish/mqtt_publish.cpp:106-114 | the initial publisher |
| MqttPublisher.MqttPublisher.ResetToDisconnected | components/mqtt_publish/mqtt_publish.cpp:161-169 | closes the socket and clears the send and receive state |
| MqttPublisher.MqttPublisher.PumpSend | components/mqtt_publish/mqtt_publish.cpp:175-185 | advances by what the socket took, resets on error, and says whether the packet is out |
| MqttPublisher.MqttPublisher.StageConnectPacket | components/mqtt_publish/mqtt_publish.cpp:336-355 | stages the CONNECT packet, or nothing if it does not fit |
| MqttPublisher.MqttPublisher.StagePublish | components/mqtt_publish/mqtt_publish.cpp:376-447 | stages a retained PUBLISH; refusal leaves the send offset |
| MqttPublisher.MqttPublisher.StagePingReq | components/mqtt_publish/mqtt_publish.cpp:449-454 | stages PINGREQ |
| MqttPublisher.MqttPublisher.Receive | components/mqtt_publish/mqtt_publish.cpp:92-104 | one reader call; a closed socket reads as an error |
| MqttPublisher.MqttPublisher.HandleDisconnected | components/mqtt_publish/mqtt_publish.cpp:200-217 | waits, retries later, or opens a new connection |
| MqttPublisher.MqttPublisher.HandleTcpConnecting | components/mqtt_publish/mqtt_publish.cpp:219-234 | stages CONNECT when established, resets on failure or timeout |
| MqttPublisher.MqttPublisher.HandleSendingConnect | components/mqtt_publish/mqtt_publish.cpp:236-247 | pumps until sent or timed out |
| MqttPublisher.MqttPublisher.HandleAwaitingConnack | components/mqtt_publish/mqtt_publish.cpp:249-281 | proceeds only on a CONNACK judged successful |
| MqttPublisher.MqttPublisher.HandlePublishingDiscovery | components/mqtt_publish/mqtt_publish.cpp:283-306 | one entry per tick, then availability, then connected |
| MqttPublisher.MqttPublisher.HandleConnected | components/mqtt_publish/mqtt_publish.cpp:308-334 | drop detection, pending bytes, report, keep-alive, drain, in that order |
| MqttPublisher.MqttPublisher.Loop | components/mqtt_publish/mqtt_publish.cpp:187-198 | dispatches on the state |
| MqttStream.StepKeepsInv | components/mqtt_publish/mqtt_publish.cpp:161-334 | every poll and chip reset keeps: accepted bytes plus the unsent rest are the staged packets, CONNECT first, nothing more before an acknowledgement |
| MqttStream.StreamIntegrity | components/mqtt_publish/mqtt_publish.cpp:161-334 | for every schedule of accepted, busy and failing sends, reads and resets, a broker parsing the accepted bytes sees the staged packets whole and in order, CONNECT first exactly when it fits, and nothing after it unless a CONNACK was among the bytes read so far |
| MqttDuties.RetainedPublishes | components/mqtt_publish/mqtt_publish.cpp:376-447 | a staged publication reads back as one PUBLISH of its payload under its topic, retained, QoS 0 |
| MqttDuties.ConnectedDuties | components/mqtt_publish/mqtt_publish.cpp:308-334 | a connected poll with nothing pending appends the due report under the state topic, else PINGREQ once 45 s have passed, else nothing |
| MqttDuties.ConnectedOtherwise | components/mqtt_publish/mqtt_publish.cpp:308-334 | a connected poll drops the connection if and only if the socket is closed by either side, a pending send fails, or, with nothing due, the reader fails; pending bytes go first |
| MqttDuties.DiscoveryEnds | components/mqtt_publish/mqtt_publish.cpp:283-306 | discovery ends if and only if all 15 announcements are done and out, and both timers then start |
| MqttDuties.ReplyDecides | components/mqtt_publish/mqtt_publish.cpp:249-281 | within its 3 s the awaited reply starts discovery if and only if a packet of type 2 with second byte 0 was read; anything else read, or an error, drops the connection |
| MqttDuties.AnnouncementsInOrder | components/mqtt_publish/mqtt_publish.cpp:283-306 | in every run from boot the packets staged on a connection are CONNECT if it fits, the discovery entries in order with unfitting ones left out, then online under the availability topic, and only then anything else |
| MqttDuties.HelloDecodes | components/mqtt_publish/mqtt_publish.cpp:336-355 | CONNECT reads back as the client id, clean session, 60 s keep-alive, offline as retained will under the availability topic, and each non-empty credential in its own field |
| MqttDuties.HelloBytes | components/mqtt_publish/mqtt_wire.c:39-74 | its type, protocol name, level, flags and keep-alive as bytes |
| MqttDuties.ConnectsWhenDue | components/mqtt_publish/mqtt_publish.cpp:200-217 | a connection attempt is made if and only if the retry time is reached and there is an address; a refused one waits 5 s |
| MqttDuties.OpeningGivesUp | components/mqtt_publish/mqtt_publish.cpp:219-281 | each opening state ends after more than 3 s, and the first on a closed socket, and otherwise moves on as soon as its condition holds |
| MqttDuties.BufferAfterRead | components/mqtt_publish/mqtt_wire.c:139-150 | a read leaves the body so far at the front of the receive buffer and what was there before behind it |
| MqttDuties.DropWaits | components/mqtt_publish/mqtt_publish.cpp:161-169 | a dropped connection leaves a closed socket, nothing pending and 5 s to wait |
| MqttDuties.BufferSizes | components/mqtt_publish/mqtt_publish.cpp:106-114 | in every run the buffers are 768 and 64 bytes |
| MqttStream.SplitOfPrefix | components/mqtt_publish/mqtt_publish.cpp:175-185 | any prefix of a concatenation of packets parses into exactly those packets it contains whole |
| MqttStream.AwaitRead | components/mqtt_publish/mqtt_publish.cpp:249-281 | while the reply is awaited the reader stays in the first packet not of type zero, and reports that packet |
| MqttStream.ConnackVerdict | components/mqtt_publish/mqtt_wire.c:104-110 | a CONNACK counts as success exactly if its second byte, or the stale byte behind a shorter body, is zero |
| MqttStream.CodelessConnackAccepted | components/mqtt_publish/mqtt_publish.cpp:268-277 | a run from boot in which the frame 20 00 is taken for an accepted connection |
| MqttStream.OversizedConnectIsSkipped | components/mqtt_publish/mqtt_publish.cpp:219-247 | a five-tick run in which an oversized CONNECT is never sent and a PUBLISH goes first |
| DhcpCodec.WalkInverts | components/w5500_eth/w5500_dhcp.c:258-278 | walking an encoded option list closed by END gives the list back, pads and trailing bytes included |
| DhcpCodec.AbsorbIsMeaning | components/w5500_eth/w5500_dhcp.c:265-276 | each known option ends with its last sufficiently long value |
| DhcpCodec.ParseReply | components/w5500_eth/w5500_dhcp.c:247-280 | accepts exactly replies to this transaction and hardware address that carry a type, in bounds |
| DhcpCodec.ParseOptions | components/w5500_eth/w5500_dhcp.c:258-278 | the option loop absorbs exactly the walked options and stays in bounds |
| DhcpCodec.BuildHeader | components/w5500_eth/w5500_dhcp.c:167-192 | the in-place fixed part and common options, zeros behind |
| DhcpCodec.PutOption | components/w5500_eth/w5500_dhcp.c:184-191 | one option appended |
| DhcpCodec.MessageDecodes | components/w5500_eth/w5500_dhcp.c:167-216 | a server reading any built message finds its id, addresses, broadcast flag and exactly its options, in 548 bytes |
| DhcpClient.OptSizes | components/w5500_eth/w5500_dhcp.c:194-235 | the options of every message fit the 548 bytes |
| DhcpClient.DhcpClient.constructor | components/w5500_eth/w5500_dhcp.c:64-85 | the statics before init |
| DhcpClient.DhcpClient.Tick1s | components/w5500_eth/w5500_dhcp.c:131-131 | the tick wraps at 32 bits |
| DhcpClient.DhcpClient.BuildMessage | components/w5500_eth/w5500_dhcp.c:167-192 | broadcast flag and ciaddr as the phase requires |
| DhcpClient.DhcpClient.SendDiscoverFrame | components/w5500_eth/w5500_dhcp.c:218-221 | exactly the DISCOVER message goes out and restarts the phase timer |
| DhcpClient.DhcpClient.SendRequestFrame | components/w5500_eth/w5500_dhcp.c:223-235 | exactly the phase's REQUEST message goes out to its destination |
| DhcpClient.DhcpClient.SendDeclineFrame | components/w5500_eth/w5500_dhcp.c:355-363 | exactly the DECLINE message goes out |
| DhcpClient.DhcpClient.Restart | components/w5500_eth/w5500_dhcp.c:328-332 | a new transaction in INIT |
| DhcpClient.DhcpClient.Drop | components/w5500_eth/w5500_dhcp.c:334-339 | address and chip cleared together |
| DhcpClient.DhcpClient.Bind | components/w5500_eth/w5500_dhcp.c:282-320 | adopts, times, caches and reports a lease |
| DhcpClient.DhcpClient.Adopt | components/w5500_eth/w5500_dhcp.c:287-296 | address, server, mask and gateway, with their defaults, programmed |
| DhcpClient.DhcpClient.SetTimers | components/w5500_eth/w5500_dhcp.c:298-306 | absolute timers with defaults and the endless lease |
| DhcpClient.DhcpClient.Save | components/w5500_eth/w5500_dhcp.c:104-113 | writes flash only when the cached lease differs |
| DhcpClient.DhcpClient.Begin | components/w5500_eth/w5500_dhcp.c:135-164 | reclaims a cached lease or starts from 0.0.0.0 |
| DhcpClient.DhcpClient.Receive | components/w5500_eth/w5500_dhcp.c:370-382 | the last matching offer and acknowledgement and any refusal among the queued datagrams |
| DhcpClient.DhcpClient.OnTimeout | components/w5500_eth/w5500_dhcp.c:399-403 | resends or gives up after the third frame |
| DhcpClient.DhcpClient.HandleSelecting | components/w5500_eth/w5500_dhcp.c:390-404 | the SELECTING branch |
| DhcpClient.DhcpClient.HandleRequesting | components/w5500_eth/w5500_dhcp.c:406-426 | the REQUESTING branch with its probe and decline |
| DhcpClient.DhcpClient.HandleRebooting | components/w5500_eth/w5500_dhcp.c:427-450 | the REBOOTING branch |
| DhcpClient.DhcpClient.HandleLeased | components/w5500_eth/w5500_dhcp.c:452-463 | the LEASED branch |
| DhcpClient.DhcpClient.HandleExtending | components/w5500_eth/w5500_dhcp.c:465-485 | the RENEWING and REBINDING branches |
| DhcpClient.DhcpClient.RunOnce | components/w5500_eth/w5500_dhcp.c:365-487 | one run equals the step function in every phase |
| DhcpSafety.RunBinds | components/w5500_eth/w5500_dhcp.c:406-468 | a run binds exactly on a matching acknowledgement in an asking phase that passes the probe rule; otherwise the address stays or is dropped on a refusal |
| DhcpSafety.OnlyMatchingAckBinds | components/w5500_eth/w5500_dhcp.c:365-468 | a changed address came from an ACK with the current xid and chaddr in an asking phase, probed if fresh in REQUESTING, or is 0.0.0.0 on a matching NAK |
| DhcpSafety.CollectExplained | components/w5500_eth/w5500_dhcp.c:370-382 | the inbox holds the last matching offer, the last matching acknowledgement and whether any refusal matched |
| DhcpSafety.AddressProgrammed | components/w5500_eth/w5500_dhcp.c:135-339 | in every reachable state the chip's address is the lease address |
| DhcpSafety.StaleRepliesIgnored | components/w5500_eth/w5500_dhcp.c:250-253 | datagrams not answering the current transaction change nothing |
| DhcpSafety.EarlierTransactionIgnored | components/w5500_eth/w5500_dhcp.c:328-332 | replies to any earlier transaction since init change nothing until the 32-bit id comes round |
| DhcpSafety.XidCounts | components/w5500_eth/w5500_dhcp.c:328-332 | the id advances by one per transaction |
| DhcpSafety.BoundLeaseCached | components/w5500_eth/w5500_dhcp.c:104-113 | while flash writes succeed a held lease is exactly the cached one, over every run |
| DhcpSafety.RefusalAndCache | components/w5500_eth/w5500_dhcp.c:419-468 | a refusal drops the address, and erases the cache if and only if rebooting |
| DhcpWire.OfferIsRequested | components/w5500_eth/w5500_dhcp.c:390-398 | in SELECTING the last OFFER taken is answered in the same run by one broadcast REQUEST whose option 50 is that datagram's bytes 16 to 20 and whose option 54 is that datagram's own option 54 |
| DhcpWire.AckIsBound | components/w5500_eth/w5500_dhcp.c:282-320 | a run that takes an ACK and finds no fresh address in use holds exactly the lease that datagram states: address, mask, gateway, server, T1, T2 and end with their defaults, cached, and reported as first, changed or kept |
| DhcpWire.UsedAddressIsDeclined | components/w5500_eth/w5500_dhcp.c:406-416 | a fresh address in use is declined by name to its server under the old transaction, then discovery restarts under a new one |
| DhcpWire.MatchesIsAnswers | components/w5500_eth/w5500_dhcp.c:247-280 | which datagrams are taken, in bytes: port 67, op 2, id, hardware address, cookie and type |
| DhcpWire.ParseSays | components/w5500_eth/w5500_dhcp.c:258-280 | what is taken from one: bytes 16 to 20 and the last long enough options 54, 1, 3, 51, 58 and 59 |
| DhcpWire.MessageSays | components/w5500_eth/w5500_dhcp.c:167-192 | every message built is op 1, Ethernet, with id, broadcast flag, ciaddr, hardware address and cookie at their offsets, and its options |
| DhcpLifecycle.SilentLifecycle | components/w5500_eth/w5500_dhcp.c:452-485 | with one run per tick and no replies the phase is LEASED, RENEWING, REBINDING, INIT on exactly the tick boundaries, the address programmed throughout |
| DhcpLifecycle.ExpiredLeaseRediscovers | components/w5500_eth/w5500_dhcp.c:469-476 | one tick after the lease end discovery starts with the old address still programmed |
| DhcpLifecycle.UnansweredPhase | components/w5500_eth/w5500_dhcp.c:322-332 | an unanswered phase sends frames 0, 1 and 3 ticks after entry and is in INIT with a new id after exactly 1+2+4 ticks, tick wrap included |
| DhcpWire.StartReclaims | components/w5500_eth/w5500_dhcp.c:135-164 | init asks once for the cached address with the random id, or starts from 0.0.0.0 |
| DhcpWire.InitDiscovers | components/w5500_eth/w5500_dhcp.c:384-389 | INIT sends one DISCOVER, whatever was queued |
| DhcpWire.ResendsOwnFrame | components/w5500_eth/w5500_dhcp.c:399-450 | an unanswered phase repeats its own frame after 1 and 2 s and gives up after 4, with the status of each case |
| DhcpWire.LeaseIsExtended | components/w5500_eth/w5500_dhcp.c:452-463 | a lease at T1 asks its server and at T2 everyone, under a new transaction, and not before |
| DhcpWire.ExtensionRepeats | components/w5500_eth/w5500_dhcp.c:465-485 | an unanswered extension repeats every 8 s, widens at T2 and restarts discovery at the end |
| DhcpLifecycle.PhaseBudget | components/w5500_eth/w5500_dhcp.c:384-450 | whatever arrives, a stay in SELECTING, REQUESTING or REBOOTING sends at most three frames |
| DhcpLifecycle.DefaultTimersOrdered | components/w5500_eth/w5500_dhcp.c:303-305 | default T1 <= T2 <= end if and only if the lease is at least 8 s or at most 1 s |
| DhcpLifecycle.BoundTimersOrdered | components/w5500_eth/w5500_dhcp.c:298-306 | the same for the absolute timers of a bound lease, an unstated lease being 3600 s |
| DhcpLifecycle.RequestOnWire | components/w5500_eth/w5500_dhcp.c:223-235 | destination, broadcast flag, ciaddr, id, chaddr and options of each phase's REQUEST, RFC 2131 section 4.3.2 |
| DhcpLifecycle.RequestedOptions | components/w5500_eth/w5500_dhcp.c:223-235 | options 50 and 54 appear exactly in the phases that require them |
| DhcpLifecycle.DeclineOnWire | components/w5500_eth/w5500_dhcp.c:355-363 | a DECLINE names the address and its server and does not restart the phase timer |
| W5500Ring.Chip.constructor | components/w5500_eth/w5500_drv.c:127-139 | an opened socket with empty rings at arbitrary pointers |
| W5500Ring.Chip.Stage | components/w5k/w5k_udp_wrapper.c:163-201 | one ring write and one pointer advance if there is room, dropping bursts over 61 bytes |
| W5500Ring.Chip.StampAndFire | components/w5k/w5k_udp_wrapper.c:213-219 | patches in place and sends everything pending |
| W5500Ring.Chip.FastSend | components/w5k/w5k_udp_wrapper.c:163-219 | stage, stamp, fire for every frame of up to a ring and every pointer value; up to 61 bytes the wire sees leftover plus patched frame |
| W5500Ring.Chip.SendTo | components/w5500_eth/w5500_drv.c:141-185 | the plain send puts leftover plus frame on the wire; without room or outside UDP state nothing; every return code |
| W5500Ring.Chip.RecvFast | components/w5k/w5k_udp_wrapper.c:55-101 | one burst, at most 50 payload bytes, then the pointer past the datagram |
| W5500Ring.Chip.RecvPlain | components/w5500_eth/w5500_drv.c:187-210 | header and payload bursts, then the pointer past the datagram |
| W5500Ring.FastSendRefinesPlain | components/w5k/w5k_udp_wrapper.c:163-219 | for every pair of pointers and whatever is pending, fast send and plain send of the patched frame agree on every ring if and only if the frame is at most 61 bytes; from an empty ring the bytes are exactly the patched frame |
| W5500Ring.FastStageLimit | components/w5500_eth/w5500_eth.cpp:197-206 | the fast stage carries a frame into every ring if and only if it is at most 61 bytes |
| W5500Ring.HeadReceived | components/w5k/w5k_udp_wrapper.c:55-101 | for every queue and pointer both receives return the head, agree for at most 50 bytes, and leave the rest of the queue at the next header |
| W5500Ring.DrainsInOrder | components/w5k/w5k_udp_wrapper.c:55-101 | draining hands out every datagram once, in order, and nothing else |
| W5500Ring.ConsumedExact | components/w5k/w5k_udp_wrapper.c:84-90 | the advance is min(8 + plen, rsr) if and only if plen is at most 65527 |
| W5500Spi.ControlFields | components/w5500_eth/w5500_eth.cpp:237-239 | the header keeps offset, block and direction apart |
| W5500Spi.Bus.FifoFrame | components/w5500_eth/w5500_eth.cpp:234-258 | for every length the chip sees header then exactly the payload under one chip select, and a read delivers exactly the bytes answered behind the header |
| ConfigStore.Config.constructor | components/config/config_store.c:219-275 | boot in normal or safe mode |
| ConfigStore.Config.Load | components/config/config_store.c:251-271 | the load loop gives every field its flash value if present and in range, else its default |
| ConfigStore.Config.StageValue | components/config/config_store.c:320-351 | one staged value, every refusal included |
| ConfigStore.Config.ClearValue | components/config/config_store.c:353-360 | clears a text field |
| ConfigStore.Config.CommitAll | components/config/config_store.c:362-399 | one commit against any behaviour of the flash |
| ConfigStore.Config.WriteFields | components/config/config_store.c:377-389 | the write loop, stopping at the first failing set |
| ConfigStore.CheckIpv4 | components/config/config_store.c:302-318 | accepts exactly four dotted groups of one to three digits up to 255 |
| ConfigText.AddressExactly | components/config/config_store.c:302-318 | an address is accepted if and only if it is four groups of one to three digits worth at most 255, joined by dots |
| ConfigText.NumbersRead | components/config/config_store.c:341-343 | an optional sign and the decimal digits of a number read as that number; with anything behind them, or none, they are refused |
| ConfigText.BlanksSkipped | components/config/config_store.c:341-343 | leading blanks do not matter |
| ConfigRuns.CommitKeeps | components/config/config_store.c:362-399 | every commit keeps memory; a successful one leaves a normal boot that loads exactly memory |
| ConfigRuns.CommitReloadAgree | components/config/config_store.c:219-399 | whatever flash held, after any stages, clears and commits every setting is in range, and a successful commit and a fresh normal boot agree with memory |
| ConfigRuns.BootLoads | components/config/config_store.c:219-275 | what a boot gives each field, in every case of flash: absent, of the other type, oversized, out of range, unreadable |
| ConfigRuns.CommitSucceeds | components/config/config_store.c:362-399 | a commit succeeds if and only if nothing is to be done or flash opens, takes every staged or never stored field, and commits; one that fails keeps every mark |
| ConfigRuns.CommitSettles | components/config/config_store.c:362-373 | a commit after a successful one succeeds without opening flash |
| ConfigRuns.StageVisible | components/config/config_store.c:320-351 | an accepted value is visible at once, a blank password changes nothing, a refused value changes nothing |
| ConfigRuns.StageRefuses | components/config/config_store.c:320-351 | exactly which values a stage refuses |
| ConfigRuns.ClearEmpties | components/config/config_store.c:353-360 | a clear empties exactly text fields and nothing else |
| ConfigRuns.LockWithoutPassword | components/config/config_store.c:324-325 | without a password the lock is taken exactly for spellings of one that do not start with the digit one |
| ConfigRuns.PlusOneLocks | components/config/config_store.c:341-344 | two such spellings |

## Left out

- Register-level SPI, DMA, GPIO, MCPWM, UART and FreeRTOS calls: hardware, represented by environment inputs.
- Memory ordering on the real cores: seqlock accesses are interleaved atomic word steps, as the barriers intend.
- Floating-point rounding: `double` is exact `real`.
- Widths of pulse counts, per-second request counts, retry counters and time differences: unbounded integers where the code cannot reach the wrap in operation.
- EWMA statistics, profiling spans, histograms, metrics and log text: reporting only. The value the RMS filter takes with a pulse is an input of that pulse, the transmit correction is part of the instants given to NtpServer, and root delay and dispersion reach NtpServer already in 16.16 form.
- The frequency feed-forward and settimeofday step of each pulse, the interval jitter and the warmup reset of the other accumulators: the running clock is an input of the pairing guard.
- The Wi-Fi reply path: it shares every decision up to the transmit step.
- PpsHandoff.WholeRead: the order of the two words of the 64-bit monotonic time is the compiler's; the model stores and reads the same word first. The zero test of the second before it is read is not a step of its own.
- NtpServer.NtpServer.Loop: what reading the last pulse and the frequency returns is an arbitrary input of every conversion, so a torn pulse is covered but not tied to a schedule of PpsHandoff.
- GpsPairing.PairedWithTrueSecond: edges of true seconds are exactly 10^6 us apart on the monotonic clock; its drift over the second or so between a sentence and a pulse is not modelled.
- GpsDiscipline.Discipline.HandlePps: the NMEA second and the time of its arrival, stored by another task, are read as one pair.
- ARP priming, its time-to-live heuristics and reopening of a socket after a failed send: NtpServer sees only whether the peer is reachable.
- Home Assistant JSON texts: discovery and status payloads are arbitrary bytes within their buffers' sizes.
- MqttWire.SerializePublish, MqttWire.SerializeConnect: bodies of 2^28 bytes and more are outside the contract, as the source says they do not occur.
- MqttPublisher.MqttPublisher.PumpSend: a send may take any part of the packet, which includes the chip's all-or-nothing behaviour; the chip's own send state is not modelled.
- MqttPublisher.MqttPublisher.HandleSendingConnect: the two timer reads of a tick that resets twice are one value.
- DhcpClient.DhcpClient.Save: a flash write succeeds or fails as a whole; counters, ARP retry registers and the return codes of sends are not modelled.
- W5500Ring.Chip.SendTo: polling for room and completion is represented by its outcome; bytes of a send that did not complete count as sent.
- ConfigStore.Config.StageValue: the 35-entry field table is a parameter; any table with distinct keys and defaults in range is covered, and the position of the address, password and lock entries is that of the source.
- ConfigStore.Config.CommitAll: a flash set takes effect when it returns; factory reset, boot counting and the fuse read of the lock are not modelled.
- Satellite tables and GGA, GSA and GSV parsing: off the time path, would add only easy members.
- Web pages, HTTP handling, display, Ethernet watchdog and the fallback address: no part of the properties above.
